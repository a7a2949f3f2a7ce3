/**
 * The parts of the BlueALSA control client that compute rather than talk to
 * the socket: mapping a status reply to errno, matching an event against a
 * transport, printing an address, filling the RFCOMM command field and the
 * type fix-up of a fetched transport.
 */
module CtlClient {
  import opened Wrappers
  import opened Errno
  import opened Bdaddr
  import opened CString

  // ------------------------------------------------------- status replies

  /** The status codes of the control protocol, in the order of their enum. */
  const BA_STATUS_CODE_SUCCESS: Byte := 0
  const BA_STATUS_CODE_ERROR_UNKNOWN: Byte := 1
  const BA_STATUS_CODE_DEVICE_NOT_FOUND: Byte := 2
  const BA_STATUS_CODE_STREAM_NOT_FOUND: Byte := 3
  const BA_STATUS_CODE_CODEC_NOT_SELECTED: Byte := 4
  const BA_STATUS_CODE_DEVICE_BUSY: Byte := 5
  const BA_STATUS_CODE_FORBIDDEN: Byte := 6

  /** The value a status buffer starts with before any reply is read into it. */
  const STATUS_UNSET: Byte := 0xAB

  predicate KnownStatus(code: Byte) {
    || code == BA_STATUS_CODE_SUCCESS
    || code == BA_STATUS_CODE_ERROR_UNKNOWN
    || code == BA_STATUS_CODE_DEVICE_NOT_FOUND
    || code == BA_STATUS_CODE_STREAM_NOT_FOUND
    || code == BA_STATUS_CODE_CODEC_NOT_SELECTED
    || code == BA_STATUS_CODE_DEVICE_BUSY
    || code == BA_STATUS_CODE_FORBIDDEN
  }

  /** bluealsa_status_to_errno. */
  function StatusToErrno(code: Byte): (e: int)
    ensures e == 0 <==> code == BA_STATUS_CODE_SUCCESS
    ensures e in {0, EIO, ENODEV, ENXIO, ENOENT, EBUSY, EACCES, EINVAL}
    ensures e == EINVAL <==> !KnownStatus(code)
  {
    if code == BA_STATUS_CODE_SUCCESS then 0
    else if code == BA_STATUS_CODE_ERROR_UNKNOWN then EIO
    else if code == BA_STATUS_CODE_DEVICE_NOT_FOUND then ENODEV
    else if code == BA_STATUS_CODE_STREAM_NOT_FOUND then ENXIO
    else if code == BA_STATUS_CODE_CODEC_NOT_SELECTED then ENOENT
    else if code == BA_STATUS_CODE_DEVICE_BUSY then EBUSY
    else if code == BA_STATUS_CODE_FORBIDDEN then EACCES
    else EINVAL
  }

  /** The status code an errno stands for; none for EINVAL, which any unknown code yields. */
  function ErrnoToStatus(e: int): Option<Byte> {
    if e == 0 then Some(BA_STATUS_CODE_SUCCESS)
    else if e == EIO then Some(BA_STATUS_CODE_ERROR_UNKNOWN)
    else if e == ENODEV then Some(BA_STATUS_CODE_DEVICE_NOT_FOUND)
    else if e == ENXIO then Some(BA_STATUS_CODE_STREAM_NOT_FOUND)
    else if e == ENOENT then Some(BA_STATUS_CODE_CODEC_NOT_SELECTED)
    else if e == EBUSY then Some(BA_STATUS_CODE_DEVICE_BUSY)
    else if e == EACCES then Some(BA_STATUS_CODE_FORBIDDEN)
    else None
  }

  /** The errno tells back the code exactly when the code is one the protocol defines. */
  lemma StatusToErrnoRoundTrip(code: Byte)
    ensures KnownStatus(code) <==> ErrnoToStatus(StatusToErrno(code)) == Some(code)
  {
  }

  /** What bluealsa_send_request returns, and the errno it leaves, for a status reply. */
  datatype Reply = Reply(ret: int, errno: int)

  /** The last two steps of bluealsa_send_request, once the status has been read. */
  function RequestReply(code: Byte): (r: Reply)
    ensures r.ret == 0 <==> code == BA_STATUS_CODE_SUCCESS
    ensures r.ret == 0 || r.ret == -1
    ensures r.errno == StatusToErrno(code)
  {
    var errno := StatusToErrno(code);
    Reply(if errno != 0 then -1 else 0, errno)
  }

  /** A status buffer nothing was read into counts as a failure with EINVAL. */
  lemma UnsetStatusFails()
    ensures RequestReply(STATUS_UNSET) == Reply(-1, EINVAL)
  {
  }

  // -------------------------------------------------------- event matching

  /** The fields of struct ba_msg_transport; rest stands for those this code never reads. */
  datatype MsgTransport = MsgTransport(addr: Bdaddr, typeBits: bv8, rest: seq<Byte>)

  /** struct ba_msg_event. */
  datatype MsgEvent = MsgEvent(events: bv8, addr: Bdaddr, typeBits: bv8)

  /** Two bytes are equal exactly when their values are. */
  lemma SameBits(x: bv8, y: bv8)
    ensures x as int == y as int <==> x == y
  {
  }

  /** Masking never raises a byte's value. */
  lemma AndBelow(x: bv8, y: bv8)
    ensures (x & y) as int <= x as int
  {
  }

  /**
   * bluealsa_event_match: 0 when the event is about the transport, any other
   * value otherwise. BA_PCM_TYPE is the parameter pcmType.
   */
  function EventMatch(t: MsgTransport, e: MsgEvent, pcmType: bv8 -> bv8): (r: int)
    ensures r == 0 <==> t.addr == e.addr && pcmType(t.typeBits) == pcmType(e.typeBits) && t.typeBits & e.typeBits == t.typeBits
    ensures t.addr != e.addr ==> r == Bacmp(t.addr, e.addr)
    ensures t.addr == e.addr && pcmType(t.typeBits) != pcmType(e.typeBits) ==>
      r == pcmType(t.typeBits) as int - pcmType(e.typeBits) as int
    ensures r >= 0 || t.addr != e.addr || pcmType(t.typeBits) != pcmType(e.typeBits)
  {
    SameBits(pcmType(t.typeBits), pcmType(e.typeBits));
    SameBits(t.typeBits, t.typeBits & e.typeBits);
    AndBelow(t.typeBits, e.typeBits);
    var ret := Bacmp(t.addr, e.addr);
    if ret != 0 then ret
    else
      var ret := pcmType(t.typeBits) as int - pcmType(e.typeBits) as int;
      if ret != 0 then ret
      else t.typeBits as int - (t.typeBits & e.typeBits) as int
  }

  /** Once addresses and PCM types agree, the transport matches every event whose type bits cover its own. */
  lemma EventMatchMonotone(t: MsgTransport, e1: MsgEvent, e2: MsgEvent, pcmType: bv8 -> bv8)
    requires e1.addr == e2.addr && pcmType(e1.typeBits) == pcmType(e2.typeBits)
    requires e1.typeBits & e2.typeBits == e1.typeBits
    requires EventMatch(t, e1, pcmType) == 0
    ensures EventMatch(t, e2, pcmType) == 0
  {
    assert t.typeBits & e2.typeBits == (t.typeBits & e1.typeBits) & e2.typeBits;
  }

  // ------------------------------------------------------ address printing

  /** ba2str_: "%2.2X:" for b[5] down to b[1], then "%2.2X" for b[0]. */
  function Ba2Str(ba: Bdaddr): (s: string)
    ensures |s| == 17 && NoNul(s)
  {
    Hex2(ba[5]) + ":" + Hex2(ba[4]) + ":" + Hex2(ba[3]) + ":"
      + Hex2(ba[2]) + ":" + Hex2(ba[1]) + ":" + Hex2(ba[0])
  }

  /** Characters 3k and 3k+1 of a printed address: the k-th byte from the left. */
  function Pair(s: string, k: nat): (p: string)
    requires |s| == 17 && k < 6
    ensures |p| == 2
  {
    s[3 * k..3 * k + 2]
  }

  /** Character 3k+2 of a printed address: the separator after the k-th pair. */
  function Sep(s: string, k: nat): char
    requires |s| == 17 && k < 5
  {
    s[3 * k + 2]
  }

  predicate HexPair(p: string) {
    |p| == 2 && IsUpperHex(p[0]) && IsUpperHex(p[1])
  }

  /** The shape of a printed address: six hex digit pairs separated by colons. */
  predicate AddressString(s: string) {
    && |s| == 17
    && (forall k :: 0 <= k < 6 ==> HexPair(Pair(s, k)))
    && (forall k :: 0 <= k < 5 ==> Sep(s, k) == ':')
  }

  /** Pair k of a string is the two characters at 3k and 3k+1. */
  lemma PairAt(s: string, k: nat, h: string)
    requires |s| == 17 && k < 6 && |h| == 2
    requires s[3 * k] == h[0] && s[3 * k + 1] == h[1]
    ensures Pair(s, k) == h
  {
  }

  /** Character by character: byte 5-k in positions 3k and 3k+1, a colon at 3k+2. */
  lemma Ba2StrChars(ba: Bdaddr)
    ensures var s := Ba2Str(ba);
      && s[0] == Hex2(ba[5])[0] && s[1] == Hex2(ba[5])[1] && s[2] == ':'
      && s[3] == Hex2(ba[4])[0] && s[4] == Hex2(ba[4])[1] && s[5] == ':'
      && s[6] == Hex2(ba[3])[0] && s[7] == Hex2(ba[3])[1] && s[8] == ':'
      && s[9] == Hex2(ba[2])[0] && s[10] == Hex2(ba[2])[1] && s[11] == ':'
      && s[12] == Hex2(ba[1])[0] && s[13] == Hex2(ba[1])[1] && s[14] == ':'
      && s[15] == Hex2(ba[0])[0] && s[16] == Hex2(ba[0])[1]
  {
    var h5, h4, h3, h2, h1, h0 := Hex2(ba[5]), Hex2(ba[4]), Hex2(ba[3]), Hex2(ba[2]), Hex2(ba[1]), Hex2(ba[0]);
    var s := Ba2Str(ba);
    assert s == h5 + ":" + h4 + ":" + h3 + ":" + h2 + ":" + h1 + ":" + h0;
  }

  lemma Ba2StrLayout(ba: Bdaddr)
    ensures AddressString(Ba2Str(ba))
    ensures forall k :: 0 <= k < 6 ==> Pair(Ba2Str(ba), k) == Hex2(ba[5 - k])
  {
    var s := Ba2Str(ba);
    Ba2StrChars(ba);
    PairAt(s, 0, Hex2(ba[5]));
    PairAt(s, 1, Hex2(ba[4]));
    PairAt(s, 2, Hex2(ba[3]));
    PairAt(s, 3, Hex2(ba[2]));
    PairAt(s, 4, Hex2(ba[1]));
    PairAt(s, 5, Hex2(ba[0]));
    forall k | 0 <= k < 6
      ensures Pair(s, k) == Hex2(ba[5 - k])
      ensures k < 5 ==> Sep(s, k) == ':'
    {
      // One branch per pair, so that each meets the PairAt fact and the character facts for its literal k.
      if k == 0 {
      } else if k == 1 {
      } else if k == 2 {
      } else if k == 3 {
      } else if k == 4 {
      } else {
      }
    }
  }

  /** The address a printed address stands for (the inverse of Ba2Str). */
  function Str2Ba(s: string): (ba: Bdaddr)
    requires AddressString(s)
  {
    assert HexPair(Pair(s, 0)) && HexPair(Pair(s, 1)) && HexPair(Pair(s, 2));
    assert HexPair(Pair(s, 3)) && HexPair(Pair(s, 4)) && HexPair(Pair(s, 5));
    [ParseHex2(Pair(s, 5)), ParseHex2(Pair(s, 4)), ParseHex2(Pair(s, 3)),
     ParseHex2(Pair(s, 2)), ParseHex2(Pair(s, 1)), ParseHex2(Pair(s, 0))]
  }

  lemma Ba2StrRoundTrip(ba: Bdaddr)
    ensures AddressString(Ba2Str(ba)) && Str2Ba(Ba2Str(ba)) == ba
  {
    Ba2StrLayout(ba);
    forall k | 0 <= k < 6
      ensures ParseHex2(Pair(Ba2Str(ba), k)) == ba[5 - k]
    {
      Hex2RoundTrip(ba[5 - k]);
    }
  }

  /** Two 17-character strings with the same pairs and the same separators are equal. */
  lemma PairsDetermine(s: string, t: string)
    requires |s| == 17 && |t| == 17
    requires forall k :: 0 <= k < 6 ==> Pair(t, k) == Pair(s, k)
    requires forall k :: 0 <= k < 5 ==> Sep(t, k) == Sep(s, k)
    ensures t == s
  {
    forall i | 0 <= i < 17
      ensures t[i] == s[i]
    {
      var k := i / 3;
      if i % 3 == 2 {
        assert Sep(t, k) == Sep(s, k);
      } else {
        assert Pair(t, k)[i % 3] == Pair(s, k)[i % 3];
      }
    }
  }

  /** Every well-formed address string is the printing of the address it parses to. */
  lemma Str2BaRoundTrip(s: string)
    requires AddressString(s)
    ensures Ba2Str(Str2Ba(s)) == s
  {
    var ba := Str2Ba(s);
    var t := Ba2Str(ba);
    Ba2StrLayout(ba);
    forall k | 0 <= k < 6
      ensures Pair(t, k) == Pair(s, k)
    {
      assert ba[5 - k] == ParseHex2(Pair(s, k));
      ParseHex2RoundTrip(Pair(s, k));
    }
    PairsDetermine(s, t);
  }

  /** Two addresses print alike only if they are the same address. */
  lemma Ba2StrInjective(a: Bdaddr, b: Bdaddr)
    requires Ba2Str(a) == Ba2Str(b)
    ensures a == b
  {
    Ba2StrRoundTrip(a);
    Ba2StrRoundTrip(b);
  }

  /** ba2str_ writing into the caller's char[18]: the 17 characters and a NUL. */
  method Ba2StrInto(ba: Bdaddr, str: array<char>) returns (r: array<char>)
    requires str.Length == 18
    modifies str
    ensures r == str
    ensures str[..] == Ba2Str(ba) + ['\0']
    ensures CStr(str[..]) == Ba2Str(ba)
  {
    WriteCString(str, Ba2Str(ba));
    assert str[..] == str[..17] + [str[17]];
    r := str;
  }

  // --------------------------------------------------------- RFCOMM command

  /**
   * The copy of bluealsa_send_rfcomm_command: strncpy over the whole field,
   * then a NUL forced into its last char.
   */
  method SetRfcommCommand(field: array<char>, command: string)
    requires field.Length >= 1 && ByteText(command)
    modifies field
    ensures field[field.Length - 1] == '\0'
    ensures forall i :: 0 <= i < field.Length ==>
      field[i] == if i < |command| && i < field.Length - 1 then command[i] else '\0'
    ensures CStr(field[..]) == command[..Min(|command|, field.Length - 1)]
  {
    Strncpy(field, command, field.Length);
    field[field.Length - 1] := '\0';
    CStrAfterStrncpy(field[..], command, field.Length - 1);
  }

  // ------------------------------------------------------ fetching transports

  /**
   * What the server sends back: a whole transport structure followed by a
   * status, or only a status.
   */
  datatype TransportReply = Whole(transport: MsgTransport, trailing: Byte) | StatusOnly(code: Byte)

  /**
   * bluealsa_get_transport after its request went out and its reads succeeded:
   * a short reply is a status turned into errno; a whole one is returned with
   * its type replaced by the requested type, whatever status follows it.
   */
  function GetTransport(reply: TransportReply, requested: bv8): (r: Result<MsgTransport>)
    ensures r.Ok? <==> reply.Whole?
    ensures reply.StatusOnly? ==> r.errno == StatusToErrno(reply.code)
    ensures reply.Whole? ==> r.value.typeBits == requested
    ensures reply.Whole? ==> r.value.addr == reply.transport.addr && r.value.rest == reply.transport.rest
  {
    match reply
    case StatusOnly(code) => Err(StatusToErrno(code))
    case Whole(t, _) => Ok(t.(typeBits := requested))
  }

  /** The status read after a whole transport does not change the outcome. */
  lemma TrailingStatusIgnored(t: MsgTransport, s1: Byte, s2: Byte, requested: bv8)
    ensures GetTransport(Whole(t, s1), requested) == GetTransport(Whole(t, s2), requested)
  {
  }

  /** Two fetches of the same transport under different requested types differ only in the type. */
  lemma RequestedTypeWins(t: MsgTransport, s: Byte, r1: bv8, r2: bv8)
    ensures GetTransport(Whole(t, s), r1).value.(typeBits := r2) == GetTransport(Whole(t, s), r2).value
  {
  }

  /** A short reply fails even when its code reads as success: the errno is then 0. */
  lemma ShortSuccessReplyFails(requested: bv8)
    ensures GetTransport(StatusOnly(BA_STATUS_CODE_SUCCESS), requested) == Err(0)
  {
  }
}
