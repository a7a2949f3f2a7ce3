/**
 * NUL-terminated strings in fixed char buffers, and the pieces of printf
 * formatting the model needs (%d of a non-negative int, %2.2X of a byte).
 */
module CString {
  import opened Bdaddr
  import opened Wrappers

  /** True when s is the text of a C string: it holds no NUL. */
  predicate NoNul(s: string) {
    '\0' !in s
  }

  /**
   * The text of a C string of bytes: no NUL, and every char stands for one
   * byte (its code is below 256), so a char buffer of n cells holds n bytes.
   */
  predicate ByteText(s: string) {
    && NoNul(s)
    && forall i :: 0 <= i < |s| ==> s[i] as int < 256
  }

  /** The C string stored in a buffer: everything before the first NUL. */
  function CStr(buf: seq<char>): (r: string)
    ensures NoNul(r)
    ensures |r| <= |buf| && r == buf[..|r|]
    ensures |r| < |buf| ==> buf[|r|] == '\0'
  {
    if buf == [] || buf[0] == '\0' then []
    else
      var rest := CStr(buf[1..]);
      assert buf[..1 + |rest|] == [buf[0]] + buf[1..][..|rest|];
      [buf[0]] + rest
  }

  /** A buffer whose first |s| chars are s followed by a NUL holds the C string s. */
  lemma CStrOfTerminated(buf: seq<char>, s: string)
    requires NoNul(s) && |s| < |buf|
    requires buf[..|s|] == s && buf[|s|] == '\0'
    ensures CStr(buf) == s
  {
  }

  /**
   * strncpy(dst, src, n): the first n chars of dst become src, padded with
   * NULs when src is shorter than n; nothing beyond n is written.
   */
  method Strncpy(dst: array<char>, src: string, n: nat)
    requires n <= dst.Length && NoNul(src)
    modifies dst
    ensures forall i :: 0 <= i < n ==> dst[i] == if i < |src| then src[i] else '\0'
    ensures forall i :: n <= i < dst.Length ==> dst[i] == old(dst[i])
  {
    var i := 0;
    while i < n
      invariant 0 <= i <= n
      invariant forall j :: 0 <= j < i ==> dst[j] == if j < |src| then src[j] else '\0'
      invariant forall j :: i <= j < dst.Length ==> dst[j] == old(dst[j])
    {
      dst[i] := if i < |src| then src[i] else '\0';
      i := i + 1;
    }
  }

  /**
   * After strncpy(dst, src, n) into a buffer whose char n is a NUL, the
   * buffer holds the longest prefix of src that has at most n chars.
   */
  lemma CStrAfterStrncpy(buf: seq<char>, src: string, n: nat)
    requires NoNul(src) && n < |buf| && buf[n] == '\0'
    requires forall i :: 0 <= i < n ==> buf[i] == if i < |src| then src[i] else '\0'
    ensures CStr(buf) == src[..Min(|src|, n)]
  {
    var m := Min(|src|, n);
    assert buf[..m] == src[..m];
    CStrOfTerminated(buf, src[..m]);
  }

  /**
   * sprintf(dst, "%s", s): s and its terminating NUL are written at the
   * start of dst; the rest of dst is left as it was.
   */
  method WriteCString(dst: array<char>, s: string)
    requires NoNul(s) && |s| < dst.Length
    modifies dst
    ensures dst[..|s|] == s && dst[|s|] == '\0'
    ensures forall i :: |s| < i < dst.Length ==> dst[i] == old(dst[i])
    ensures CStr(dst[..]) == s
  {
    forall i | 0 <= i <= |s| {
      dst[i] := if i < |s| then s[i] else '\0';
    }
    assert dst[..][..|s|] == s;
    CStrOfTerminated(dst[..], s);
  }

  // ---------------------------------------------------------------- %d

  predicate IsDigit(c: char) {
    '0' <= c <= '9'
  }

  predicate AllDigits(s: string) {
    forall i :: 0 <= i < |s| ==> IsDigit(s[i])
  }

  function DigitChar(d: nat): (c: char)
    requires d < 10
    ensures IsDigit(c) && c as int - '0' as int == d
  {
    ('0' as int + d) as char
  }

  /** printf's %d of a non-negative value: decimal digits, no leading zero. */
  function Decimal(n: nat): (s: string)
    ensures 1 <= |s| && AllDigits(s)
    ensures s[0] == '0' ==> n == 0
    ensures n < 10 <==> |s| == 1
  {
    if n < 10 then [DigitChar(n)]
    else Decimal(n / 10) + [DigitChar(n % 10)]
  }

  /** The value of a string of decimal digits (the inverse of Decimal). */
  function DecimalValue(s: string): nat
    requires AllDigits(s)
  {
    if s == [] then 0
    else DecimalValue(s[..|s| - 1]) * 10 + (s[|s| - 1] as int - '0' as int)
  }

  lemma {:induction false} DecimalRoundTrip(n: nat)
    ensures DecimalValue(Decimal(n)) == n
  {
    if n >= 10 {
      var s := Decimal(n);
      assert s[..|s| - 1] == Decimal(n / 10);
      DecimalRoundTrip(n / 10);
    }
  }

  /** Values below 100 print in at most two digits. */
  lemma DecimalLength(n: nat)
    requires n < 100
    ensures |Decimal(n)| <= 2
  {
    if n >= 10 {
      assert |Decimal(n / 10)| == 1;
    }
  }

  // ---------------------------------------------------------------- %X

  predicate IsUpperHex(c: char) {
    IsDigit(c) || 'A' <= c <= 'F'
  }

  /** One upper-case hexadecimal digit. */
  function HexDigit(d: nat): (c: char)
    requires d < 16
    ensures IsUpperHex(c)
  {
    if d < 10 then DigitChar(d) else ('A' as int + d - 10) as char
  }

  /** The value of one upper-case hexadecimal digit (the inverse of HexDigit). */
  function HexValue(c: char): (d: nat)
    requires IsUpperHex(c)
    ensures d < 16
  {
    if IsDigit(c) then c as int - '0' as int else c as int - 'A' as int + 10
  }

  lemma HexDigitRoundTrip(d: nat)
    requires d < 16
    ensures HexValue(HexDigit(d)) == d
  {
  }

  lemma HexValueRoundTrip(c: char)
    requires IsUpperHex(c)
    ensures HexDigit(HexValue(c)) == c
  {
  }

  /** printf's %2.2X of a byte: exactly two upper-case hexadecimal digits. */
  function Hex2(b: Byte): (s: string)
    ensures |s| == 2 && IsUpperHex(s[0]) && IsUpperHex(s[1])
  {
    [HexDigit(b / 16), HexDigit(b % 16)]
  }

  /** The byte written by two hexadecimal digits (the inverse of Hex2). */
  function ParseHex2(s: string): Byte
    requires |s| == 2 && IsUpperHex(s[0]) && IsUpperHex(s[1])
  {
    HexValue(s[0]) * 16 + HexValue(s[1])
  }

  lemma Hex2RoundTrip(b: Byte)
    ensures ParseHex2(Hex2(b)) == b
  {
    HexDigitRoundTrip(b / 16);
    HexDigitRoundTrip(b % 16);
  }

  lemma ParseHex2RoundTrip(s: string)
    requires |s| == 2 && IsUpperHex(s[0]) && IsUpperHex(s[1])
    ensures Hex2(ParseHex2(s)) == s
  {
    var b := ParseHex2(s);
    assert b / 16 == HexValue(s[0]) && b % 16 == HexValue(s[1]);
    HexValueRoundTrip(s[0]);
    HexValueRoundTrip(s[1]);
  }
}
