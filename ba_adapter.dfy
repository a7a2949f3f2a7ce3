/**
 * The daemon's adapter table (config.adapters) and the life cycle of one
 * adapter: creation with rollback, bounds-checked lookup, and teardown that
 * detaches the adapter before draining its device registry.
 */
module BaAdapter {
  import opened Wrappers
  import opened Errno
  import opened Bdaddr
  import opened CString

  /** HCI_MAX_DEV of BlueZ's hci.h: the number of slots of config.adapters. */
  const HCI_MAX_DEV: nat := 16
  /** sizeof(ba_adapter.hci_name), as ba-adapter.h declares it. */
  const HCI_NAME_SIZE: nat := 8

  const BLUEALSA_ROOT: string := "/org/bluealsa/"
  const BLUEZ_ROOT: string := "/org/bluez/"

  lemma RootsAreObjectPaths()
    ensures AllObjectPathChars(BLUEALSA_ROOT) && AllObjectPathChars(BLUEZ_ROOT)
  {
  }

  // ------------------------------------------------------- device addresses

  const TWO_32: nat := 0x1_0000_0000

  /** The first four address bytes read as a little-endian 32-bit word. */
  function Word32(ba: Bdaddr): (w: nat)
    ensures w < TWO_32
  {
    ba[0] as int + 0x100 * ba[1] as int + 0x1_0000 * ba[2] as int + 0x100_0000 * ba[3] as int
  }

  /** Bytes 4 and 5 of the address read as a little-endian 16-bit word. */
  function Word16(ba: Bdaddr): (w: nat)
    ensures w < 0x1_0000
  {
    ba[4] as int + 0x100 * ba[5] as int
  }

  /** g_bdaddr_hash: the product of the two words, wrapped to 32 bits (guint). */
  function Hash(ba: Bdaddr): (h: nat)
    ensures h < TWO_32
  {
    (Word32(ba) * Word16(ba)) % TWO_32
  }

  /** g_bdaddr_equal: bacmp() reports no difference. */
  function Equal(a: Bdaddr, b: Bdaddr): (r: bool)
    ensures r <==> a == b
  {
    Bacmp(a, b) == 0
  }

  /** The hash table's requirement on its key functions: equal keys hash alike. */
  lemma HashAgreesWithEqual(a: Bdaddr, b: Bdaddr)
    requires Equal(a, b)
    ensures Hash(a) == Hash(b)
  {
  }

  // ------------------------------------------------ names and object paths

  /** Characters a D-Bus object path may hold. */
  predicate ObjectPathChar(c: char) {
    c == '/' || c == '_' || 'A' <= c <= 'Z' || 'a' <= c <= 'z' || '0' <= c <= '9'
  }

  predicate AllObjectPathChars(s: string) {
    forall i :: 0 <= i < |s| ==> ObjectPathChar(s[i])
  }

  /**
   * g_variant_sanitize_object_path: every character outside the object-path
   * character set is replaced by '_'; the length is kept.
   */
  function SanitizeObjectPath(p: string): (r: string)
    ensures |r| == |p| && AllObjectPathChars(r)
    ensures forall i :: 0 <= i < |p| && ObjectPathChar(p[i]) ==> r[i] == p[i]
    ensures forall i :: 0 <= i < |p| && !ObjectPathChar(p[i]) ==> r[i] == '_'
  {
    seq(|p|, i requires 0 <= i < |p| => if ObjectPathChar(p[i]) then p[i] else '_')
  }

  /** Sanitising a path that is already legal changes nothing. */
  lemma SanitizeIdempotent(p: string)
    ensures SanitizeObjectPath(SanitizeObjectPath(p)) == SanitizeObjectPath(p)
  {
  }

  /** Sanitising works character by character, so it distributes over concatenation. */
  lemma SanitizeAppend(p: string, q: string)
    ensures SanitizeObjectPath(p + q) == SanitizeObjectPath(p) + SanitizeObjectPath(q)
  {
  }

  /**
   * The hci_name ba_adapter_new stores: the given name cut to the buffer,
   * or "hci" and the decimal index when no name is given.
   */
  function HciName(devId: nat, name: Option<string>): (r: string)
    requires devId < HCI_MAX_DEV
    requires name.Some? ==> ByteText(name.value)
    ensures NoNul(r) && |r| < HCI_NAME_SIZE
    ensures name.Some? ==> r <= name.value
    ensures name.Some? && |r| < |name.value| ==> |r| == HCI_NAME_SIZE - 1
    ensures name.None? ==> |r| > 3 && r[..3] == "hci" && AllDigits(r[3..]) && DecimalValue(r[3..]) == devId
    ensures name.None? ==> (r[3] == '0' ==> devId == 0 && |r| == 4)
  {
    match name
    case Some(n) => n[..Min(|n|, HCI_NAME_SIZE - 1)]
    case None =>
      DefaultName(devId);
      "hci" + Decimal(devId)
  }

  /** "hci%d" of an index of the table: short enough for hci_name, and its digits read back as the index. */
  lemma DefaultName(devId: nat)
    requires devId < HCI_MAX_DEV
    ensures var r := "hci" + Decimal(devId);
      && ByteText(r) && |r| < HCI_NAME_SIZE
      && |r| > 3 && r[..3] == "hci" && r[3..] == Decimal(devId)
      && AllDigits(r[3..]) && DecimalValue(r[3..]) == devId
      && (r[3] == '0' ==> devId == 0 && |r| == 4)
  {
    DecimalLength(devId);
    DecimalRoundTrip(devId);
    var r := "hci" + Decimal(devId);
    assert r[3..] == Decimal(devId);
  }

  /** The stored name is bytes: at most seven of them, so hci_name holds them and the NUL. */
  lemma HciNameIsBytes(devId: nat, name: Option<string>)
    requires devId < HCI_MAX_DEV
    requires name.Some? ==> ByteText(name.value)
    ensures ByteText(HciName(devId, name))
  {
    if name.None? {
      DefaultName(devId);
    } else {
      var r := HciName(devId, name);
      assert forall i :: 0 <= i < |r| ==> r[i] == name.value[i];
    }
  }

  /**
   * The object path of an adapter under a fixed root: the root followed by
   * the name, then sanitised.
   */
  function ObjectPath(root: string, hciName: string): (p: string)
    requires AllObjectPathChars(root)
    ensures |p| == |root| + |hciName| && AllObjectPathChars(p)
    ensures p == root + SanitizeObjectPath(hciName)
  {
    SanitizeAppend(root, hciName);
    SanitizeObjectPath(root + hciName)
  }

  /** A name made only of legal characters is used as it stands. */
  lemma ObjectPathOfLegal(root: string, hciName: string)
    requires AllObjectPathChars(root) && AllObjectPathChars(hciName)
    ensures ObjectPath(root, hciName) == root + hciName
  {
    assert SanitizeObjectPath(hciName) == hciName;
  }

  /** Distinct names of legal characters give distinct paths. */
  lemma ObjectPathInjective(root: string, h1: string, h2: string)
    requires AllObjectPathChars(root) && AllObjectPathChars(h1) && AllObjectPathChars(h2)
    requires ObjectPath(root, h1) == ObjectPath(root, h2)
    ensures h1 == h2
  {
    ObjectPathOfLegal(root, h1);
    ObjectPathOfLegal(root, h2);
    assert h1 == (root + h1)[|root|..];
    assert h2 == (root + h2)[|root|..];
  }

  // --------------------------------------------------------- collaborators

  /** The control endpoint an adapter holds (struct ba_ctl). */
  class Ctl {
    const adapter: Adapter
    var open: bool

    constructor (a: Adapter)
      ensures adapter == a && open
    {
      adapter := a;
      open := true;
    }
  }

  /** What bluealsa_ctl_init does: it opens, or it fails with an errno. */
  datatype CtlOutcome = CtlOpens | CtlFails(errno: int)

  /** bluealsa_ctl_init: a fresh open endpoint, or NULL when it fails. */
  method CtlInit(a: Adapter, outcome: CtlOutcome) returns (c: Ctl?)
    ensures c != null <==> outcome.CtlOpens?
    ensures c != null ==> fresh(c) && c.open && c.adapter == a
  {
    if outcome.CtlOpens? {
      c := new Ctl(a);
    } else {
      c := null;
    }
  }

  /** bluealsa_ctl_free: closes the endpoint. */
  method CtlFree(c: Ctl)
    modifies c
    ensures !c.open
  {
    c.open := false;
  }

  /** A remote device (struct ba_device), keyed by its address in its adapter's registry. */
  class Device {
    const adapter: Adapter
    const addr: Bdaddr
    /** How many times ba_device_free has been called on this device. */
    ghost var frees: nat

    /** ba_device_new: the device registers itself under its address. */
    constructor (a: Adapter, addr: Bdaddr)
      requires a.Valid() && a.devices.Some?
      modifies a`devices
      ensures adapter == a && this.addr == addr && frees == 0 && a.Valid()
      ensures a.devices == Some(old(a.devices.value)[addr := this])
    {
      adapter := a;
      this.addr := addr;
      frees := 0;
      new;
      a.devices := Some(a.devices.value[addr := this]);
    }
  }

  /** ba_device_free: the device removes its own entry from its adapter's registry. */
  method DeviceFree(d: Device)
    requires d.adapter.devices.Some?
    modifies d, d.adapter`devices
    ensures d.adapter.devices == Some(old(d.adapter.devices.value) - {d.addr})
    ensures d.frees == old(d.frees) + 1
  {
    d.adapter.devices := Some(d.adapter.devices.value - {d.addr});
    d.frees := d.frees + 1;
  }

  // --------------------------------------------------------------- adapter

  /** One local radio (struct ba_adapter). */
  class Adapter {
    var hciDevId: int
    const hciName: array<char>
    var baDbusPath: string
    var bluezDbusPath: string
    /** The device registry; None while the hash table does not exist. */
    var devices: Option<map<Bdaddr, Device>>
    var ctl: Ctl?

    /** calloc(): every field zero. */
    constructor ()
      ensures fresh(hciName) && hciName.Length == HCI_NAME_SIZE
      ensures forall i :: 0 <= i < HCI_NAME_SIZE ==> hciName[i] == '\0'
      ensures hciDevId == 0 && baDbusPath == "" && bluezDbusPath == ""
      ensures devices == None && ctl == null
    {
      hciDevId := 0;
      hciName := new char[HCI_NAME_SIZE](_ => '\0');
      baDbusPath, bluezDbusPath := "", "";
      devices := None;
      ctl := null;
    }

    /** Every registered device belongs to this adapter and is keyed by its own address. */
    ghost predicate Valid()
      reads this
    {
      && hciName.Length == HCI_NAME_SIZE
      && 0 <= hciDevId < HCI_MAX_DEV
      && (devices.Some? ==> Keyed(devices.value) && forall k :: k in devices.value ==> devices.value[k].adapter == this)
    }

    /** The C string held in hci_name. */
    function Name(): string
      reads hciName
    {
      CStr(hciName[..])
    }

    /**
     * The steps of ba_adapter_new that fill the zeroed adapter: the index,
     * hci_name (strncpy of the name, or sprintf of "hci%d") and the two
     * sanitised object paths.
     */
    method SetIdentity(devId: nat, name: Option<string>)
      requires devId < HCI_MAX_DEV && (name.Some? ==> ByteText(name.value))
      requires hciName.Length == HCI_NAME_SIZE
      requires forall i :: 0 <= i < HCI_NAME_SIZE ==> hciName[i] == '\0'
      modifies this, hciName
      ensures devices == old(devices) && ctl == old(ctl)
      ensures Identified(devId, name)
    {
      StoreName(devId, name);
      SetIndexAndPaths(devId, name);
    }

    /** The index and the two object paths, once hci_name holds the stored name. */
    method SetIndexAndPaths(devId: nat, name: Option<string>)
      requires devId < HCI_MAX_DEV && (name.Some? ==> ByteText(name.value))
      requires Name() == HciName(devId, name)
      modifies this`hciDevId, this`baDbusPath, this`bluezDbusPath
      ensures Identified(devId, name)
    {
      hciDevId := devId;
      RootsAreObjectPaths();
      SetPaths(Name());
    }

    /** The two object paths, sanitised from the stored name. */
    method SetPaths(stored: string)
      requires AllObjectPathChars(BLUEALSA_ROOT) && AllObjectPathChars(BLUEZ_ROOT)
      modifies this`baDbusPath, this`bluezDbusPath
      ensures baDbusPath == ObjectPath(BLUEALSA_ROOT, stored) && bluezDbusPath == ObjectPath(BLUEZ_ROOT, stored)
    {
      baDbusPath, bluezDbusPath := ObjectPath(BLUEALSA_ROOT, stored), ObjectPath(BLUEZ_ROOT, stored);
    }

    /** The hci_name step alone: strncpy of the given name, or sprintf of "hci%d". */
    method StoreName(devId: nat, name: Option<string>)
      requires devId < HCI_MAX_DEV && (name.Some? ==> ByteText(name.value))
      requires hciName.Length == HCI_NAME_SIZE
      requires forall i :: 0 <= i < HCI_NAME_SIZE ==> hciName[i] == '\0'
      modifies hciName
      ensures Name() == HciName(devId, name)
    {
      match name {
        case Some(n) =>
          Strncpy(hciName, n, HCI_NAME_SIZE - 1);
          CStrAfterStrncpy(hciName[..], n, HCI_NAME_SIZE - 1);
        case None =>
          DecimalLength(devId);
          WriteCString(hciName, "hci" + Decimal(devId));
      }
    }

    /** The index, hci_name and object paths ba_adapter_new derives from its arguments. */
    ghost predicate Identified(devId: nat, name: Option<string>)
      reads this`hciDevId, this`baDbusPath, this`bluezDbusPath, hciName
      requires devId < HCI_MAX_DEV && (name.Some? ==> ByteText(name.value))
    {
      RootsAreObjectPaths();
      && hciDevId == devId
      && Name() == HciName(devId, name)
      && baDbusPath == ObjectPath(BLUEALSA_ROOT, Name())
      && bluezDbusPath == ObjectPath(BLUEZ_ROOT, Name())
    }

    /** What ba_adapter_new promises of the adapter it returns. */
    ghost predicate Created(devId: nat, name: Option<string>)
      reads this, hciName, ctl
      requires devId < HCI_MAX_DEV && (name.Some? ==> ByteText(name.value))
    {
      && Valid()
      && Identified(devId, name)
      && devices == Some(map[])
      && ctl != null && ctl.open && ctl.adapter == this
    }
  }

  /**
   * The steps of ba_adapter_new between calloc and opening the control
   * endpoint: a zeroed adapter gets its index, name and paths, and an
   * empty device registry.
   */
  method NewIdentified(devId: nat, name: Option<string>) returns (a: Adapter)
    requires devId < HCI_MAX_DEV && (name.Some? ==> ByteText(name.value))
    ensures fresh(a) && fresh(a.hciName)
    ensures a.Valid() && a.ctl == null && a.devices == Some(map[])
    ensures a.Identified(devId, name)
  {
    a := new Adapter();
    a.SetIdentity(devId, name);
    a.devices := Some(map[]);
  }


  /** The device registry is keyed by each device's own address. */
  ghost predicate Keyed(m: map<Bdaddr, Device>) {
    forall k :: k in m ==> m[k].addr == k
  }

  /**
   * The state of the drain loop: the registry found at entry is keyed by
   * address, and what is left of it holds some of its entries unchanged.
   */
  ghost predicate DrainState(entry: map<Bdaddr, Device>, current: map<Bdaddr, Device>) {
    && Keyed(entry)
    && (forall k :: k in current ==> k in entry && current[k] == entry[k])
  }

  /**
   * Of the registry found at entry, the devices taken out have been freed
   * once more than the count before records, and the rest not at all.
   */
  ghost predicate FreedOnce(entry: map<Bdaddr, Device>, current: map<Bdaddr, Device>, before: map<Bdaddr, nat>)
    reads entry.Values
  {
    forall k :: k in entry ==> k in before && entry[k].frees == before[k] + (if k in current then 0 else 1)
  }

  /**
   * Freeing the device under any remaining key keeps the drain state,
   * shrinks the registry by one, and touches no other device of the entry
   * registry: each address has its own device.
   */
  lemma DrainStep(entry: map<Bdaddr, Device>, current: map<Bdaddr, Device>, k: Bdaddr)
    requires DrainState(entry, current) && k in current
    ensures current[k].addr == k
    ensures DrainState(entry, current - {k})
    ensures |current - {k}| == |current| - 1
    ensures forall j :: j in entry && j != k ==> entry[j] != current[k]
  {
    assert (current - {k}).Keys == current.Keys - {k};
  }

  // ----------------------------------------------------------------- table

  /** The process-wide configuration holding the adapter table. */
  class Config {
    const adapters: array<Adapter?>

    constructor ()
      ensures Valid() && fresh(adapters)
      ensures forall i :: 0 <= i < HCI_MAX_DEV ==> adapters[i] == null
    {
      adapters := new Adapter?[HCI_MAX_DEV](_ => null);
    }

    ghost predicate Valid()
      reads this
    {
      adapters.Length == HCI_MAX_DEV
    }

    /** Every slot of the table other than devId holds what it held before. */
    twostate predicate OnlySlotChanged(devId: int)
      reads this, adapters
    {
      forall i :: 0 <= i < adapters.Length && i != devId ==> adapters[i] == old(adapters[i])
    }

    /**
     * ba_adapter_lookup: the adapter in slot devId, or null for an index
     * outside the table.
     */
    function Lookup(devId: int): (a: Adapter?)
      reads this, adapters
      requires Valid()
      ensures !(0 <= devId < HCI_MAX_DEV) ==> a == null
      ensures 0 <= devId < HCI_MAX_DEV ==> a == adapters[devId]
    {
      if 0 <= devId < HCI_MAX_DEV then adapters[devId] else null
    }

    /**
     * ba_adapter_new. The allocation and the control endpoint are the
     * environment's to decide: callocOk and ctlInit say how they turn out.
     */
    method AdapterNew(devId: int, name: Option<string>, callocOk: bool, ctlInit: CtlOutcome)
      returns (r: Result<Adapter>)
      requires Valid()
      requires name.Some? ==> ByteText(name.value)
      modifies adapters
      ensures !(0 <= devId < HCI_MAX_DEV) ==> r == Err(EINVAL) && unchanged(adapters)
      ensures 0 <= devId < HCI_MAX_DEV && !callocOk ==>
        r == Err(ENOMEM) && unchanged(adapters)
      ensures 0 <= devId < HCI_MAX_DEV && callocOk && ctlInit.CtlFails? ==>
        r == Err(ctlInit.errno) && adapters[devId] == null && OnlySlotChanged(devId)
      ensures 0 <= devId < HCI_MAX_DEV && callocOk && ctlInit.CtlOpens? ==>
        && r.Ok? && fresh(r.value) && fresh(r.value.hciName) && fresh(r.value.ctl)
        && r.value.Created(devId, name)
        && adapters[devId] == r.value && OnlySlotChanged(devId)
    {
      if devId < 0 || devId >= HCI_MAX_DEV {
        return Err(EINVAL);
      }
      if !callocOk {
        return Err(ENOMEM);
      }
      var a := NewIdentified(devId, name);
      a.ctl := CtlInit(a, ctlInit);
      if a.ctl == null {
        AdapterFree(a);
        return Err(ctlInit.errno);
      }
      adapters[devId] := a;
      return Ok(a);
    }

    /**
     * The modification-safe remove-all loop of ba_adapter_free: take any
     * remaining entry, free its device, look again. It runs only while the
     * adapter's slot is empty, and the table is outside what it modifies.
     * Each device of the registry found at entry is freed exactly once, and
     * no other device is touched.
     */
    method DrainDevices(a: Adapter)
      requires Valid() && a.Valid() && a.devices.Some?
      requires adapters[a.hciDevId] == null
      modifies a`devices, a.devices.value.Values
      ensures a.Valid() && a.devices == Some(map[])
      ensures forall d :: d in old(a.devices.value).Values ==> d.frees == old(d.frees) + 1
    {
      ghost var entry := a.devices.value;
      ghost var before := map k | k in entry :: entry[k].frees;
      while true
        invariant a.devices.Some? && DrainState(entry, a.devices.value)
        invariant forall k :: k in entry ==> entry[k].adapter == a
        invariant FreedOnce(entry, a.devices.value, before)
        decreases |a.devices.value|
      {
        if |a.devices.value| == 0 {
          break;
        }
        var k :| k in a.devices.value;
        FreeEntry(a, entry, before, k);
      }
      forall d | d in entry.Values
        ensures d.frees == old(d.frees) + 1
      {
        var k :| k in entry && entry[k] == d;
      }
    }

    /** One turn of the drain loop: free the device under k, which takes k out of the registry. */
    method FreeEntry(a: Adapter, ghost entry: map<Bdaddr, Device>, ghost before: map<Bdaddr, nat>, k: Bdaddr)
      requires a.devices.Some? && DrainState(entry, a.devices.value) && k in a.devices.value
      requires forall j :: j in entry ==> entry[j].adapter == a
      requires FreedOnce(entry, a.devices.value, before)
      modifies a`devices, a.devices.value[k]
      ensures a.devices == Some(old(a.devices.value) - {k})
      ensures DrainState(entry, a.devices.value) && |a.devices.value| < old(|a.devices.value|)
      ensures FreedOnce(entry, a.devices.value, before)
    {
      var d := a.devices.value[k];
      DrainStep(entry, a.devices.value, k);
      DeviceFree(d);
    }

    /**
     * ba_adapter_free: clear the adapter's slot (whatever it holds), drain
     * and drop the registry if there is one, close the endpoint if held.
     */
    method AdapterFree(a: Adapter)
      requires Valid() && a.Valid()
      modifies adapters, a`devices, a.ctl, if a.devices.Some? then a.devices.value.Values else {}
      ensures adapters[old(a.hciDevId)] == null && OnlySlotChanged(old(a.hciDevId))
      ensures a.hciDevId == old(a.hciDevId) && a.ctl == old(a.ctl)
      ensures a.devices == None
      ensures old(a.ctl) != null ==> !old(a.ctl).open
      ensures old(a.devices).Some? ==>
        forall d :: d in old(a.devices.value).Values ==> d.frees == old(d.frees) + 1
    {
      adapters[a.hciDevId] := null;
      if a.devices.Some? {
        DrainDevices(a);
        a.devices := None;
      }
      if a.ctl != null {
        CtlFree(a.ctl);
      }
    }
  }
}
