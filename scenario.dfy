/**
 * Clients of the adapter table that use nothing but the contracts: the life
 * of adapter 3, two registries holding the same address, and creations that
 * fail.
 */
module AdapterScenario {
  import opened Wrappers
  import opened Errno
  import opened BaAdapter

  /** The name "radio-three" is cut to the seven characters the buffer holds. */
  lemma RadioThreeName()
    ensures HciName(3, Some("radio-three")) == "radio-t"
  {
  }

  /** Under a legal root, the name "radio-t" has its '-' replaced by '_'. */
  lemma RadioThreePath(root: string)
    requires AllObjectPathChars(root)
    ensures ObjectPath(root, "radio-t") == root + "radio_t"
  {
    var legal := SanitizeObjectPath("radio-t");
    assert legal == "radio_t" by {
      assert legal[5] == '_';
    }
  }

  /** Adapter 3 named "radio-three": its stored name and both object paths. */
  lemma RadioThreeIdentity(a: Adapter)
    requires a.Identified(3, Some("radio-three"))
    ensures a.Name() == "radio-t"
    ensures a.baDbusPath == BLUEALSA_ROOT + "radio_t"
    ensures a.bluezDbusPath == BLUEZ_ROOT + "radio_t"
  {
    RadioThreeName();
    RootsAreObjectPaths();
    RadioThreePath(BLUEALSA_ROOT);
    RadioThreePath(BLUEZ_ROOT);
  }

  /** Create adapter 3 named "radio-three", look it up, free it, look again. */
  method RadioThree()
  {
    var cfg := new Config();
    var r := cfg.AdapterNew(3, Some("radio-three"), true, CtlOpens);
    var a := r.value;
    RadioThreeIdentity(a);
    assert cfg.Lookup(3) == a;
    cfg.AdapterFree(a);
    assert cfg.Lookup(3) == null;
  }

  /** Two adapters hold a device with the same address; freeing one leaves the other's registry alone. */
  method SharedAddress(peer: Bdaddr.Bdaddr, other: Bdaddr.Bdaddr)
    requires peer != other
  {
    var cfg := new Config();
    var r := cfg.AdapterNew(3, None, true, CtlOpens);
    var r0 := cfg.AdapterNew(0, None, true, CtlOpens);
    TwoRegistries(cfg, r.value, r0.value, peer, other);
  }

  /** Adapter a (slot 3) gets two devices and b one under a shared address; then a is freed. */
  method TwoRegistries(cfg: Config, a: Adapter, b: Adapter, peer: Bdaddr.Bdaddr, other: Bdaddr.Bdaddr)
    requires peer != other && a != b && cfg.Valid()
    requires a.Valid() && a.devices == Some(map[]) && a.hciDevId == 3 && cfg.Lookup(3) == a
    requires b.Valid() && b.devices == Some(map[]) && cfg.Lookup(0) == b
    modifies cfg.adapters, a, b, a.ctl
  {
    var d1 := new Device(a, peer);
    var d2 := new Device(a, other);
    var e := new Device(b, peer);
    assert a.devices == Some(map[peer := d1, other := d2]);
    assert a.devices.value[peer] == d1 && a.devices.value[other] == d2;
    cfg.AdapterFree(a);
    assert d1.frees == 1 && d2.frees == 1 && e.frees == 0;
    assert cfg.Lookup(3) == null;
    assert cfg.Lookup(0) == b && b.devices == Some(map[peer := e]);
  }

  /**
   * A UTF-8 name, byte by byte: 'a', the two bytes C3 A9 of an accented e,
   * then "bcdefg". The first seven bytes are kept, and each byte of the
   * accented e becomes '_' in the path.
   */
  lemma Utf8NamePath(root: string)
    requires AllObjectPathChars(root)
    ensures var name := ['a', 0xC3 as char, 0xA9 as char, 'b', 'c', 'd', 'e', 'f', 'g'];
      && HciName(1, Some(name)) == name[..7]
      && ObjectPath(root, HciName(1, Some(name))) == root + "a__bcde"
  {
    var name := ['a', 0xC3 as char, 0xA9 as char, 'b', 'c', 'd', 'e', 'f', 'g'];
    assert HciName(1, Some(name)) == name[..7];
    var legal := SanitizeObjectPath(name[..7]);
    assert legal == "a__bcde" by {
      assert legal[1] == '_' && legal[2] == '_';
    }
  }

  /** With no name given, adapter 0 is called "hci0", a legal path component used as it stands. */
  lemma Hci0Identity(a: Adapter)
    requires a.Identified(0, None)
    ensures a.Name() == "hci0"
    ensures a.baDbusPath == BLUEALSA_ROOT + "hci0"
    ensures a.bluezDbusPath == BLUEZ_ROOT + "hci0"
  {
    assert HciName(0, None) == "hci0";
    RootsAreObjectPaths();
    ObjectPathOfLegal(BLUEALSA_ROOT, "hci0");
    ObjectPathOfLegal(BLUEZ_ROOT, "hci0");
  }

  /**
   * An endpoint that fails empties the slot; an index outside the table
   * changes nothing, so adapter 1 is still found.
   */
  method Failures()
  {
    var cfg := new Config();
    var r := cfg.AdapterNew(0, None, true, CtlOpens);
    var a := r.value;
    Hci0Identity(a);
    var r1 := cfg.AdapterNew(1, None, true, CtlOpens);
    var failed := cfg.AdapterNew(0, None, true, CtlFails(EIO));
    assert failed == Err(EIO) && cfg.Lookup(0) == null && cfg.Lookup(1) == r1.value;
    var outside := cfg.AdapterNew(HCI_MAX_DEV, None, true, CtlOpens);
    assert outside == Err(EINVAL) && cfg.Lookup(HCI_MAX_DEV) == null;
    assert cfg.Lookup(1) == r1.value && cfg.Lookup(0) == null;
  }
}
