# BlueALSA adapter table and control-client helpers in Dafny

This project models two parts of BlueALSA, the Bluetooth audio bridge for
ALSA.

The first part is the daemon's adapter table, `config.adapters`. It is an
array of `HCI_MAX_DEV` (16) slots, each holding one local radio
(`struct ba_adapter`) or NULL.

- `ba_adapter_new` checks the index and allocates a zeroed adapter.
- It stores the HCI name: the given name cut to 7 bytes, or `hciN`.
- It derives two D-Bus object paths from that name and sanitises them.
- It creates an empty device registry keyed by Bluetooth address.
- It opens the control endpoint, then publishes the adapter in its slot.
- If the endpoint fails to open, it rolls back through `ba_adapter_free`.
- `ba_adapter_lookup` is a bounds-checked read of the table.
- `ba_adapter_free` first detaches the adapter from its slot. It then drains
  the registry with a modification-safe remove-all loop, drops the registry
  and closes the endpoint.

The second part is the pieces of the client library that compute rather
than talk to the socket:

- the status-code to errno mapping;
- the errno protocol of `bluealsa_send_request`;
- `bluealsa_event_match`;
- `ba2str_`, the address printer;
- the bounded copy of an RFCOMM command into its request field;
- the type fix-up at the end of `bluealsa_get_transport`.

Layout:

- `wrappers.dfy`: `Option`, `Result` carrying an errno, `Min`, and the
  errno constants.
- `bdaddr.dfy`: `bdaddr_t` as six bytes, and `bacmp` as a byte-wise `memcmp`.
- `cstring.dfy`: NUL-terminated strings in `char` arrays, `strncpy`, and
  `sprintf("%s")`. It also holds the `%d` and `%2.2X` formatting the code
  uses, with their inverses.
- `ba_adapter.dfy`: the hash and equality of the registry keys, names and
  object paths, the collaborators (control endpoint, devices), the `Adapter`
  class and the `Config` class with the table.
- `ctl_client.dfy`: the client-side functions.
- `scenario.dfy`: clients that drive the table through the contracts only.
  `RadioThree` creates, looks up and frees adapter 3. `SharedAddress`
  frees one of two adapters that hold the same device address, and the other
  registry stays intact: each of the two freed devices is freed once and the
  other adapter's device not at all. `Failures` shows that a failing endpoint
  clears the slot and that an out-of-range index leaves another adapter in its
  slot.

When the control endpoint fails to open, `ba_adapter_new` rolls back
through `ba_adapter_free`, and that clears slot `dev_id` whatever it held,
even an earlier adapter with the same index. A failed creation therefore
does change the table. The model follows the code here, not the simpler
reading that a failed creation leaves the table untouched. On success,
an earlier occupant of the slot is replaced without being freed. `Failures`
shows the first case.

The state the C code changes in place is modelled with classes:

- The table is an `array<Adapter?>` field of `Config`, created NULL-filled.
- The adapter is a class with the source's fields. `hci_name` is a `char`
  array of 8 written by `strncpy` or `sprintf`, and the registry is a map
  field.
- Devices are objects that add themselves to their adapter's registry on
  creation and remove themselves when freed. The drain loop in
  `AdapterFree` relies on this.

## Model

| member | source | states |
|---|---|---|
| Bdaddr.CompareFrom | src/ba-adapter.c:31-33 | memcmp from byte i on: 0 exactly when the suffixes are equal; otherwise the difference of the first differing pair, with all earlier bytes equal |
| Bdaddr.Bacmp | src/ba-adapter.c:31-33 | bacmp is 0 if and only if the two addresses are equal |
| Bdaddr.BacmpAntisymmetric | src/shared/ctl-client.c:147-151 | swapping the addresses negates bacmp, so the sign of an address mismatch in event matching depends on argument order |
| BaAdapter.Hash | src/ba-adapter.c:26-29 | the hash is below 2^32, the range of guint; the body defines it as the product of the first 32-bit word and the third 16-bit word, wrapped modulo 2^32 |
| BaAdapter.Equal | src/ba-adapter.c:31-33 | g_bdaddr_equal holds if and only if the addresses are equal |
| BaAdapter.HashAgreesWithEqual | src/ba-adapter.c:26-33 | keys that the equality function calls equal get the same hash, as the hash table created at line 61 requires |
| BaAdapter.SanitizeObjectPath | src/ba-adapter.c:55-58 | sanitising keeps the length, keeps every legal character, turns every other character into '_', and leaves only legal characters |
| BaAdapter.SanitizeIdempotent | src/ba-adapter.c:55-58 | sanitising an already sanitised path changes nothing |
| BaAdapter.SanitizeAppend | src/ba-adapter.c:55-58 | sanitising works per character, so it distributes over concatenation |
| BaAdapter.HciName | src/ba-adapter.c:50-53 | the stored name has no NUL and fits hci_name with its terminator; a given name yields a prefix of it, cut to exactly 7 bytes when longer; with no name it is "hci" followed by digits that read back as dev_id, with no leading zero, so exactly "hci0" when dev_id is 0 |
| BaAdapter.DefaultName | src/ba-adapter.c:53 | "hci%d" of a table index is bytes, fits hci_name, and its digits are the canonical decimal of the index |
| BaAdapter.HciNameIsBytes | src/ba-adapter.c:50-53 | the stored name is a byte string, so its length is its size in bytes |
| BaAdapter.ObjectPath | src/ba-adapter.c:55-58 | a path is the root followed by the sanitised name: the root is kept, the length is root plus name, and every character is legal |
| BaAdapter.ObjectPathOfLegal | src/ba-adapter.c:55-58 | a name made only of legal characters appears in the path unchanged |
| BaAdapter.ObjectPathInjective | src/ba-adapter.c:55-58 | two legal names that give the same path are the same name |
| BaAdapter.CtlInit | src/ba-adapter.c:63-64 | bluealsa_ctl_init returns an open endpoint for this adapter, or NULL exactly when it fails |
| BaAdapter.CtlFree | src/ba-adapter.c:106-107 | bluealsa_ctl_free closes the endpoint |
| BaAdapter.Device.constructor | src/ba-adapter.c:61 | a new device is entered in its adapter's registry under its own address; the other entries are kept |
| BaAdapter.DeviceFree | src/ba-adapter.c:90-100 | ba_device_free takes the device's own entry out of the registry being iterated, and only that entry, and counts one more free of that device |
| BaAdapter.Adapter.constructor | src/ba-adapter.c:45 | calloc: an 8-char hci_name of NULs, index 0, empty paths, no registry, no endpoint |
| BaAdapter.Adapter.StoreName | src/ba-adapter.c:50-53 | the C string in hci_name after strncpy with size-1, or after sprintf "hci%d", is HciName(dev_id, name) |
| BaAdapter.Adapter.SetPaths | src/ba-adapter.c:55-58 | both path fields are the sanitised root-plus-name paths of the stored name |
| BaAdapter.Adapter.SetIdentity | src/ba-adapter.c:48-58 | the index, the stored name and both object paths are those derived from the arguments; the registry and the endpoint are untouched |
| BaAdapter.Adapter.SetIndexAndPaths | src/ba-adapter.c:48-58 | with hci_name already holding the stored name, the index and both paths are set from it |
| BaAdapter.NewIdentified | src/ba-adapter.c:45-61 | a fresh adapter with its identity set, an empty registry, no endpoint yet, and its invariant established |
| BaAdapter.DrainStep | src/ba-adapter.c:96-101 | freeing the device under any remaining key keeps what is left a part of the entry registry, shrinks it by one, and touches no other device of the entry registry, since each address has its own device |
| BaAdapter.Config.Lookup | src/ba-adapter.c:74-78 | the slot's content for an index inside the table, NULL for any index outside it |
| BaAdapter.Config.AdapterNew | src/ba-adapter.c:35-72 | an index outside the table gives EINVAL and calloc failure gives ENOMEM, and both leave the table unchanged; endpoint failure gives its errno and leaves slot dev_id NULL; success returns a fresh adapter with the derived identity, an empty registry and an open endpoint, published in slot dev_id; no other slot changes |
| BaAdapter.Config.FreeEntry | src/ba-adapter.c:97-100 | one turn of the loop: the device under the picked key is freed once more, its key leaves the registry, and the entry registry's other devices keep their counts |
| BaAdapter.Config.DrainDevices | src/ba-adapter.c:85-101 | the remove-all loop terminates with an empty registry; each device of the registry found at entry has had ba_device_free called on it exactly once, and no other object is changed; it runs with the adapter's slot already empty and does not touch the table |
| BaAdapter.Config.AdapterFree | src/ba-adapter.c:80-112 | slot hci_dev_id becomes NULL and no other slot changes; ba_device_free is called exactly once on every registered device and on no other; the registry is gone; a held endpoint is closed |
| CString.Strncpy | src/ba-adapter.c:51 | strncpy writes src into the first n chars and pads with NULs; nothing past n changes |
| CString.CStrAfterStrncpy | src/ba-adapter.c:51 | after strncpy of n chars into a buffer whose char n is NUL, the C string held is src cut to n chars |
| CString.WriteCString | src/ba-adapter.c:53 | sprintf of a string writes it and a NUL, leaves the rest of the buffer, and the buffer then holds exactly that C string |
| CString.Decimal | src/ba-adapter.c:53 | %d of a non-negative value is a non-empty run of digits with no leading zero; it is one digit exactly below 10 |
| CString.DecimalRoundTrip | src/ba-adapter.c:53 | reading the printed digits back gives the value |
| CString.DecimalLength | src/ba-adapter.c:53 | an index below 100 prints in at most two digits, so "hci%d" fits hci_name |
| CString.Hex2 | src/shared/ctl-client.c:64-65 | %2.2X of a byte is exactly two upper-case hexadecimal digits |
| CString.Hex2RoundTrip | src/shared/ctl-client.c:64-65 | parsing the two digits back gives the byte |
| CString.ParseHex2RoundTrip | src/shared/ctl-client.c:64-65 | printing the parsed byte gives the two digits back |
| CtlClient.StatusToErrno | src/shared/ctl-client.c:28-48 | the errno is 0 exactly for SUCCESS, is always 0 or one of the seven errno values listed, and is EINVAL exactly for codes the protocol does not define |
| CtlClient.StatusToErrnoRoundTrip | src/shared/ctl-client.c:28-48 | the errno identifies the code exactly when the code is one of the defined ones |
| CtlClient.RequestReply | src/shared/ctl-client.c:86-87 | bluealsa_send_request returns 0 exactly on SUCCESS and -1 otherwise, and leaves errno as the mapped status |
| CtlClient.UnsetStatusFails | src/shared/ctl-client.c:79-87 | a status buffer still holding its 0xAB initialiser fails with EINVAL |
| CtlClient.EventMatch | src/shared/ctl-client.c:147-155 | 0 if and only if the addresses are equal, the PCM types are equal and the transport's type bits are covered by the event's; an address mismatch returns bacmp and a PCM type mismatch returns the difference; the last step is never negative |
| CtlClient.EventMatchMonotone | src/shared/ctl-client.c:147-155 | a transport that matches an event also matches any event with the same address and PCM type whose type bits cover the first event's |
| CtlClient.Ba2Str | src/shared/ctl-client.c:63-67 | the printed address is 17 characters with no NUL |
| CtlClient.Ba2StrLayout | src/shared/ctl-client.c:63-67 | the text is six hex pairs separated by colons, and pair k is byte 5-k, most significant byte first |
| CtlClient.Ba2StrRoundTrip | src/shared/ctl-client.c:63-67 | parsing the printed address gives the address back |
| CtlClient.Str2BaRoundTrip | src/shared/ctl-client.c:63-67 | every well-formed address text is the print of the address parsed from it |
| CtlClient.Ba2StrInjective | src/shared/ctl-client.c:63-67 | distinct addresses print differently |
| CtlClient.Ba2StrInto | src/shared/ctl-client.c:63-67 | the caller's char[18] receives the 17 characters and a NUL, holds that C string afterwards, and is returned |
| CtlClient.SetRfcommCommand | src/shared/ctl-client.c:464-465 | the field holds the command padded with NULs, its last char is forced to NUL, and its C string is the command cut to length-1 bytes; the command is byte text |
| CtlClient.GetTransport | src/shared/ctl-client.c:243-262 | a short reply fails with the mapped status errno; a whole reply succeeds, with the type replaced by the requested one and address and other fields kept |
| CtlClient.ShortSuccessReplyFails | src/shared/ctl-client.c:246-251 | a short reply whose code reads SUCCESS still fails, and errno is left 0 |
| CtlClient.TrailingStatusIgnored | src/shared/ctl-client.c:253-262 | the status read after a whole transport does not affect the outcome |
| CtlClient.RequestedTypeWins | src/shared/ctl-client.c:256-260 | fetches of the same reply under two requested types differ only in the type field |
| AdapterScenario.RadioThreeName | src/ba-adapter.c:50-51 | "radio-three" is stored as "radio-t" |
| AdapterScenario.RadioThreePath | src/ba-adapter.c:55-58 | under a legal root, "radio-t" gives the path root + "radio_t" |
| AdapterScenario.RadioThreeIdentity | src/ba-adapter.c:48-58 | an adapter created as 3 with "radio-three" has the name "radio-t" and paths ending in "radio_t" under both roots |
| AdapterScenario.Utf8NamePath | src/ba-adapter.c:50-58 | the UTF-8 name a, C3 A9, bcdefg keeps its first seven bytes, and its path ends in "a__bcde", one '_' per byte of the accented letter |
| AdapterScenario.Hci0Identity | src/ba-adapter.c:52-58 | an adapter created as 0 with no name is "hci0" and its paths end in "hci0" under both roots |

## Left out

- Sockets, `send`/`read` and the rest of the client's I/O are left out. `GetTransport` and `RequestReply` start once the reads have succeeded; a failing `send` or `read` returns -1, and that path is not modelled.
- `bluealsa_get_devices`, `bluealsa_get_transports` and the other request builders of the client are left out: they only fill a request and move bytes.
- `pthread_mutex_init`/`pthread_mutex_destroy` and the registry's locking are left out; the model is single-threaded.
- `free()` of the adapter and `g_hash_table_unref` are left out: memory release has no Dafny counterpart. The model sets the registry to `None` and closes the endpoint.
- GLib's hash table internals are left out: the registry is a Dafny `map`, which compares its keys by value, on the six bytes. `Equal`, the equality the table is given, holds exactly for equal addresses, so the two agree. `Hash` plays no part in the map.
- `BaAdapter.Hash` reads the words in little-endian order, the byte order of the hosts BlueALSA targets; big-endian hosts are not modelled.
- `bluealsa_ctl_init`, `ba_device_new` and `ba_device_free` are not part of this model. They are modelled by what `ba-adapter.c` relies on: the endpoint opens or fails with an errno (`CtlOutcome`), and a device enters and leaves its adapter's registry under its own address. The errno is taken as `ctl_init` leaves it; the rollback through `ba_adapter_free` is assumed not to change it.
- Names and the RFCOMM command are byte strings. `hci_name`, `strncpy` (in `ba_adapter_new` and in `SetRfcommCommand`) and the sanitiser work on bytes, and a Dafny `char` stands for one byte here. `ByteText` requires every char of a given name or command to be below 256. A name with non-ASCII text is passed as its encoded bytes, for example UTF-8; `Utf8NamePath` shows one. Decoding UTF-8 is not modelled.
- `calloc` failure is a parameter, and its errno is taken to be ENOMEM, as POSIX specifies for `calloc`.
- `g_variant_sanitize_object_path` lives in `utils.c`, which is not part of this model. It is modelled as replacing every character outside `[A-Za-z0-9_/]` with `_`, the character set of a D-Bus object path.
- The fixed sizes of `ba_dbus_path` and `bluez_dbus_path` are not modelled: the paths are strings. A 7-character name under the longer root takes 21 characters.
- `BA_PCM_TYPE` is a macro from `ctl-proto.h`, which is not part of this model. `EventMatch` takes it as a parameter `pcmType`.
- The numeric values of the status codes come from the order of their enum in `ctl-proto.h`, which is not part of this model.
- `ba2str_` is compiled only under `DEBUG`; the model includes it unconditionally.
- Bdaddr.Bacmp: C's `memcmp` promises only the sign of a non-zero result. The model returns the difference of the first differing bytes, so `EventMatch`'s exact non-zero values hold for a byte-wise `memcmp` only.
- `ghost` bookkeeping: each device carries a ghost count `frees` of the calls to `ba_device_free` on it, which is what `DrainDevices` and `AdapterFree` promise about. The order in which the loop frees devices is not promised: it picks an arbitrary remaining entry, as iteration order over a GLib hash table is unspecified.
