/**
 * Bluetooth device addresses (bdaddr_t): six bytes, least significant first,
 * with BlueZ's bacmp() comparison.
 */
module Bdaddr {

  /** An unsigned 8-bit value. */
  type Byte = b: int | 0 <= b < 256

  /** bdaddr_t: the six bytes b[0..5] of the address. */
  type Bdaddr = s: seq<Byte> | |s| == 6 witness [0, 0, 0, 0, 0, 0]

  /**
   * memcmp() over a[i..] and b[i..]: the difference of the first pair of
   * bytes that differ, or 0 when the suffixes are equal.
   */
  function CompareFrom(a: seq<Byte>, b: seq<Byte>, i: nat): (r: int)
    requires |a| == |b| && i <= |a|
    ensures r == 0 <==> a[i..] == b[i..]
    ensures r != 0 ==> exists j :: i <= j < |a| && a[i..j] == b[i..j] && r == a[j] as int - b[j] as int
    decreases |a| - i
  {
    if i == |a| then 0
    else if a[i] != b[i] then
      assert a[i..i] == b[i..i];
      a[i] as int - b[i] as int
    else
      var r := CompareFrom(a, b, i + 1);
      assert a[i..] == [a[i]] + a[i + 1..] && b[i..] == [b[i]] + b[i + 1..];
      if r != 0 then
        var j :| i + 1 <= j < |a| && a[i + 1..j] == b[i + 1..j] && r == a[j] as int - b[j] as int;
        assert a[i..j] == [a[i]] + a[i + 1..j] && b[i..j] == [b[i]] + b[i + 1..j];
        r
      else
        r
  }

  /**
   * bacmp(): memcmp() of the two addresses. C promises only the sign of a
   * non-zero result; this model returns the difference of the first pair of
   * differing bytes, as a byte-wise memcmp does.
   */
  function Bacmp(a: Bdaddr, b: Bdaddr): (r: int)
    ensures r == 0 <==> a == b
  {
    assert a[0..] == a && b[0..] == b;
    CompareFrom(a, b, 0)
  }

  /** Comparing in the other order negates the result. */
  lemma {:induction false} CompareFromAntisymmetric(a: seq<Byte>, b: seq<Byte>, i: nat)
    requires |a| == |b| && i <= |a|
    ensures CompareFrom(a, b, i) == -CompareFrom(b, a, i)
    decreases |a| - i
  {
    if i < |a| && a[i] == b[i] {
      CompareFromAntisymmetric(a, b, i + 1);
    }
  }

  lemma BacmpAntisymmetric(a: Bdaddr, b: Bdaddr)
    ensures Bacmp(a, b) == -Bacmp(b, a)
  {
    CompareFromAntisymmetric(a, b, 0);
  }
}
