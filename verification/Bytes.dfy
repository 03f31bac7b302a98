/** Bytes, and the little-endian size_t that headers in memory are made of. */
module Bytes {

  const SIZE_T: nat := 0x1_0000_0000_0000_0000
  const SIZEOF_SIZE_T: nat := 8

  type Byte = x: nat | x < 256

  /** The sum of two size_t. */
  function Plus(x: nat, y: nat): (z: nat)
    requires x < SIZE_T && y < SIZE_T
    ensures z < SIZE_T
  {
    if x + y < SIZE_T then x + y else x + y - SIZE_T
  }

  /** The k bytes of x, least significant first. */
  function Le(x: nat, k: nat): (s: seq<Byte>)
    ensures |s| == k
  {
    if k == 0 then [] else [x % 256] + Le(x / 256, k - 1)
  }

  function UnLe(s: seq<Byte>): nat {
    if s == [] then 0 else s[0] + 256 * UnLe(s[1..])
  }

  /** 256^k. */
  ghost function Range(k: nat): nat {
    if k == 0 then 1 else 256 * Range(k - 1)
  }

  lemma {:induction false} LeRoundTrip(x: nat, k: nat)
    requires x < Range(k)
    ensures UnLe(Le(x, k)) == x
  {
    if k > 0 {
      var s := Le(x, k);
      LeRoundTrip(x / 256, k - 1);
      assert s[1..] == Le(x / 256, k - 1);
    }
  }

  lemma SizeRoundTrip(x: nat)
    requires x < SIZE_T
    ensures UnLe(Le(x, SIZEOF_SIZE_T)) == x
  {
    assert Range(4) == 256 * Range(3) == 65536 * Range(2) == 16777216 * Range(1) == 4294967296;
    assert Range(8) == 256 * Range(7) == 65536 * Range(6) == 16777216 * Range(5) == 4294967296 * Range(4);
    LeRoundTrip(x, SIZEOF_SIZE_T);
  }

  /** The bytes of a size_t in memory. */
  method SizeBytes(x: nat) returns (s: seq<Byte>)
    requires x < SIZE_T
    ensures |s| == SIZEOF_SIZE_T && UnLe(s) == x
  {
    s := Le(x, SIZEOF_SIZE_T);
    SizeRoundTrip(x);
  }
}
