/** Bytes, and the little-endian 16-bit and 64-bit fields the storage layer reads and writes in place. */
module Bytes {
  type byte = x: int | 0 <= x < 256

  /** The conversion to `uint16_t`. */
  function Cast16(n: int): nat {
    n % 0x1_0000
  }

  function U16At(d: seq<byte>, o: nat): (v: nat)
    requires o + 2 <= |d|
    ensures v < 0x1_0000
  {
    var low: nat, high: nat := d[o], d[o + 1];
    low + 256 * high
  }

  /** `e` is `d` after `memcpy(d + o, b, |b|)`. */
  ghost predicate Wrote(d: seq<byte>, e: seq<byte>, o: nat, b: seq<byte>) {
    && |e| == |d|
    && o + |b| <= |d|
    && e[o..o + |b|] == b
    && (forall k :: 0 <= k < |d| && !(o <= k < o + |b|) ==> e[k] == d[k])
  }

  /** Two adjacent copies are one. */
  lemma WroteBoth(d: seq<byte>, e: seq<byte>, f: seq<byte>, o: nat, a: seq<byte>, b: seq<byte>)
    requires Wrote(d, e, o, a) && Wrote(e, f, o + |a|, b)
    ensures Wrote(d, f, o, a + b)
  {
    forall k | o <= k < o + |a|
      ensures f[k] == a[k - o]
    {
      assert f[k] == e[k] == e[o..o + |a|][k - o];
    }
    forall k | o + |a| <= k < o + |a| + |b|
      ensures f[k] == b[k - o - |a|]
    {
      assert f[k] == f[o + |a|..o + |a| + |b|][k - o - |a|];
    }
  }

  /** `e` is `d` after the 16-bit value `v` was written at `o`. */
  ghost predicate Wrote16(d: seq<byte>, e: seq<byte>, o: nat, v: nat) {
    && |e| == |d|
    && o + 2 <= |d|
    && U16At(e, o) == v
    && (forall k :: 0 <= k < |d| && !(o <= k < o + 2) ==> e[k] == d[k])
  }
}
