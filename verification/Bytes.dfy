/** Bytes, fixed-width integers and their little- and big-endian images. */
module Bytes {

  type byte = x: int | 0 <= x < 256
  type int16 = x: int | -0x8000 <= x < 0x8000
  type int32 = x: int | -0x8000_0000 <= x < 0x8000_0000
  type int64 = x: int | -0x8000_0000_0000_0000 <= x < 0x8000_0000_0000_0000
  type uint16 = x: int | 0 <= x < 0x1_0000
  type uint32 = x: int | 0 <= x < 0x1_0000_0000
  type uint64 = x: int | 0 <= x < 0x1_0000_0000_0000_0000

  const TWO_32: nat := 0x1_0000_0000
  const TWO_64: nat := 0x1_0000_0000_0000_0000

  datatype Option<+T> = None | Some(value: T)

  function Pow256(n: nat): (p: nat)
    ensures p > 0
  {
    if n == 0 then 1 else 256 * Pow256(n - 1)
  }

  lemma Pow256Values()
    ensures Pow256(2) == 0x1_0000
    ensures Pow256(4) == TWO_32
    ensures Pow256(8) == TWO_64
  {
    assert Pow256(2) == 256 * Pow256(1);
    assert Pow256(3) == 256 * Pow256(2);
    assert Pow256(4) == 256 * Pow256(3);
    assert Pow256(5) == 256 * Pow256(4);
    assert Pow256(6) == 256 * Pow256(5);
    assert Pow256(7) == 256 * Pow256(6);
  }

  /** The low `n` bytes of `v`, least significant first. */
  function ToLE(v: nat, n: nat): (b: seq<byte>)
    ensures |b| == n
  {
    if n == 0 then [] else [v % 256] + ToLE(v / 256, n - 1)
  }

  function FromLE(b: seq<byte>): nat {
    if b == [] then 0 else b[0] + 256 * FromLE(b[1..])
  }

  lemma {:induction false} FromLEBound(b: seq<byte>)
    ensures FromLE(b) < Pow256(|b|)
  {
    if b != [] {
      FromLEBound(b[1..]);
    }
  }

  lemma {:induction false} FromToLE(v: nat, n: nat)
    requires v < Pow256(n)
    ensures FromLE(ToLE(v, n)) == v
  {
    if n > 0 {
      FromToLE(v / 256, n - 1);
      assert ToLE(v, n)[1..] == ToLE(v / 256, n - 1);
    }
  }

  lemma LowAndHigh(low: byte, high: nat)
    ensures (low + 256 * high) % 256 == low && (low + 256 * high) / 256 == high
  {
  }

  lemma {:induction false} ToFromLE(b: seq<byte>)
    ensures ToLE(FromLE(b), |b|) == b
  {
    if b != [] {
      ToFromLE(b[1..]);
      var low, high := b[0], FromLE(b[1..]);
      LowAndHigh(low, high);
      assert ToLE(low + 256 * high, |b|) == [low] + ToLE(high, |b| - 1);
      assert b == [low] + b[1..];
    }
  }

  /** The value of `b` read most significant byte first (network order). */
  function FromBE(b: seq<byte>): nat {
    if b == [] then 0 else 256 * FromBE(b[..|b| - 1]) + b[|b| - 1]
  }

  lemma {:induction false} FromBEBound(b: seq<byte>)
    ensures FromBE(b) < Pow256(|b|)
  {
    if b != [] {
      FromBEBound(b[..|b| - 1]);
    }
  }

  lemma {:induction false} FromBEConcat(a: seq<byte>, b: seq<byte>)
    ensures FromBE(a + b) == FromBE(a) * Pow256(|b|) + FromBE(b)
  {
    if b == [] {
      assert a + b == a;
    } else {
      var init, last := b[..|b| - 1], b[|b| - 1];
      FromBEConcat(a, init);
      assert (a + b)[..|a + b| - 1] == a + init;
      assert Pow256(|b|) == 256 * Pow256(|init|);
      assert FromBE(a) * Pow256(|b|) == 256 * (FromBE(a) * Pow256(|init|));
    }
  }

  function Reverse<T>(b: seq<T>): (r: seq<T>)
    ensures |r| == |b|
  {
    if b == [] then [] else Reverse(b[1..]) + [b[0]]
  }

  lemma {:induction false} ReverseLast<T>(b: seq<T>, x: T)
    ensures Reverse(b + [x]) == [x] + Reverse(b)
  {
    if b != [] {
      ReverseLast(b[1..], x);
      assert (b + [x])[1..] == b[1..] + [x];
    }
  }

  lemma {:induction false} ReverseAt<T>(b: seq<T>, i: nat)
    requires i < |b|
    ensures Reverse(b)[i] == b[|b| - 1 - i]
  {
    if i < |b| - 1 {
      ReverseAt(b[1..], i);
    }
  }

  lemma {:induction false} ReverseTwice<T>(b: seq<T>)
    ensures Reverse(Reverse(b)) == b
  {
    if b != [] {
      ReverseTwice(b[1..]);
      ReverseLast(Reverse(b[1..]), b[0]);
    }
  }

  /** Big-endian is little-endian of the reversed bytes. */
  lemma {:induction false} FromBEIsFromLEReversed(b: seq<byte>)
    ensures FromLE(Reverse(b)) == FromBE(b)
  {
    if b != [] {
      var init, last := b[..|b| - 1], b[|b| - 1];
      FromBEIsFromLEReversed(init);
      assert b == init + [last];
      ReverseLast(init, last);
      assert ([last] + Reverse(init))[1..] == Reverse(init);
    }
  }

  /** The signed integer of `n` bytes whose two's-complement image is `u`. */
  function Signed(u: nat, n: nat): int {
    if 2 * u < Pow256(n) then u else u - Pow256(n)
  }

  function Zeros(n: nat): (z: seq<byte>)
    ensures |z| == n && forall i :: 0 <= i < n ==> z[i] == 0
  {
    if n == 0 then [] else [0] + Zeros(n - 1)
  }

  // ---------------------------------------------------------------- slices

  lemma PrefixSlice<T>(a: seq<T>, b: seq<T>, n: nat, x: nat, y: nat)
    requires x <= y <= n <= |a| && n <= |b| && a[..n] == b[..n]
    ensures a[x..y] == b[x..y]
  {
    forall i | x <= i < y
      ensures a[i] == b[i]
    {
      assert a[..n][i] == b[..n][i];
    }
  }

  lemma SuffixSlice<T>(a: seq<T>, b: seq<T>, n: nat, x: nat, y: nat)
    requires n <= x <= y <= |a| == |b| && a[n..] == b[n..]
    ensures a[x..y] == b[x..y]
  {
    forall i | x <= i < y
      ensures a[i] == b[i]
    {
      assert a[n..][i - n] == b[n..][i - n];
    }
  }

  lemma SliceOfSlice<T>(a: seq<T>, lo: nat, hi: nat, x: nat, y: nat)
    requires lo <= hi <= |a| && x <= y <= hi - lo
    ensures a[lo..hi][x..y] == a[lo + x..lo + y]
  {
    var outer := a[lo..hi];
    assert forall k :: 0 <= k < |outer| ==> outer[k] == a[lo + k];
    assert forall k :: 0 <= k < y - x ==> outer[x..y][k] == outer[x + k];
  }

  lemma JoinSlices<T>(a: seq<T>, x: nat, y: nat, z: nat)
    requires x <= y <= z <= |a|
    ensures a[x..z] == a[x..y] + a[y..z]
  {
  }
}
