/** `base/bits.h`: alignment and integer logarithms. */
module Bits {
  import opened Bytes

  function Pow2(k: nat): (p: nat)
    ensures p > 0
  {
    if k == 0 then 1 else 2 * Pow2(k - 1)
  }

  /** `Align` on 64-bit `size_t`: clearing the low bits of a power of two
      subtracts the remainder; the sum before it may wrap. */
  function AlignSize(size: nat, alignment: nat): nat
    requires 0 < alignment < TWO_64
  {
    var sum := (size + alignment - 1) % TWO_64;
    sum - sum % alignment
  }

  /** The least multiple of `alignment` that is at least `size`. */
  function AlignUp(size: nat, alignment: nat): (r: nat)
    requires 0 < alignment
    ensures r % alignment == 0 && size <= r < size + alignment
  {
    LeastMultiple(size, alignment);
    (size + alignment - 1) / alignment * alignment
  }

  lemma LeastMultiple(size: nat, alignment: nat)
    requires 0 < alignment
    ensures var r := (size + alignment - 1) / alignment * alignment;
            r % alignment == 0 && size <= r < size + alignment
  {
    var q := (size + alignment - 1) / alignment;
    MultipleMod(q, alignment);
  }

  lemma {:induction false} MultipleMod(q: nat, a: nat)
    requires 0 < a
    ensures q * a % a == 0
  {
    if q > 0 {
      MultipleMod(q - 1, a);
      assert q * a == (q - 1) * a + a;
      ModAdd((q - 1) * a, a);
    }
  }

  lemma ModAdd(x: nat, a: nat)
    requires 0 < a
    ensures (x + a) % a == x % a
  {
    assert x == a * (x / a) + x % a;
    assert x + a == a * (x / a + 1) + x % a;
    DivUnique(x + a, a, x / a + 1, x % a);
  }

  lemma DivUnique(x: nat, a: nat, q: nat, r: nat)
    requires 0 < a && r < a && x == a * q + r
    ensures x / a == q && x % a == r
  {
    var q', r' := x / a, x % a;
    assert a * (q - q') == r' - r;
    MultipleFarFromZero(a, q - q');
  }

  lemma AddModTwice(a: nat, b: nat, c: nat, m: nat)
    requires 0 < m
    ensures ((a + b) % m + c) % m == (a + b + c) % m
  {
    var q, r := (a + b) / m, (a + b) % m;
    var q', r' := (r + c) / m, (r + c) % m;
    assert a + b == m * q + r && r + c == m * q' + r';
    assert m * (q + q') == m * q + m * q';
    DivUnique(a + b + c, m, q + q', r');
  }

  lemma MultipleFarFromZero(a: nat, d: int)
    ensures d >= 1 ==> a * d >= a
    ensures d <= -1 ==> a * d <= -(a as int)
  {
    if d >= 1 {
      assert a * d == a + a * (d - 1);
    } else if d <= -1 {
      assert a * d == -(a as int) + a * (d + 1);
    }
  }

  lemma MulMonotone(a: nat, b: nat, c: nat)
    requires a <= b
    ensures a * c <= b * c
  {
    assert b * c == a * c + (b - a) * c;
  }

  /** Without wrap-around, `Align` is rounding up. */
  lemma AlignSizeIsAlignUp(size: nat, alignment: nat)
    requires 0 < alignment < TWO_64 && size + alignment <= TWO_64
    ensures AlignSize(size, alignment) == AlignUp(size, alignment)
  {
    var sum := size + alignment - 1;
    assert sum % TWO_64 == sum;
    assert sum == alignment * (sum / alignment) + sum % alignment;
  }

  /** On machine words the mask `~(alignment - 1)` drops the remainder, for each alignment in
      use: the item unit, the payload unit and the heap block. */
  lemma Mask4(x: bv64)
    ensures x & !3 == x - x % 4
  {
  }

  lemma Mask64(x: bv64)
    ensures x & !63 == x - x % 64
  {
  }

  lemma Mask4096(x: bv64)
    ensures x & !4095 == x - x % 4096
  {
  }

  /** Rounding up a multiple is the identity; alignment is additive on multiples. */
  lemma AlignUpAdds(base: nat, size: nat, alignment: nat)
    requires 0 < alignment && base % alignment == 0
    ensures AlignUp(base + size, alignment) == base + AlignUp(size, alignment)
  {
    var k := base / alignment;
    var sum := size + alignment - 1;
    assert base == alignment * k;
    assert sum == alignment * (sum / alignment) + sum % alignment;
    assert base + sum == alignment * (k + sum / alignment) + sum % alignment;
    DivUnique(base + sum, alignment, k + sum / alignment, sum % alignment);
  }

  /** Position of the highest set bit, or -1 for zero. */
  method Log2Floor(n: uint32) returns (log: int)
    ensures n == 0 ==> log == -1
    ensures n > 0 ==> 0 <= log < 32 && Pow2(log) <= n < Pow2(log + 1)
  {
    if n == 0 {
      return -1;
    }
    log := 0;
    var value := n;
    var i := 4;
    Pow2Values();
    assert Located(n, 0, n, Pow2(5));
    hide Located, Pow2;
    while i >= 0
      invariant -1 <= i <= 4
      invariant log >= 0 && value >= 0
      invariant log + Pow2(i + 1) <= 32
      invariant Located(n, log, value, Pow2(i + 1))
    {
      var shift := Pow2(i);
      var x := value / Pow2(shift);
      HalvingStep(n, log, value, i);
      if x != 0 {
        value := x;
        log := log + shift;
      }
      i := i - 1;
    }
    LocatedAt(n, log, value);
  }

  /** `value` is `n` shifted right by `log`, non-zero and `bits` wide. */
  ghost predicate Located(n: nat, log: nat, value: nat, bits: nat) {
    value == n / Pow2(log) && 0 < value < Pow2(bits)
  }

  lemma LocatedAt(n: nat, log: nat, value: nat)
    requires Located(n, log, value, Pow2(0))
    ensures value == 1 && Pow2(log) <= n < Pow2(log + 1)
  {
    Pow2Small();
    QuotientOne(n, Pow2(log));
    Pow2Successor(log);
  }

  lemma QuotientOne(n: nat, p: nat)
    requires 0 < p && n / p == 1
    ensures p <= n < 2 * p
  {
    assert n == p * (n / p) + n % p;
  }

  /** One round of the binary search for the highest bit. */
  lemma HalvingStep(n: nat, log: nat, value: nat, i: nat)
    requires Located(n, log, value, Pow2(i + 1))
    ensures Pow2(i + 1) == 2 * Pow2(i)
    ensures var x := value / Pow2(Pow2(i));
            && (x != 0 ==> Located(n, log + Pow2(i), x, Pow2(i)))
            && (x == 0 ==> Located(n, log, value, Pow2(i)))
  {
    hide Pow2;
    Pow2Successor(i);
    var shift := Pow2(i);
    SquareStep(value, shift);
    ShiftTwice(n, log, shift);
  }

  lemma ShiftTwice(n: nat, a: nat, b: nat)
    ensures n / Pow2(a) / Pow2(b) == n / Pow2(a + b)
  {
    Pow2Add(a, b);
    DivDiv(n, Pow2(a), Pow2(b));
  }

  lemma Pow2Successor(i: nat)
    ensures Pow2(i + 1) == 2 * Pow2(i)
  {
  }

  lemma SquareStep(value: nat, shift: nat)
    requires value < Pow2(2 * shift)
    ensures value / Pow2(shift) < Pow2(shift)
    ensures value / Pow2(shift) == 0 ==> value < Pow2(shift)
  {
    Pow2Add(shift, shift);
    QuotientBelow(value, Pow2(shift));
  }

  lemma QuotientBelow(value: nat, s: nat)
    requires 0 < s && value < s * s
    ensures value / s < s && (value / s == 0 ==> value < s)
  {
    var x := value / s;
    assert value == s * x + value % s;
    if x >= s {
      MulMonotone(s, x, s);
      assert false;
    }
  }

  lemma DivDiv(n: nat, p: nat, s: nat)
    requires 0 < p && 0 < s
    ensures p * s > 0 && n / p / s == n / (p * s)
  {
    MulMonotone(1, s, p);
    var q := n / p;
    NestedRemainder(n, p, s, q, q / s, n % p, q % s);
    DivUnique(n, p * s, q / s, p * (q % s) + n % p);
  }

  /** Each byte of a little-endian image holds its eight bits of the number. */
  lemma {:induction false} ToLEAt(v: nat, n: nat, i: nat)
    requires i < n
    ensures ToLE(v, n)[i] == v / Pow256(i) % 256
  {
    if i > 0 {
      ToLEAt(v / 256, n - 1, i - 1);
      DivDiv(v, 256, Pow256(i - 1));
    }
  }

  lemma NestedRemainder(n: nat, p: nat, s: nat, q: nat, x: nat, r1: nat, r2: nat)
    requires n == p * q + r1 && r1 < p && q == s * x + r2 && r2 < s
    ensures p * r2 + r1 < p * s
    ensures n == (p * s) * x + (p * r2 + r1)
  {
    MulMonotone(r2 + 1, s, p);
    Distribute(p, s, x, r2);
  }

  lemma Distribute(p: nat, s: nat, x: nat, r: nat)
    ensures p * (s * x + r) == (p * s) * x + p * r
  {
  }

  lemma {:induction false} Pow2Add(a: nat, b: nat)
    ensures Pow2(a + b) == Pow2(a) * Pow2(b)
  {
    if a > 0 {
      Pow2Add(a - 1, b);
    }
  }

  lemma Pow2Values()
    ensures Pow2(0) == 1 && Pow2(1) == 2 && Pow2(2) == 4 && Pow2(3) == 8 && Pow2(4) == 16 && Pow2(5) == 32
    ensures Pow2(32) == TWO_32
  {
    hide Pow2;
    Pow2Eight(0);
    Pow2Eight(8);
    Pow2Eight(16);
    Pow2Eight(24);
    Pow2Small();
  }

  lemma Pow2Small()
    ensures Pow2(0) == 1 && Pow2(1) == 2 && Pow2(2) == 4 && Pow2(3) == 8 && Pow2(4) == 16 && Pow2(5) == 32
  {
    assert Pow2(3) == 2 * Pow2(2) && Pow2(4) == 2 * Pow2(3) && Pow2(5) == 2 * Pow2(4);
  }

  lemma Pow2Eight(k: nat)
    ensures Pow2(k + 8) == 256 * Pow2(k)
  {
    assert Pow2(k + 2) == 2 * Pow2(k + 1);
    assert Pow2(k + 4) == 2 * Pow2(k + 3) == 4 * Pow2(k + 2);
    assert Pow2(k + 6) == 2 * Pow2(k + 5) == 4 * Pow2(k + 4);
    assert Pow2(k + 8) == 2 * Pow2(k + 7) == 4 * Pow2(k + 6);
  }

  /** Least exponent whose power of two reaches `n`. */
  method Log2Ceiling(n: uint32) returns (log: int)
    ensures n == 0 ==> log == -1
    ensures n > 0 ==> 0 <= log <= 32 && n <= Pow2(log) && (log > 0 ==> Pow2(log - 1) < n)
  {
    if n == 0 {
      log := -1;
    } else {
      var floor := Log2Floor(n - 1);
      log := 1 + floor;
    }
  }
}
