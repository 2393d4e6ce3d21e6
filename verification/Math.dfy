/** Address arithmetic of iceoryx2-bb/elementary/src/math.rs. */
module Math {

  /** The number of values of a 64-bit word. */
  const WORD: nat := 0x1_0000_0000_0000_0000

  /** The largest size of an object and of a padded layout in Rust. */
  const ISIZE_MAX: nat := 0x7FFF_FFFF_FFFF_FFFF

  /** Wrapping 64-bit sum and difference. */
  function WordAdd(x: nat, y: nat): (r: nat)
    ensures x + y < WORD ==> r == x + y
    ensures x < WORD && y < WORD && WORD <= x + y ==> r == x + y - WORD
  {
    (x + y) % WORD
  }

  function WordSub(x: nat, y: nat): (r: nat)
    requires y <= WORD
    ensures y <= x < WORD ==> r == x - y
    ensures x < y ==> r == x + WORD - y
  {
    (x + WORD - y) % WORD
  }

  /** The smallest multiple of `alignment` that is not below `value`. */
  function Align(value: nat, alignment: nat): (r: nat)
    requires alignment > 0
    ensures value <= r < value + alignment
    ensures r % alignment == 0
  {
    if value % alignment == 0 then
      value
    else
      NextMultiple(value, alignment);
      value + alignment - value % alignment
  }

  lemma NextMultiple(value: nat, alignment: nat)
    requires alignment > 0
    ensures value % alignment < alignment && (value + alignment - value % alignment) % alignment == 0
  {
    DivModEquation(value, alignment);
    MulDistributes(value / alignment, 1, alignment);
    MultipleIsAligned(value / alignment + 1, alignment);
  }

  /** `Align` returns the least admissible multiple. */
  lemma AlignIsLeast(value: nat, alignment: nat, m: nat)
    requires alignment > 0 && m % alignment == 0 && value <= m
    ensures Align(value, alignment) <= m
  {
    var r := Align(value, alignment);
    if m < r {
      NoMultipleBetween(r / alignment - m / alignment, alignment, r - m);
    }
  }

  /** Integer division, kept apart from the terms it divides. */
  function Quotient(total: nat, stride: nat): (q: nat)
    requires stride > 0
  {
    total / stride
  }

  lemma QuotientFits(total: nat, stride: nat)
    requires stride > 0
    ensures Quotient(total, stride) * stride <= total < (Quotient(total, stride) + 1) * stride
  {
    DivModEquation(total, stride);
    MulDistributes(total / stride, 1, stride);
  }

  lemma QuotientOfMultiple(k: nat, stride: nat)
    requires stride > 0
    ensures Quotient(k * stride, stride) == k
  {
    MultipleIsAligned(k, stride);
  }

  lemma MultipleIsAligned(k: nat, a: nat)
    requires a > 0
    ensures (k * a) % a == 0 && (k * a) / a == k
  {
    DivModUnique(k * a, a, k, 0);
  }

  /** Quotient and remainder are determined by their defining equation. */
  lemma DivModUnique(x: int, a: nat, q: int, r: nat)
    requires a > 0 && r < a
    requires x == q * a + r
    ensures x / a == q && x % a == r
  {
    DivModEquation(x, a);
    MulDistributes(q, x / a, a);
    NoMultipleBetween(q - x / a, a, x % a - r);
  }

  lemma DivModEquation(x: int, a: nat)
    requires a > 0
    ensures x == (x / a) * a + x % a
  {
  }

  lemma MulDistributes(p: int, q: int, a: int)
    ensures (p - q) * a == p * a - q * a
    ensures (p + q) * a == p * a + q * a
  {
  }

  /** The only multiple of `a` strictly between `-a` and `a` is zero. */
  lemma NoMultipleBetween(d: int, a: nat, x: int)
    requires d * a == x && 0 < x + a < 2 * a
    ensures d == 0
  {
    if d >= 1 {
      MulMonotone(1, d, a);
    } else if d <= -1 {
      MulMonotone(d, -1, a);
    }
  }

  lemma MulMonotone(p: int, q: int, a: nat)
    requires p <= q
    ensures p * a <= q * a
  {
  }

  /** Two positions less than `n` apart never share a residue. */
  lemma ResiduesDiffer(p: nat, q: nat, n: nat)
    requires p < q < p + n
    ensures p % n != q % n
  {
    DivModEquation(p, n);
    DivModEquation(q, n);
    MulDistributes(q / n, p / n, n);
    if p % n == q % n {
      NoMultipleBetween(q / n - p / n, n, q - p);
    }
  }

  lemma OneLapLater(p: nat, n: nat)
    requires n > 0
    ensures (p + n) % n == p % n
  {
    DivModEquation(p, n);
    MulDistributes(p / n, 1, n);
    DivModUnique(p + n, n, p / n + 1, p % n);
  }

  /** Every residue occurs among `n` consecutive positions. */
  lemma NextWithResidue(start: nat, c: nat, n: nat) returns (p: nat)
    requires c < n
    ensures start <= p < start + n && p % n == c
  {
    DivModEquation(start, n);
    MulDistributes(start / n, 1, n);
    var q := start - start % n + c;
    DivModUnique(q, n, start / n, c);
    DivModUnique(q + n, n, start / n + 1, c);
    p := if q < start then q + n else q;
  }

  /** Reducing by a multiple of `n` first does not change the residue. */
  lemma ModOfMod(p: nat, m: nat, n: nat)
    requires n > 0 && m > 0 && m % n == 0
    ensures (p % m) % n == p % n
  {
    var q, k, r := p / m, m / n, p % m;
    DivModEquation(p, m);
    DivModEquation(m, n);
    DivModEquation(r, n);
    assert p == (q * k) * n + r by { MulAssociates(q, k, n); }
    MulDistributes(q * k, r / n, n);
    DivModUnique(p, n, q * k + r / n, r % n);
  }

  lemma MulAssociates(a: int, b: int, c: int)
    ensures a * (b * c) == (a * b) * c
  {
  }
}
