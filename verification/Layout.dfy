/** Address arithmetic shared by the memory-management modules. */
module Layout {
  datatype Option<+T> = None | Some(value: T)

  const PAGE_SIZE: nat := 4096
  const USER_ADDR_MIN: nat := 0x1_0000
  const USER_ADDR_MAX: nat := 0x7FFF_FFFF_FFFF
  const USER_MMAP_LIMIT: nat := 0x6000_0000_0000
  const U64: nat := 0x1_0000_0000_0000_0000

  predicate Aligned(a: nat) {
    a % PAGE_SIZE == 0
  }

  /** The greatest page boundary that does not exceed `a`. */
  function AlignDown(a: nat): (r: nat)
    ensures Aligned(r) && r <= a < r + PAGE_SIZE
  {
    a / PAGE_SIZE * PAGE_SIZE
  }

  /** The least page boundary that is not below `a`. */
  function AlignUp(a: nat): (r: nat)
    ensures Aligned(r) && a <= r < a + PAGE_SIZE
  {
    AlignDown(a + PAGE_SIZE - 1)
  }

  /** The virtual page number of an address. */
  function Vpn(a: nat): nat {
    a / PAGE_SIZE
  }
}

/** Division facts for divisors that are not literals. */
module Arith {
  function Pow2(k: nat): (p: nat)
    ensures p > 0
  {
    if k == 0 then 1 else 2 * Pow2(k - 1)
  }

  function Min(a: nat, b: nat): nat { if a <= b then a else b }

  function Max(a: nat, b: nat): nat { if a <= b then b else a }

  lemma {:induction false} MulAtLeast(p: nat, k: nat)
    requires k >= 1
    ensures p * k >= p
  {
    if k > 1 {
      MulAtLeast(p, k - 1);
      assert p * k == p * (k - 1) + p;
    }
  }

  lemma Distribute(p: int, a: int, b: int)
    ensures p * (a - b) == p * a - p * b
  {
  }

  lemma DivModUnique(x: nat, p: nat, q: nat, r: nat)
    requires p > 0 && r < p && x == p * q + r
    ensures x / p == q && x % p == r
  {
    var d, m := x / p, x % p;
    assert x == p * d + m;
    if q > d {
      Distribute(p, q, d);
      MulAtLeast(p, q - d);
    } else if q < d {
      Distribute(p, d, q);
      MulAtLeast(p, d - q);
    }
  }

  lemma ModDouble(x: nat, p: nat)
    requires p > 0
    ensures x % (2 * p) == 2 * ((x / 2) % p) + x % 2
  {
    var h := x / 2;
    var q, r := h / p, h % p;
    assert h == p * q + r;
    assert x == 2 * (p * q) + (2 * r + x % 2);
    assert 2 * (p * q) == (2 * p) * q;
    DivModUnique(x, 2 * p, q, 2 * r + x % 2);
  }

  lemma DivDiv(x: nat, a: nat, b: nat)
    requires a > 0 && b > 0
    ensures a * b > 0 && x / (a * b) == x / a / b
  {
    MulAtLeast(a, b);
    var y := x / a;
    TwoDigits(x, a, b, y, x % a, y / b, y % b);
    DivModUnique(x, a * b, y / b, a * (y % b) + x % a);
  }

  lemma TwoDigits(x: nat, a: nat, b: nat, y: nat, s: nat, q: nat, r: nat)
    requires x == a * y + s && s < a && y == b * q + r && r < b
    ensures x == (a * b) * q + (a * r + s) && a * r + s < a * b
  {
    assert a * y == a * (b * q) + a * r;
    assert a * (b * q) == (a * b) * q;
    MulAtLeast(a, b - r);
    Distribute(a, b, r);
  }

  lemma MulAssoc(a: int, b: int, c: int)
    ensures a * (b * c) == (a * b) * c
  {
  }

  /** Adding a multiple of the divisor shifts the quotient and keeps the remainder. */
  lemma AddMultiple(h: nat, low: nat, d: nat)
    requires d > 0
    ensures (d * h + low) / d == h + low / d && (d * h + low) % d == low % d
  {
    var q, r := low / d, low % d;
    assert d * (h + q) == d * h + d * q;
    DivModUnique(d * h + low, d, h + q, r);
  }

  /** A digit does not see what is added above it. */
  lemma DigitOfSum(high: nat, low: nat, d: nat, m: nat, n: nat)
    requires d > 0 && n > 0
    ensures (d * (n * m) * high + low) / d % n == low / d % n
  {
    var h := m * high;
    MulAssoc(d, n * m, high);
    MulAssoc(n, m, high);
    AddMultiple(n * h, low, d);
    AddMultiple(h, low / d, n);
  }

  lemma FitsBefore(total: nat, size: nat, k: nat)
    requires size > 0 && k < total / size
    ensures k * size + size <= total && (k + 1) * size == k * size + size
  {
    var q := total / size;
    assert total == size * q + total % size;
    MulAtLeast(size, q - k);
    Distribute(size, q, k);
    assert k * size == size * k;
  }

  /** Distinct numbers below n are at most n. */
  lemma {:induction false} DistinctCount(p: seq<nat>, n: nat)
    requires (forall i: nat :: i < |p| ==> p[i] < n) && forall i: nat, j: nat :: i < j < |p| ==> p[i] != p[j]
    ensures |p| <= n
    decreases n
  {
    if p != [] {
      assert p[0] < n;
      if k: nat :| k < |p| && p[k] == n - 1 {
        var q := p[..k] + p[k + 1..];
        assert forall i: nat :: i < |q| ==> q[i] == p[if i < k then i else i + 1];
        DistinctCount(q, n - 1);
      } else {
        DistinctCount(p, n - 1);
      }
    }
  }
}
