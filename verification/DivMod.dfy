/** Facts about division and remainder by a positive number, used by the phase machine,
    the ring buffers and the block adapters. */
module DivMod {

  /** The value of the low 32 bits as a signed integer, two's complement. */
  function Wrap32(x: int): int {
    var low := x % 0x1_0000_0000;
    if low < 0x8000_0000 then low else low - 0x1_0000_0000
  }

  lemma MulMonotone(a: int, b: int, d: int)
    requires a <= b && 0 <= d
    ensures a * d <= b * d
  {
  }

  lemma MulAssociative(a: int, b: int, c: int)
    ensures (a * b) * c == a * (b * c)
  {
  }

  lemma MulDistributes(a: int, b: int, d: int)
    ensures (a + b) * d == a * d + b * d
    ensures (a - b) * d == a * d - b * d
  {
  }

  /** The quotient and remainder of `a` by `d` are the only pair with `0 <= r < d`. */
  lemma Unique(a: int, d: int, q: int, r: int)
    requires 0 <= r < d && a == q * d + r
    ensures a / d == q && a % d == r
  {
    var q', r' := a / d, a % d;
    assert (q' - q) * d == r - r';
    if q' - q >= 1 {
      MulMonotone(1, q' - q, d);
    } else if q' - q <= -1 {
      MulMonotone(q' - q, -1, d);
    }
  }

  lemma QuotientSign(a: int, d: int)
    requires 0 <= a && 0 < d
    ensures 0 <= a / d
  {
  }

  lemma AddMultiple(a: int, d: int, k: int)
    requires 0 < d
    ensures (a + k * d) % d == a % d && (a + k * d) / d == a / d + k
  {
    assert a + k * d == (a / d + k) * d + a % d;
    Unique(a + k * d, d, a / d + k, a % d);
  }

  /** Two positions less than `d` apart fall on different places of a ring of size `d`. */
  lemma DistinctSlots(p: int, q: int, d: int)
    requires 0 < d && p < q < p + d
    ensures p % d != q % d
  {
    if p % d == q % d {
      assert (q / d - p / d) * d == q - p;
      var k := q / d - p / d;
      if k >= 1 {
        MulMonotone(1, k, d);
      } else {
        MulMonotone(k, 0, d);
      }
      assert false;
    }
  }

  /** Stepping a ring index: it grows by one, or wraps to zero. */
  lemma NextIndex(i: int, d: int)
    requires 0 < d
    ensures (i + 1) % d == if i % d + 1 == d then 0 else i % d + 1
    ensures (i + 1) / d == if i % d + 1 == d then i / d + 1 else i / d
  {
    if i % d + 1 == d {
      assert i + 1 == (i / d + 1) * d + 0;
      Unique(i + 1, d, i / d + 1, 0);
    } else {
      Unique(i + 1, d, i / d, i % d + 1);
    }
  }

  /** Scaling both sides of a division by `g` keeps the quotient and scales the remainder. */
  lemma Scale(g: int, a: int, d: int)
    requires 0 < g && 0 < d
    ensures 0 < g * d
    ensures (g * a) / (g * d) == a / d
    ensures (g * a) % (g * d) == g * (a % d)
  {
    MulMonotone(1, g, d);
    var q, r := a / d, a % d;
    assert g * a == q * (g * d) + g * r by {
      assert a == q * d + r;
      assert g * (q * d + r) == g * (q * d) + g * r;
      assert g * (q * d) == q * (g * d);
    }
    MulMonotone(r, d - 1, g);
    MulMonotone(0, r, g);
    assert g * r <= g * d - g;
    Unique(g * a, g * d, q, g * r);
  }

  /** Only the remainder of a factor matters to the remainder of a product. */
  lemma ModOfProduct(i: int, n: int, d: int)
    requires 0 < d
    ensures ((i % d) * n) % d == (i * n) % d
  {
    assert i * n == (i % d) * n + (i / d * n) * d by {
      assert i == i % d + (i / d) * d;
      assert (i % d + (i / d) * d) * n == (i % d) * n + (i / d) * d * n;
      assert (i / d) * d * n == (i / d * n) * d;
    }
    AddMultiple((i % d) * n, d, i / d * n);
  }

  /** The least integer not below `a / d`. */
  function CeilDiv(a: int, d: int): (q: int)
    requires 0 < d
    ensures (q - 1) * d < a <= q * d
  {
    if a % d == 0 then a / d else a / d + 1
  }

  lemma CeilDivUnique(a: int, d: int, q: int)
    requires 0 < d && (q - 1) * d < a <= q * d
    ensures q == CeilDiv(a, d)
  {
    var c := CeilDiv(a, d);
    if c < q {
      MulMonotone(c, q - 1, d);
    } else if q < c {
      MulMonotone(q, c - 1, d);
    }
  }

  lemma CeilDivMonotone(a: int, b: int, d: int)
    requires 0 < d && a <= b
    ensures CeilDiv(a, d) <= CeilDiv(b, d)
  {
    var p, q := CeilDiv(a, d), CeilDiv(b, d);
    if q < p {
      MulMonotone(q, p - 1, d);
    }
  }

  /** When `k` groups of `n` units and one more fit in `total` units, so they do when units are counted. */
  lemma UnitsFit(k: nat, n: nat, unit: nat, total: nat)
    requires 0 < n * unit && k * (n * unit) + n * unit <= total * unit
    ensures k * n + n <= total
    ensures k * n * unit == k * (n * unit) && (k * n + n) * unit == k * (n * unit) + n * unit
  {
    MulAssociative(k, n, unit);
    MulDistributes(k * n, n, unit);
    if total < k * n + n {
      MulMonotone(total + 1, k * n + n, unit);
      MulDistributes(total, 1, unit);
    }
  }

  lemma BelowCeil(r: int, a: int, d: int)
    requires 0 < d
    ensures r < CeilDiv(a, d) <==> r * d < a
  {
    var c := CeilDiv(a, d);
    if r < c {
      MulMonotone(r, c - 1, d);
    } else {
      MulMonotone(c, r, d);
    }
  }

  lemma QuotientBelow(a: int, d: int, n: int)
    requires 0 < d
    ensures a / d < n <==> a < n * d
  {
    var q := a / d;
    if q < n {
      MulMonotone(q + 1, n, d);
      MulDistributes(q, 1, d);
    } else {
      MulMonotone(n, q, d);
    }
  }
}
