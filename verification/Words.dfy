/** 64-bit words as naturals, and the division facts the page arithmetic needs. */
module Words {

  const WORD: nat := 0x1_0000_0000_0000_0000

  type Word = x: nat | x < WORD

  /** What a 64-bit result holds. */
  function W(x: int): (w: Word)
    ensures 0 <= x < WORD ==> w == x
    ensures WORD <= x < 2 * WORD ==> w == x - WORD
  {
    x % WORD
  }

  lemma ProductMonotone(m: nat, a: nat, b: nat)
    requires a <= b
    ensures m * a <= m * b
  {
    Distributes(m, a, b - a);
  }

  lemma Distributes(m: nat, a: nat, b: nat)
    ensures m * (a + b) == m * a + m * b && 0 <= m * b
  {
  }

  lemma ProductStep(m: nat, a: nat, b: nat)
    requires a < b
    ensures m * a + m <= m * b
  {
    var k: nat := b - a - 1;
    assert b == a + 1 + k;
    Distributes(m, a + 1, k);
    Distributes(m, a, 1);
  }

  /** Quotient and remainder are determined by the division equation. */
  lemma DivModUnique(a: nat, m: nat, q: nat, r: nat)
    requires r < m && a == m * q + r
    ensures a / m == q && a % m == r
  {
    var q', r' := a / m, a % m;
    assert a == m * q' + r';
    if q < q' {
      ProductStep(m, q, q');
    } else if q' < q {
      ProductStep(m, q', q);
    }
  }

  lemma MultipleMod(m: nat, k: nat)
    requires m > 0
    ensures (m * k) % m == 0 && (m * k) / m == k
  {
    DivModUnique(m * k, m, k, 0);
  }

  lemma AddMultiple(a: nat, m: nat, k: nat)
    requires m > 0
    ensures (a + m * k) % m == a % m
  {
    assert a == m * (a / m) + a % m;
    assert m * (a / m + k) == m * (a / m) + m * k;
    DivModUnique(a + m * k, m, a / m + k, a % m);
  }

  /** Dividing twice is dividing by the product. */
  lemma DivDiv(r: nat, a: nat, b: nat)
    requires a > 0 && b > 0
    ensures a * b > 0 && r / a / b == r / (a * b)
  {
    ProductMonotone(a, 1, b);
    var x, y := r / a, r % a;
    var z, w := x / b, x % b;
    assert r == a * x + y && x == b * z + w;
    assert r == (a * b) * z + (a * w + y) by {
      assert a * (b * z + w) == a * (b * z) + a * w;
      assert a * (b * z) == (a * b) * z;
    }
    ProductStep(a, w, b);
    DivModUnique(r, a * b, z, a * w + y);
  }

  /** A whole step further is still within an aligned bound. */
  lemma AlignedBelow(x: nat, end: nat, m: nat)
    requires m > 0 && x % m == 0 && end % m == 0 && x < end
    ensures x + m <= end
  {
    var j, k := x / m, end / m;
    assert x == m * j && end == m * k;
    if k <= j { ProductMonotone(m, k, j); }
    ProductStep(m, j, k);
  }

  lemma ProductMod(m: nat, c: nat, q: nat)
    requires m > 0 && q > 0
    ensures m * q > 0 && (m * c) % (m * q) == m * (c % q)
  {
    var d, r := c / q, c % q;
    assert c == q * d + r;
    ProductMonotone(m, 1, q);
    ProductMonotone(m, r + 1, q);
    assert m * (r + 1) == m * r + m;
    assert m * c == (m * q) * d + m * r by {
      assert m * (q * d + r) == m * (q * d) + m * r;
      assert m * (q * d) == (m * q) * d;
    }
    DivModUnique(m * c, m * q, d, m * r);
  }

  predicate IsAligned(x: nat, pageSize: nat)
    requires pageSize > 0
  {
    x % pageSize == 0
  }

  /** Distance from `start` up to the next multiple of pageSize. */
  function Chop(start: nat, pageSize: nat): (c: nat)
    requires pageSize > 0
    ensures c < pageSize
  {
    var r := start % pageSize;
    if r == 0 then 0 else pageSize - r
  }

  lemma ChopIsNext(start: nat, pageSize: nat)
    requires pageSize > 0
    ensures IsAligned(start + Chop(start, pageSize), pageSize)
    ensures forall x: nat | start <= x && IsAligned(x, pageSize) :: start + Chop(start, pageSize) <= x
  {
    var q, r := start / pageSize, start % pageSize;
    assert start == pageSize * q + r;
    if r != 0 {
      assert pageSize * (q + 1) == pageSize * q + pageSize;
      MultipleMod(pageSize, q + 1);
      forall x: nat | start <= x && IsAligned(x, pageSize)
        ensures start + (pageSize - r) <= x
      {
        var k := x / pageSize;
        assert x == pageSize * k;
        if k <= q {
          ProductMonotone(pageSize, k, q);
        } else {
          ProductMonotone(pageSize, q + 1, k);
        }
      }
    }
  }
}
