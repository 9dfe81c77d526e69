/** Powers of two, products, quotients and remainders. */
module Arithmetic {

  function Pow2(k: nat): (p: nat)
    ensures p > 0
  {
    if k == 0 then 1 else 2 * Pow2(k - 1)
  }

  lemma AddMod(x: nat, y: nat, n: nat)
    requires n > 0
    ensures (x + y) % n == (x % n + y) % n
  {
    var q := x / n;
    assert x + y == q * n + (x % n + y);
    ModOfMultiple(x % n + y, q, n);
  }

  lemma {:induction false} ModOfMultiple(r: nat, q: nat, n: nat)
    requires n > 0
    ensures (q * n + r) % n == r % n
    decreases q
  {
    if q > 0 {
      ModOfMultiple(r, q - 1, n);
      assert q * n + r == ((q - 1) * n + r) + n;
      ModPlusN((q - 1) * n + r, n);
    } else {
      assert q * n + r == r;
    }
  }

  lemma ModPlusN(x: nat, n: nat)
    requires n > 0
    ensures (x + n) % n == x % n
  {
    var q, r := x / n, x % n;
    assert x + n == (q + 1) * n + r;
    DivisionIsUnique(x + n, n, q + 1, r);
  }

  lemma DivisionIsUnique(x: nat, n: nat, q: nat, r: nat)
    requires n > 0 && r < n && x == q * n + r
    ensures x % n == r && x / n == q
  {
    Distribute(q, x / n, n);
    SmallMultiple(q - x / n, n);
  }

  lemma Distribute(a: int, b: int, n: int)
    ensures (a - b) * n == a * n - b * n
  {
  }

  lemma SmallMultiple(k: int, n: int)
    requires n > 0 && -n < k * n < n
    ensures k == 0
  {
    if k >= 1 {
      AtLeastOne(k, n);
    } else if -k >= 1 {
      AtLeastOne(-k, n);
    }
  }

  lemma AtLeastOne(k: int, n: int)
    requires k >= 1
    requires n >= 0
    ensures k * n >= n
  {
  }

  lemma SameRemainder(x: nat, y: nat, n: nat)
    requires n > 0 && x <= y && x % n == y % n
    ensures (y - x) % n == 0
  {
    var q := y / n - x / n;
    Distribute(y / n, x / n, n);
    assert y - x == q * n + 0;
    DivisionKeepsOrder(x, y, n);
    ModOfMultiple(0, q, n);
  }

  lemma MultipleOfMultiple(x: nat, m: nat, w: nat)
    requires m > 0 && w > 0 && m * w > 0 && x % (m * w) == 0
    ensures x % w == 0
  {
    var q := x / (m * w);
    assert x == q * (m * w);
    Regroup(q, w, m);
    ModOfMultiple(0, q * m, w);
  }

  lemma DivisionKeepsOrder(x: nat, y: nat, n: nat)
    requires n > 0 && x <= y
    ensures x / n <= y / n
  {
    if x / n - y / n >= 1 {
      Distribute(x / n, y / n, n);
      AtLeastOne(x / n - y / n, n);
    }
  }

  lemma DoubledFactor(x: nat, y: nat)
    ensures 2 * (x * y) == 2 * x * y
  {
  }

  lemma {:induction false} Pow2Splits(a: nat, b: nat)
    ensures Pow2(a + b) == Pow2(a) * Pow2(b)
  {
    if a > 0 {
      Pow2Splits(a - 1, b);
      DoubledFactor(Pow2(a - 1), Pow2(b));
    }
  }

  lemma QuotientInRange(x: nat, n: nat, w: nat)
    requires w > 0 && x < n * w
    ensures 0 <= x / w < n
  {
  }

  /** Order is kept by a positive factor, in both directions. */
  lemma ScaleOrder(a: int, b: int, g: nat)
    requires g > 0
    ensures a < b <==> a * g < b * g
  {
    Distribute(b, a, g);
    if a < b {
      AtLeastOne(b - a, g);
    } else {
      assert (a - b) * g >= 0;
    }
  }

  lemma QuotientBelow(x: nat, w: nat, q: nat)
    requires w > 0
    ensures x / w < q <==> x < q * w
  {
    ScaleOrder(x / w, q, w);
    if x / w < q {
      AtLeastOne(q - x / w, w);
      Distribute(q, x / w, w);
    }
  }

  lemma Regroup(q: nat, g: nat, w: nat)
    ensures q * (g * w) == (q * w) * g
  {
  }
}
