/** Facts about products and squares of reals, kept apart because they are costly to rediscover. */
module Reals {
  function Times(a: real, b: real): real {
    a * b
  }

  lemma TimesPositive(a: real, b: real)
    requires a > 0.0 && b > 0.0
    ensures Times(a, b) > 0.0
  {
  }

  lemma TimesNegated(a: real)
    ensures Times(-a, -a) == Times(a, a)
  {
  }

  function Square(d: real): (s: real)
    ensures s >= 0.0 && (s == 0.0 <==> d == 0.0)
  {
    TimesNegated(d);
    if d > 0.0 then TimesPositive(d, d); Times(d, d)
    else if d < 0.0 then TimesPositive(-d, -d); Times(d, d)
    else Times(d, d)
  }

  lemma SquareOfDifference(x: real, y: real)
    ensures Square(x - y) == Times(x, x) + Times(y, y) - 2.0 * Times(x, y)
  {
  }

  lemma TimesMonotone(a: real, b: real, c: real)
    requires a <= b && c >= 0.0
    ensures Times(a, c) <= Times(b, c)
  {
  }

  lemma TimesStrict(a: real, b: real, c: real)
    requires a < b && c > 0.0
    ensures Times(a, c) < Times(b, c)
  {
    TimesPositive(b - a, c);
    assert Times(b - a, c) == Times(b, c) - Times(a, c);
  }

  lemma TimesAssociative(a: real, b: real, c: real)
    ensures Times(Times(a, b), c) == Times(a, Times(b, c))
  {
  }

  lemma TimesCommutative(a: real, b: real)
    ensures Times(a, b) == Times(b, a)
  {
  }

  lemma SquareBelowOne(y: real)
    requires -1.0 <= y <= 1.0
    ensures Times(y, y) <= 1.0
  {
    if y >= 0.0 {
      TimesMonotone(y, 1.0, y);
    } else {
      TimesMonotone(-y, 1.0, -y);
      TimesNegated(y);
    }
  }

  lemma RootOfOne(r: real)
    requires r >= 0.0 && Times(r, r) == 1.0
    ensures r == 1.0
  {
    if r > 1.0 {
      TimesStrict(1.0, r, r);
    } else if r < 1.0 {
      TimesMonotone(r, 1.0, r);
    }
  }

  lemma RootAboveOne(r: real)
    requires r >= 0.0 && Times(r, r) >= 1.0
    ensures r >= 1.0
  {
    if r < 1.0 {
      TimesMonotone(r, 1.0, r);
    }
  }

  // (ab)(ab) = (aa)(bb)
  lemma SquareOfProduct(a: real, b: real)
    ensures Times(Times(a, b), Times(a, b)) == Times(Times(a, a), Times(b, b))
  {
    TimesAssociative(a, b, Times(a, b));
    TimesAssociative(b, a, b);
    TimesCommutative(a, b);
    TimesAssociative(a, b, b);
    TimesAssociative(a, a, Times(b, b));
  }

  lemma TimesDistributes(a: real, b: real, c: real)
    ensures Times(a, b + c) == Times(a, b) + Times(a, c)
  {
  }

  lemma Inverse(n: real)
    requires n > 0.0
    ensures 1.0 / n > 0.0 && Times(1.0 / n, n) == 1.0
  {
  }

  // Scaling by inverse factors, squared, cancels.
  lemma SquaresCancel(a: real, b: real, d: real)
    requires Times(a, b) == 1.0
    ensures Times(Times(a, a), Times(Times(b, b), d)) == d
  {
    TimesAssociative(Times(a, a), Times(b, b), d);
    SquareOfProduct(a, b);
  }

  // ---------- Powers of two ----------

  function Power2(n: nat): (p: int)
    ensures p >= 1
  {
    if n == 0 then 1 else 2 * Power2(n - 1)
  }

  lemma {:induction false} PowerGrows(m: nat, n: nat)
    requires m <= n
    ensures Power2(m) <= Power2(n)
  {
    if m < n {
      PowerGrows(m, n - 1);
    }
  }

  lemma {:induction false} PowerSum(m: nat, n: nat)
    ensures Power2(m + n) == Power2(m) * Power2(n)
  {
    if n > 0 {
      PowerSum(m, n - 1);
    }
  }

  lemma PowerOf21()
    ensures Power2(21) == 0x20_0000
  {
    assert Power2(4) == 16 && Power2(8) == 0x100 && Power2(12) == 0x1000;
    assert Power2(16) == 0x1_0000 && Power2(20) == 0x10_0000;
  }

  lemma PowerOf126()
    ensures Power2(126) == 85070591730234615865843651857942052864
  {
    hide Power2;
    PowerOf21();
    PowerSum(21, 21);
    PowerSum(42, 21);
    PowerSum(63, 63);
  }
}
