// Divisibility: gcd, the capped lcm, and the number of multiples in a range.
module Arithmetic {
  import opened Rule

  lemma SmallMultiple(d: int, k: int)
    requires d >= 1 && -d < d * k < d
    ensures k == 0
  {
    assert k >= 1 ==> d * k >= d;
    assert k <= -1 ==> d * k <= -d;
  }

  lemma PositiveFactor(x: int, y: int)
    requires y >= 0 && x * y >= 1
    ensures x >= 1
  {
    assert x <= 0 ==> x * y <= 0;
  }

  lemma MulMod(d: int, k: int)
    requires d >= 1
    ensures (d * k) % d == 0
  {
    var q, r := (d * k) / d, (d * k) % d;
    assert d * (k - q) == r;
    SmallMultiple(d, k - q);
  }

  lemma DividesMul(d: int, x: int, k: int)
    requires d >= 1 && x % d == 0
    ensures (x * k) % d == 0
  {
    MulMod(d, (x / d) * k);
    assert x * k == d * ((x / d) * k);
  }

  lemma DividesTrans(d: int, m: int, x: int)
    requires d >= 1 && m >= 1 && m % d == 0 && x % m == 0
    ensures x % d == 0
  {
    DividesMul(d, m, x / m);
    assert x == m * (x / m);
  }

  lemma DividesSum(d: int, x: int, y: int)
    requires d >= 1 && x % d == 0 && y % d == 0
    ensures (x + y) % d == 0
  {
    MulMod(d, x / d + y / d);
    assert x + y == d * (x / d + y / d);
  }

  // Euclid's loop. The cofactors x and y make g the greatest common divisor.
  method Gcd(m: int, n: int) returns (g: int, ghost x: int, ghost y: int)
    requires m >= 1 && n >= 0
    ensures g >= 1 && m % g == 0 && n % g == 0
    ensures g == m * x + n * y
  {
    var a, b := m, n;
    ghost var xa, ya, xb, yb := 1, 0, 0, 1;
    while b != 0
      invariant a >= 1 && b >= 0
      invariant a == m * xa + n * ya && b == m * xb + n * yb
      invariant forall d :: d >= 1 && a % d == 0 && b % d == 0 ==> m % d == 0 && n % d == 0
      decreases b
    {
      ghost var q := a / b;
      forall d | d >= 1 && b % d == 0 && (a % b) % d == 0
        ensures a % d == 0
      {
        DivisorOfRemainder(a, b, d);
      }
      EuclidStep(m, n, a, b, xa, ya, xb, yb, q);
      xa, ya, xb, yb := xb, yb, xa - q * xb, ya - q * yb;
      a, b := b, a % b;
    }
    g, x, y := a, xa, ya;
  }

  lemma DivisorOfRemainder(a: int, b: int, d: int)
    requires d >= 1 && b >= 1 && b % d == 0 && (a % b) % d == 0
    ensures a % d == 0
  {
    DividesMul(d, b, a / b);
    DividesSum(d, b * (a / b), a % b);
    assert a == b * (a / b) + a % b;
  }

  lemma CombineCofactors(m: int, n: int, xa: int, ya: int, xb: int, yb: int, q: int)
    ensures (m * xa + n * ya) - q * (m * xb + n * yb) == m * (xa - q * xb) + n * (ya - q * yb)
  {
    DistributeMinus(m, xa, q, xb);
    DistributeMinus(n, ya, q, yb);
  }

  lemma DistributeMinus(m: int, x: int, q: int, y: int)
    ensures m * (x - q * y) == m * x - q * (m * y)
  {
    assert m * (q * y) == q * (m * y);
  }

  lemma EuclidStep(m: int, n: int, a: int, b: int, xa: int, ya: int, xb: int, yb: int, q: int)
    requires b >= 1 && q == a / b && a == m * xa + n * ya && b == m * xb + n * yb
    ensures a % b == m * (xa - q * xb) + n * (ya - q * yb)
  {
    CombineCofactors(m, n, xa, ya, xb, yb, q);
    assert a % b == a - q * b;
  }

  lemma CommonDivisorDividesGcd(m: int, n: int, g: int, x: int, y: int, d: int)
    requires d >= 1 && m % d == 0 && n % d == 0 && g == m * x + n * y
    ensures g % d == 0
  {
    DividesMul(d, m, x);
    DividesMul(d, n, y);
    DividesSum(d, m * x, n * y);
  }

  // Every common multiple of a and b is a multiple of (a/g)*b, by the cofactors.
  lemma CommonMultiple(a: int, b: int, g: int, x: int, y: int, i: int)
    requires a >= 1 && b >= 1 && g >= 1 && a % g == 0 && g == a * x + b * y
    requires i >= 1 && i % a == 0 && i % b == 0
    ensures exists k :: k >= 1 && i == (a / g) * b * k
  {
    var q, s, t := a / g, i / a, i / b;
    var k := t * x + s * y;
    assert i == b * t && i == a * s && a == q * g;
    CofactorIdentity(a, b, s, t, x, y);
    assert i * g == (a * b) * k;
    Swap(q, g, b);
    Swap(q * b, g, k);
    CancelFactor(i, q * b * k, g);
    PositiveFactor(q, g);
    assert q * b >= 1;
    PositiveFactor(k, q * b);
  }

  lemma Swap(u: int, g: int, k: int)
    ensures (u * g) * k == (u * k) * g
  {
  }

  lemma Regroup(a: int, b: int, t: int, x: int)
    ensures (b * t) * (a * x) == (a * b) * (t * x)
  {
  }

  lemma DistributeLeft(x: int, y: int, z: int)
    ensures x * (y + z) == x * y + x * z
  {
  }

  lemma CofactorIdentity(a: int, b: int, s: int, t: int, x: int, y: int)
    requires b * t == a * s
    ensures (b * t) * (a * x + b * y) == (a * b) * (t * x + s * y)
  {
    DistributeLeft(b * t, a * x, b * y);
    Regroup(a, b, t, x);
    Regroup(b, a, s, y);
    DistributeLeft(a * b, t * x, s * y);
  }

  lemma CancelFactor(x: int, y: int, g: int)
    requires g >= 1 && x * g == y * g
    ensures x == y
  {
    assert g * (x - y) == 0;
    SmallMultiple(g, x - y);
  }

  lemma DivideBound(q: int, b: int, limit: int)
    requires b >= 1 && limit >= 0
    ensures q > limit / b <==> q * b > limit
  {
    var d := limit / b;
    assert limit == d * b + limit % b;
    if q > d {
      MulMonotone(d + 1, q, b);
      assert (d + 1) * b == d * b + b;
    } else {
      MulMonotone(q, d, b);
    }
  }

  lemma MulMonotone(x: int, y: int, b: int)
    requires x <= y && b >= 0
    ensures x * b <= y * b
  {
    assert (y - x) * b >= 0;
  }

  // The product is formed only when it cannot exceed the limit.
  method LcmCapped(a: int, b: int, limit: int) returns (l: int)
    requires a >= 1 && b >= 1 && limit >= 0
    ensures IsCappedLcm(a, b, limit, l)
  {
    var g;
    ghost var x, y;
    g, x, y := Gcd(a, b);
    var q := a / g;
    DivideBound(q, b, limit);
    forall i | 1 <= i <= limit && i % a == 0 && i % b == 0
      ensures q * b <= limit && q * b >= 1 && i % (q * b) == 0
    {
      CommonMultiple(a, b, g, x, y, i);
      var k :| k >= 1 && i == q * b * k;
      PositiveFactor(q * b, k);
      assert q * b <= (q * b) * k;
      MulMod(q * b, k);
    }
    if q > limit / b {
      assert forall i :: 1 <= i <= limit ==> SameMultiples(a, b, 0, i);
      return 0;
    }
    LcmIsCommon(a, b, g);
    forall i | 1 <= i <= limit && q * b != 0 && i % (q * b) == 0
      ensures i % a == 0 && i % b == 0
    {
      DividesTrans(a, q * b, i);
      DividesTrans(b, q * b, i);
    }
    l := q * b;
    assert forall i :: 1 <= i <= limit ==> SameMultiples(a, b, l, i);
  }

  lemma LcmIsCommon(a: int, b: int, g: int)
    requires a >= 1 && b >= 1 && g >= 1 && a % g == 0 && b % g == 0
    ensures (a / g) * b >= 1 && ((a / g) * b) % a == 0 && ((a / g) * b) % b == 0
  {
    var q, r := a / g, b / g;
    assert q * g == a && r * g == b;
    PositiveFactor(q, g);
    assert q * b == a * r;
    MulMod(a, r);
    MulMod(b, q);
  }

  // How many i with 1 <= i <= x have i % m == 0. The capped lcm is 0 when it is
  // too large, and 0 has no multiples here.
  function Multiples(x: int, m: int): (r: int)
    requires m >= 0
  {
    if m == 0 || x <= 0 then 0 else x / m
  }

  lemma MultiplesStep(x: int, m: int)
    requires x >= 1 && m >= 1
    ensures Multiples(x, m) == Multiples(x - 1, m) + (if x % m == 0 then 1 else 0)
  {
    var q, r := x / m, x % m;
    if r == 0 {
      assert x - 1 == m * (q - 1) + (m - 1);
      QuotientIs(x - 1, m, q - 1, m - 1);
    } else {
      assert x - 1 == m * q + (r - 1);
      QuotientIs(x - 1, m, q, r - 1);
    }
  }

  lemma QuotientIs(x: int, m: int, q: int, r: int)
    requires m >= 1 && 0 <= r < m && x == m * q + r
    ensures x / m == q && x % m == r
  {
    var q', r' := x / m, x % m;
    assert m * (q - q') == r' - r;
    SmallMultiple(m, q - q');
  }

  lemma {:induction false} MultiplesCount(x: nat, m: nat)
    ensures Multiples(x, m) == |set i | 1 <= i <= x && m != 0 && i % m == 0|
  {
    var s := set i | 1 <= i <= x && m != 0 && i % m == 0;
    if m == 0 || x == 0 {
      assert s == {};
    } else {
      MultiplesCount(x - 1, m);
      MultiplesStep(x, m);
      var t := set i | 1 <= i <= x - 1 && m != 0 && i % m == 0;
      if x % m == 0 {
        assert s == t + {x};
      } else {
        assert s == t;
      }
    }
  }
}
