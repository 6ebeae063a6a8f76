/** Remainders, divisibility and greatest common divisors: the arithmetic the rollout shuffle rests on. */
module Modular {

  function Abs(x: int): nat {
    if x < 0 then -x else x
  }

  /** Division with remainder is unique. */
  lemma QuotientUnique(x: int, m: int, q: int, r: int)
    requires 0 <= r < m && x == q * m + r
    ensures x / m == q && x % m == r
  {
    var d := q - x / m;
    assert d * m == x % m - r;
    assert d >= 1 ==> d * m >= m;
    assert d <= -1 ==> d * m <= -m;
  }

  lemma AddMultiple(x: int, k: int, m: int)
    requires m > 0
    ensures (x + k * m) % m == x % m
  {
    assert x + k * m == (x / m + k) * m + x % m;
    QuotientUnique(x + k * m, m, x / m + k, x % m);
  }

  /** Equal remainders mean a difference that is a multiple, and the other way round. */
  lemma SameRemainder(x: int, y: int, m: int)
    requires m > 0
    ensures x % m == y % m <==> (x - y) % m == 0
  {
    if x % m == y % m {
      assert x - y == (x / m - y / m) * m + 0;
      QuotientUnique(x - y, m, x / m - y / m, 0);
    }
    if (x - y) % m == 0 {
      assert x == y + ((x - y) / m) * m;
      AddMultiple(y, (x - y) / m, m);
    }
  }

  lemma ModOfProduct(x: int, y: int, m: int)
    requires m > 0
    ensures (x % m * y) % m == (x * y) % m
  {
    assert x * y == x % m * y + (x / m * y) * m by {
      assert x == x / m * m + x % m;
      assert (x / m * m) * y == (x / m * y) * m;
    }
    AddMultiple(x % m * y, x / m * y, m);
  }

  lemma ModOfSum(x: int, y: int, m: int)
    requires m > 0
    ensures (x % m + y) % m == (x + y) % m
  {
    assert x + y == x % m + y + x / m * m;
    AddMultiple(x % m + y, x / m, m);
  }

  // ----- divisibility -----

  /** d divides n; only 0 is divided by 0. */
  predicate Divides(d: nat, n: int) {
    if d == 0 then n == 0 else n % d == 0
  }

  lemma DividesCombination(d: nat, x: int, y: int, k: int)
    requires Divides(d, x) && Divides(d, y)
    ensures Divides(d, x + k * y)
  {
    if d > 0 {
      assert x + k * y == (x / d + k * (y / d)) * d + 0 by {
        assert x == x / d * d && y == y / d * d;
        assert k * (y / d * d) == k * (y / d) * d;
      }
      QuotientUnique(x + k * y, d, x / d + k * (y / d), 0);
    }
  }

  /** Euclid's recursion. */
  function Gcd(a: nat, b: nat): nat
    decreases b
  {
    if b == 0 then a else Gcd(b, a % b)
  }

  /** What the recursion computes: the common divisors of a and b are exactly the divisors of Gcd(a, b). */
  lemma {:induction false} GcdIsGreatestCommonDivisor(a: nat, b: nat, d: nat)
    ensures Divides(d, Gcd(a, b)) <==> Divides(d, a) && Divides(d, b)
    decreases b
  {
    if b == 0 {
      if d > 0 {
        QuotientUnique(0, d, 0, 0);
      }
    } else {
      GcdIsGreatestCommonDivisor(b, a % b, d);
      assert a % b == a + -(a / b) * b;
      assert a == a % b + a / b * b;
      if Divides(d, a) && Divides(d, b) {
        DividesCombination(d, a, b, -(a / b));
      }
      if Divides(d, b) && Divides(d, a % b) {
        DividesCombination(d, a % b, b, a / b);
      }
    }
  }

  lemma DividesEachOther(x: nat, y: nat)
    requires Divides(x, y) && Divides(y, x)
    ensures x == y
  {
    if x < y && x != 0 {
      QuotientUnique(x, y, 0, x);
    } else if y < x && y != 0 {
      QuotientUnique(y, x, 0, y);
    }
  }

  lemma DividesNegation(d: nat, x: int)
    ensures Divides(d, -x) <==> Divides(d, x)
  {
    if d > 0 {
      if x % d == 0 {
        assert -x == -(x / d) * d + 0;
        QuotientUnique(-x, d, -(x / d), 0);
      }
      if -x % d == 0 {
        assert x == -((-x) / d) * d + 0;
        QuotientUnique(x, d, -((-x) / d), 0);
      }
    }
  }

  lemma DividesSelf(n: nat)
    ensures Divides(n, n)
  {
    if n > 0 {
      QuotientUnique(n, n, 1, 0);
    }
  }

  lemma DivisorsOfRemainder(x: int, m: nat, d: nat)
    requires m > 0 && Divides(d, m)
    ensures Divides(d, x % m) <==> Divides(d, Abs(x))
  {
    var q := x / m;
    assert x == x % m + q * m;
    if Divides(d, x % m) {
      DividesCombination(d, x % m, m, q);
    }
    DividesNegation(d, x);
    if Divides(d, x) {
      DividesCombination(d, x, m, -q);
      assert x + -q * m == x % m;
    }
  }

  /** Reducing the first argument modulo the second, whatever its sign, keeps the gcd. */
  lemma {:induction false} GcdOfRemainder(x: int, m: nat)
    requires m > 0
    ensures Gcd(m, x % m) == Gcd(Abs(x), m)
  {
    var y := x % m;
    SameDivisorsSameGcd(m, y, Abs(x), m) by {
      forall d: nat
        ensures Divides(d, m) && Divides(d, y) <==> Divides(d, Abs(x)) && Divides(d, m)
      {
        if Divides(d, m) {
          DivisorsOfRemainder(x, m, d);
        }
      }
    }
  }

  lemma {:induction false} SameDivisorsSameGcd(a: nat, b: nat, a': nat, b': nat)
    requires forall d: nat :: Divides(d, a) && Divides(d, b) <==> Divides(d, a') && Divides(d, b')
    ensures Gcd(a, b) == Gcd(a', b')
  {
    var g, h := Gcd(a, b), Gcd(a', b');
    DividesSelf(g);
    DividesSelf(h);
    GcdIsGreatestCommonDivisor(a, b, g);
    GcdIsGreatestCommonDivisor(a', b', g);
    GcdIsGreatestCommonDivisor(a, b, h);
    GcdIsGreatestCommonDivisor(a', b', h);
    DividesEachOther(g, h);
  }

  /** Bezout: the gcd is an integer combination of its arguments. */
  lemma {:induction false} Bezout(a: nat, b: nat) returns (s: int, t: int)
    ensures s * a + t * b == Gcd(a, b)
    decreases b
  {
    if b == 0 {
      s, t := 1, 0;
    } else {
      var s', t' := Bezout(b, a % b);
      assert s' * b + t' * (a % b) == t' * a + (s' - t' * (a / b)) * b by {
        assert a % b == a - a / b * b;
        assert t' * (a - a / b * b) == t' * a - t' * (a / b) * b;
      }
      s, t := t', s' - t' * (a / b);
    }
  }

  // ----- units -----

  /** x is a multiplicative inverse of v modulo m. */
  predicate IsInverse(x: int, v: int, m: int)
    requires m > 0
  {
    0 <= x < m && (x * v - 1) % m == 0
  }

  /** v has an inverse modulo m exactly when the two are coprime. */
  lemma InverseExistsIffCoprime(v: nat, m: nat)
    requires m > 0
    ensures (exists x :: IsInverse(x, v, m)) <==> Gcd(v, m) == 1
  {
    if Gcd(v, m) == 1 {
      var x := InverseOfUnit(v, m);
    }
    if x :| IsInverse(x, v, m) {
      InvertibleIsUnit(x, v, m);
    }
  }

  lemma InverseOfUnit(v: nat, m: nat) returns (x: int)
    requires m > 0 && Gcd(v, m) == 1
    ensures IsInverse(x, v, m)
  {
    var s, t := Bezout(v, m);
    x := s % m;
    ModOfProduct(s, v, m);
    assert s * v == 1 + -t * m;
    AddMultiple(1, -t, m);
    SameRemainder(x * v, 1, m);
  }

  lemma InvertibleIsUnit(x: int, v: nat, m: nat)
    requires m > 0 && IsInverse(x, v, m)
    ensures Gcd(v, m) == 1
  {
    var g := Gcd(v, m);
    DividesSelf(g);
    GcdIsGreatestCommonDivisor(v, m, g);
    UnitDivisor(g, x, v, m);
  }

  lemma UnitDivisor(g: nat, x: int, v: int, m: int)
    requires m > 0 && (x * v - 1) % m == 0 && Divides(g, v) && Divides(g, m)
    ensures g == 1
  {
    var k := (x * v - 1) / m;
    assert 1 == x * v + -k * m;
    DividesZero(g);
    DividesCombination(g, 0, v, x);
    DividesCombination(g, x * v, m, -k);
    DividesEachOther(g, 1);
  }

  lemma DividesZero(g: nat)
    ensures Divides(g, 0)
  {
    if g > 0 {
      QuotientUnique(0, g, 0, 0);
    }
  }

  lemma InverseIsUnique(x: int, y: int, v: int, m: int)
    requires m > 0 && IsInverse(x, v, m) && IsInverse(y, v, m)
    ensures x == y
  {
    // x * (v * y) is congruent to y, and it is y * (v * x), congruent to x
    UndoScaling(y, v, x, m);
    UndoScaling(x, v, y, m);
    assert x * (v * y) == y * (v * x);
    QuotientUnique(x, m, 0, x);
    QuotientUnique(y, m, 0, y);
  }

  /** Multiplying by a unit and then by its inverse gives the number back. */
  lemma UndoScaling(p: int, v: int, x: int, m: int)
    requires m > 0 && IsInverse(x, v, m)
    ensures (x * (v * p)) % m == p % m
  {
    var k := (x * v - 1) / m;
    assert x * v == 1 + k * m;
    assert x * (v * p) == p + (k * p) * m by {
      assert x * (v * p) == (x * v) * p == (1 + k * m) * p == p + k * m * p;
      assert k * m * p == (k * p) * m;
    }
    AddMultiple(p, k * p, m);
  }
}
