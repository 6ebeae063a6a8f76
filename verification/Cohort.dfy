/** The rollout shuffle: an affine permutation of the 1000 numeric cohorts per bundle. */
module Cohort {
  import opened Modular
  import opened Machine
  import opened Wrappers

  const NUMERIC_COHORT_SIZE: i32 := 1000
  const N: int := 1000

  /** Bound under which `((value % modulus) + modulus) % modulus` cannot overflow. */
  const MAX_MODULUS: i32 := 0x4000_0000

  function PositiveMod(value: i32, modulus: i32): (r: i32)
    requires 0 < modulus <= MAX_MODULUS
    ensures r as int == value as int % modulus as int
  {
    var v, m := value as int, modulus as int;
    assert Rem(value, modulus) as int + m == v % m + (if Rem(value, modulus) as int == v % m then m else 0) by {
      if v < 0 {
        var q, r := (-v) / m, (-v) % m;
        assert -v == q * m + r;
        if r == 0 {
          assert v == -q * m + 0;
          QuotientUnique(v, m, -q, 0);
        } else {
          assert v == (-q - 1) * m + (m - r);
          QuotientUnique(v, m, -q - 1, m - r);
        }
      }
    }
    AddMultiple(v % m, 1, m);
    QuotientUnique(v % m, m, 0, v % m);
    Rem(Rem(value, modulus) + modulus, modulus)
  }

  // ----- string hash -----

  /** The string read as a numeral in base 31. */
  ghost function Polynomial(s: string): int {
    if s == "" then 0 else Polynomial(s[..|s| - 1]) * 31 + s[|s| - 1] as int
  }

  ghost function Hash(s: string): i32 {
    Wrap(Polynomial(s))
  }

  method HashString(value: string) returns (hash: i32)
    ensures hash == Hash(value)
  {
    hash := 0;
    for i := 0 to |value|
      invariant hash == Hash(value[..i])
    {
      var p := Polynomial(value[..i]);
      var charCode := value[i] as int as i32;
      HashStep(hash, charCode);
      WrapUnderStep(p, 31, charCode as int);
      assert value[..i + 1][..i] == value[..i];
      hash := WrappingAdd(WrappingSub(WrappingShl5(hash), hash), charCode);
    }
    assert value[..|value|] == value;
  }

  lemma HashStep(h: i32, c: i32)
    ensures WrappingAdd(WrappingSub(WrappingShl5(h), h), c) == Wrap(h as int * 31 + c as int)
  {
    WrapUnderStep(h as int * 32, 1, -(h as int));
    WrapUnderStep(h as int * 32 - h as int, 1, c as int);
  }

  function Power31(n: nat): int {
    if n == 0 then 1 else 31 * Power31(n - 1)
  }

  lemma {:induction false} PolynomialOfConcat(a: string, b: string)
    ensures Polynomial(a + b) == Polynomial(a) * Power31(|b|) + Polynomial(b)
  {
    if b == "" {
      assert a + b == a;
    } else {
      var b' := b[..|b| - 1];
      assert (a + b)[..|a + b| - 1] == a + b';
      PolynomialOfConcat(a, b');
      var p := Polynomial(a);
      assert (p * Power31(|b'|)) * 31 == p * Power31(|b|);
    }
  }

  /** The hash of a concatenation is determined by the two hashes and the second length. */
  lemma {:induction false} HashOfConcat(a: string, b: string)
    ensures Hash(a + b) == Wrap(Hash(a) as int * Power31(|b|) + Hash(b) as int)
  {
    PolynomialOfConcat(a, b);
    WrapOfBoth(Polynomial(a), Power31(|b|), Polynomial(b), Polynomial(a + b));
  }

  lemma WrapOfBoth(x: int, k: int, y: int, p: int)
    requires p == x * k + y
    ensures Wrap(p) == Wrap(Wrap(x) as int * k + Wrap(y) as int)
  {
    var z := Wrap(x) as int * k;
    WrapUnderStep(x, k, y);
    WrapUnderStep(y, 1, z);
    assert Wrap(y) as int * 1 + z == z + Wrap(y) as int && y * 1 + z == z + y;
  }

  // ----- Euclid -----

  method GcdOf(a: i32, b: i32) returns (x: i32)
    requires a > -0x8000_0000 && b > -0x8000_0000
    ensures x as int == Gcd(Abs(a as int), Abs(b as int))
  {
    x := if a < 0 then -a else a;
    var y := if b < 0 then -b else b;
    while y != 0
      invariant x >= 0 && y >= 0
      invariant Gcd(x as int, y as int) == Gcd(Abs(a as int), Abs(b as int))
      decreases y
    {
      var next := Rem(x, y);
      x := y;
      y := next;
    }
  }

  /** Everything the extended Euclid loop keeps: the two rows stay combinations of value and modulus,
      their gcd is kept, and the coefficients alternate in sign inside a box of size modulus. */
  ghost predicate EuclidInvariant(t: int, t': int, r: nat, r': nat, v: nat, m: nat) {
    && r' < r <= m
    && Gcd(r, r') == Gcd(m, v)
    && (t * v - r) % m == 0
    && (t' * v - r') % m == 0
    && Alternate(t, t')
    && Abs(t) * r' + Abs(t') * r == m
    && Abs(t) <= m
  }

  predicate Alternate(t: int, t': int) {
    t <= 0 <= t' || t' <= 0 <= t
  }

  lemma AlternateStep(t: int, t': int, q: nat)
    requires Alternate(t, t')
    ensures Abs(q * t') == q * Abs(t')
    ensures Abs(t - q * t') == Abs(t) + q * Abs(t')
    ensures Alternate(t', t - q * t')
  {
    assert t' >= 0 ==> q * t' >= 0;
    assert t' <= 0 ==> q * t' <= 0;
    assert q * -t' == -(q * t');
  }

  lemma BoxStep(a: nat, a': nat, q: nat, r: nat, r': nat, m: nat)
    requires 0 < r' && q * r' <= r && a * r' + a' * r == m
    ensures a' * (r - q * r') + (a + q * a') * r' == m
    ensures q * a' <= a + q * a' <= m
    ensures r > 0 ==> a' <= m
  {
    var s := r - q * r';
    assert a' * (s + q * r') == a' * s + a' * (q * r');
    assert a' * (q * r') == (q * a') * r';
    assert (a + q * a') * r' == a * r' + (q * a') * r';
    NotBelowFactor(a + q * a', r');
    assert a' * s >= 0 && a * r' >= 0;
    if r > 0 {
      NotBelowFactor(a', r);
    }
  }

  lemma NotBelowFactor(x: nat, y: nat)
    requires y > 0
    ensures x <= x * y
  {
  }

  lemma RemainderStep(r: nat, r': nat)
    requires r' != 0
    ensures r - r / r' * r' == r % r' && 0 <= r % r' < r' && Gcd(r', r % r') == Gcd(r, r')
  {
  }

  lemma CoefficientStep(t: int, t': int, q: nat, r: nat, r': nat, m: nat)
    requires Alternate(t, t') && 0 < r' < r && q * r' <= r && Abs(t) * r' + Abs(t') * r == m
    ensures Alternate(t', t - q * t') && Abs(t') * (r - q * r') + Abs(t - q * t') * r' == m
    ensures Abs(q * t') <= m && Abs(t - q * t') <= m && Abs(t') <= m
  {
    AlternateStep(t, t', q);
    BoxStep(Abs(t), Abs(t'), q, r, r', m);
  }

  lemma EuclidStep(t: int, t': int, r: nat, r': nat, v: nat, m: nat)
    requires r' != 0 && EuclidInvariant(t, t', r, r', v, m)
    ensures Abs(r / r' * t') <= m && Abs(t - r / r' * t') <= m
    ensures 0 <= r - r / r' * r' && EuclidInvariant(t', t - r / r' * t', r', r - r / r' * r', v, m)
  {
    var q := r / r';
    RemainderStep(r, r');
    CoefficientStep(t, t', q, r, r', m);
    CongruenceStep(t, t', r, r', q, v, m);
  }

  lemma CongruenceStep(t: int, t': int, r: int, r': int, q: int, v: int, m: int)
    requires m > 0 && (t * v - r) % m == 0 && (t' * v - r') % m == 0
    ensures ((t - q * t') * v - (r - q * r')) % m == 0
  {
    assert (t - q * t') * v - (r - q * r') == (t * v - r) + -q * (t' * v - r');
    DividesCombination(m, t * v - r, t' * v - r', -q);
  }

  /** No step overflows: every operator below is the checked 32-bit one. */
  method ModularInverse(value: i32, modulus: i32) returns (res: Result<i32, string>)
    requires 0 < modulus <= MAX_MODULUS
    ensures res.Ok? <==> Gcd(Abs(value as int), modulus as int) == 1
    ensures res.Ok? ==> 0 <= res.value < modulus
    ensures res.Ok? ==> (res.value as int * value as int - 1) % modulus as int == 0
  {
    var t, newT := 0 as i32, 1 as i32;
    var r, newR := modulus, PositiveMod(value, modulus);
    ghost var m, v := modulus as int, newR as int;
    GcdOfRemainder(value as int, m);
    EuclidStart(v, m);
    while newR != 0
      invariant r >= 0 && newR >= 0
      invariant EuclidInvariant(t as int, newT as int, r as int, newR as int, v, m)
      decreases newR
    {
      var quotient := r / newR;
      ghost var q := r as int / newR as int;
      assert quotient as int == q;
      EuclidStep(t as int, newT as int, r as int, newR as int, v, m);
      ghost var t', r' := t as int - q * newT as int, r as int - q * newR as int;
      assert 0 <= r' && EuclidInvariant(newT as int, t', newR as int, r', v, m);
      t, newT := newT, t - quotient * newT;
      r, newR := newR, r - quotient * newR;
      assert newT as int == t' && newR as int == r';
    }
    if r > 1 {
      return Err("No modular inverse");
    }
    var x := PositiveMod(t, modulus);
    EuclidEnd(t as int, v, m);
    InverseOfRemainder(x as int, value as int, m);
    return Ok(x);
  }

  lemma EuclidStart(v: int, m: int)
    requires 0 <= v < m
    ensures EuclidInvariant(0, 1, m, v, v, m)
  {
    AddMultiple(0, -1, m);
    assert (0 * v - m) == 0 + -1 * m;
    QuotientUnique(1 * v - v, m, 0, 0);
  }

  lemma EuclidEnd(t: int, v: int, m: int)
    requires m > 0 && (t * v - 1) % m == 0
    ensures (t % m * v - 1) % m == 0
  {
    ModOfProduct(t, v, m);
    SameRemainder(t * v, 1, m);
    SameRemainder(t % m * v, 1, m);
  }

  lemma InverseOfRemainder(x: int, value: int, m: int)
    requires m > 0 && (x * (value % m) - 1) % m == 0
    ensures (x * value - 1) % m == 0
  {
    ModOfProduct(value, x, m);
    assert value % m * x == x * (value % m) && value * x == x * value;
    SameRemainder(x * (value % m), 1, m);
    SameRemainder(x * value, 1, m);
  }
}
