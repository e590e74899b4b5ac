/** Congruence of integers, and greatest common divisors. */
module Congruence {
  import opened Bits

  ghost predicate Cong(a: int, b: int, p: nat) {
    exists k: int :: Differ(a, b, k, p)
  }

  ghost predicate Differ(a: int, b: int, k: int, p: nat) {
    a == b + k * p
  }

  lemma CongFrom(a: int, b: int, k: int, p: nat)
    requires a == b + k * p
    ensures Cong(a, b, p)
  {
    assert Differ(a, b, k, p);
  }

  lemma CongSym(a: int, b: int, p: nat)
    requires Cong(a, b, p)
    ensures Cong(b, a, p)
  {
    var k :| Differ(a, b, k, p);
    assert (-k) * p == -(k * p);
    CongFrom(b, a, -k, p);
  }

  lemma CongTrans(a: int, b: int, c: int, p: nat)
    requires Cong(a, b, p) && Cong(b, c, p)
    ensures Cong(a, c, p)
  {
    var k :| Differ(a, b, k, p);
    var l :| Differ(b, c, l, p);
    Distribute(k, l, p);
    CongFrom(a, c, k + l, p);
  }

  lemma CongAdd(a: int, b: int, c: int, d: int, p: nat)
    requires Cong(a, b, p) && Cong(c, d, p)
    ensures Cong(a + c, b + d, p)
  {
    var k :| Differ(a, b, k, p);
    var l :| Differ(c, d, l, p);
    Distribute(k, l, p);
    CongFrom(a + c, b + d, k + l, p);
  }

  lemma CongScale(a: int, b: int, c: int, p: nat)
    requires Cong(a, b, p)
    ensures Cong(a * c, b * c, p)
  {
    var k :| Differ(a, b, k, p);
    Distribute(b, k * p, c);
    assert k * p * c == k * c * p by {
      MulAssoc(k, p, c);
      MulAssoc(k, c, p);
    }
    CongFrom(a * c, b * c, k * c, p);
  }

  lemma CongMul(a: int, b: int, c: int, d: int, p: nat)
    requires Cong(a, b, p) && Cong(c, d, p)
    ensures Cong(a * c, b * d, p)
  {
    CongScale(a, b, c, p);
    CongScale(c, d, b, p);
    assert c * b == b * c && d * b == b * d;
    CongTrans(a * c, b * c, b * d, p);
  }

  lemma CongMod(a: nat, p: nat)
    requires p > 0
    ensures Cong(a % p, a, p)
  {
    DivModFacts(a, p);
    var k := a / p;
    assert (-k) * p == -(k * p);
    CongFrom(a % p, a, -k, p);
  }

  /** A congruence modulo a multiple. */
  lemma CongWeaken(a: int, b: int, p: nat, m: nat)
    requires Cong(a, b, m * p)
    ensures Cong(a, b, p)
  {
    var k :| Differ(a, b, k, m * p);
    MulAssoc(k, m, p);
    CongFrom(a, b, k * m, p);
  }

  /** Congruent to 1 means remainder 1. */
  lemma CongOne(a: nat, p: nat)
    requires p > 1 && Cong(1, a, p)
    ensures a % p == 1
  {
    CongSym(1, a, p);
    var k :| Differ(a, 1, k, p);
    if k < 0 {
      NegativeProduct(k, p);
    }
    DivModUnique(a, p, k, 1);
  }

  lemma NegativeProduct(k: int, p: nat)
    requires k < 0
    ensures k * p + p <= 0
  {
    MulLe(1, -k, p);
    assert (-k) * p == -(k * p);
  }

  // ---------------------------------------------------------------------------
  // Greatest common divisors
  // ---------------------------------------------------------------------------

  /** Euclid's algorithm. */
  ghost function Gcd(a: nat, b: nat): nat
    decreases b
  {
    if b == 0 then a else Gcd(b, a % b)
  }

  ghost predicate Divides(d: nat, a: nat) {
    exists k: nat :: Times(a, k, d)
  }

  ghost predicate Times(a: nat, k: nat, d: nat) {
    a == k * d
  }

  lemma {:induction false} GcdDivides(a: nat, b: nat)
    ensures Divides(Gcd(a, b), a) && Divides(Gcd(a, b), b)
    decreases b
  {
    var g := Gcd(a, b);
    if b == 0 {
      assert Times(a, 1, g) && Times(b, 0, g);
    } else {
      GcdDivides(b, a % b);
      var k: nat :| Times(b, k, g);
      var l: nat :| Times(a % b, l, g);
      DivModFacts(a, b);
      var q := a / b;
      MulAssoc(q, k, g);
      Distribute(q * k, l, g);
      assert Times(a, q * k + l, g);
    }
  }

  /** The only odd divisor of a power of two is 1. */
  lemma {:induction false} OddDivisor(d: nat, n: nat)
    requires Divides(d, Pow2(n)) && d % 2 == 1
    ensures d == 1
  {
    var k: nat :| Times(Pow2(n), k, d);
    if n == 0 {
      if d > 1 {
        ProductOne(k, d);
      }
    } else {
      OddTimes(k, d);
      Half(k, d, Pow2(n - 1));
      assert Times(Pow2(n - 1), k / 2, d);
      OddDivisor(d, n - 1);
    }
  }

  lemma ProductOne(k: nat, d: nat)
    requires k * d == 1
    ensures d == 1
  {
    if k > 1 && d > 1 {
      MulLe(2, k, d);
    }
  }

  lemma OddTimes(k: nat, d: nat)
    requires d % 2 == 1
    ensures (k * d) % 2 == k % 2
  {
    var m := d / 2;
    assert k * d == 2 * (k * m) + k;
  }

  lemma Half(k: nat, d: nat, p: nat)
    requires k % 2 == 0 && k * d == 2 * p
    ensures (k / 2) * d == p
  {
    var m := k / 2;
    MulAssoc(2, m, d);
  }

  lemma OddDividend(d: nat, a: nat)
    requires Divides(d, a) && a % 2 == 1
    ensures d % 2 == 1
  {
    var k: nat :| Times(a, k, d);
    if d % 2 == 0 {
      EvenTimes(k, d);
    }
  }

  lemma EvenTimes(k: nat, d: nat)
    requires d % 2 == 0
    ensures (k * d) % 2 == 0
  {
    var m := d / 2;
    assert k * d == 2 * (k * m);
  }

  lemma GcdPow2Odd(n: nat, b: nat)
    requires b % 2 == 1
    ensures Gcd(Pow2(n), b) == 1
  {
    hide Pow2, Gcd;
    GcdDivides(Pow2(n), b);
    OddDividend(Gcd(Pow2(n), b), b);
    OddDivisor(Gcd(Pow2(n), b), n);
  }
}
