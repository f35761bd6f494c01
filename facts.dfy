/** Small facts about Euclidean `%` that the proofs use. */
module Mod {

  lemma {:induction false} MulAtLeast(d: int, m: int)
    requires d >= 1 && m > 0
    ensures d * m >= m
  {
    if d > 1 {
      MulAtLeast(d - 1, m);
      assert d * m == (d - 1) * m + m;
    }
  }

  /** Division with remainder has a unique remainder. */
  lemma ModUnique(x: int, q: int, m: int, r: int)
    requires m > 0 && 0 <= r < m && x == q * m + r
    ensures x % m == r
  {
    var q', r' := x / m, x % m;
    assert x == q' * m + r';
    assert (q - q') * m == r' - r;
    if q > q' {
      MulAtLeast(q - q', m);
    } else if q < q' {
      MulAtLeast(q' - q, m);
    }
  }

  /** Adding a multiple of `m` does not change the remainder. */
  lemma ModOfShift(x: int, q: int, m: int)
    requires m > 0
    ensures (x + q * m) % m == x % m
  {
    var r := x % m;
    assert x == (x / m) * m + r;
    assert x + q * m == (x / m + q) * m + r;
    ModUnique(x + q * m, x / m + q, m, r);
  }

  /** A remainder may stand for its number in a product and a sum. */
  lemma ModMulAdd(a: int, c: int, d: int, m: int)
    requires m > 0
    ensures ((a % m) * c + d) % m == (a * c + d) % m
  {
    var q, r := a / m, a % m;
    assert a == q * m + r;
    assert a * c == r * c + (q * c) * m;
    ModOfShift(r * c + d, q * c, m);
  }

  /** Doubling both the number and the modulus doubles the remainder. */
  lemma ModDouble(x: int, d: int)
    requires d > 0
    ensures (2 * x) % (2 * d) == 2 * (x % d)
  {
    var q, r := x / d, x % d;
    assert x == q * d + r;
    assert 2 * x == q * (2 * d) + 2 * r;
    ModUnique(2 * x, q, 2 * d, 2 * r);
  }

  /** An odd number is a multiple of no even modulus. */
  lemma OddNotMultiple(x: int, d: int)
    requires d > 0 && x % 2 == 1
    ensures x % (2 * d) != 0
  {
    if x % (2 * d) == 0 {
      var q := x / (2 * d);
      assert x == (q * d) * 2 + 0;
      ModUnique(x, q * d, 2, 0);
    }
  }

  /** With an odd multiplier and an odd increment, a * g + c has the opposite
      parity of g. */
  lemma AffineFlipsParity(a: int, c: int, g: int)
    requires a % 2 == 1 && c % 2 == 1
    ensures (a * g + c) % 2 == 1 - g % 2
  {
    var p, s, q, r := a / 2, c / 2, g / 2, g % 2;
    assert a * g == 2 * (p * g) + g by {
      assert a == 2 * p + 1;
    }
    assert a * g + c == (p * g + s + q + r) * 2 + (1 - r);
    ModUnique(a * g + c, p * g + s + q + r, 2, 1 - r);
  }

  /** The product of two odd numbers is odd. */
  lemma OddTimesOdd(a: int, b: int)
    requires a % 2 == 1 && b % 2 == 1
    ensures (a * b) % 2 == 1
  {
    var p, q := a / 2, b / 2;
    assert a == 2 * p + 1 && b == 2 * q + 1;
    assert a * b == (2 * p * q + p + q) * 2 + 1;
    ModUnique(a * b, 2 * p * q + p + q, 2, 1);
  }
}

/** Cardinalities of finite sets of integers. */
module Counting {

  /** The set {0, .., n - 1}. */
  ghost function Below(n: nat): (b: set<int>)
    ensures |b| == n
    ensures forall v :: v in b <==> 0 <= v < n
  {
    if n == 0 then {} else Below(n - 1) + {n - 1}
  }

  lemma EmptyOrElement(a: set<int>)
    ensures a == {} || exists v :: v in a
  {
    if forall v :: v !in a {
      assert a == {};
    }
  }

  /** A subset is no larger than its superset. */
  lemma {:induction false} SubsetSize(a: set<int>, b: set<int>)
    requires a <= b
    ensures |a| <= |b|
    decreases |b|
  {
    EmptyOrElement(a);
    if a != {} {
      var v :| v in a;
      SubsetSize(a - {v}, b - {v});
    }
  }

  /** Adding a new element grows a set by one. */
  lemma AddFresh(a: set<int>, v: int)
    requires v !in a
    ensures |a + {v}| == |a| + 1
  {
  }

  /** A set of `n` integers drawn from {0, .., n - 1} holds all of them. */
  lemma FullSubset(n: nat, a: set<int>)
    requires |a| == n
    requires forall v :: v in a ==> 0 <= v < n
    ensures forall y :: 0 <= y < n ==> y in a
  {
    forall y | 0 <= y < n
      ensures y in a
    {
      if y !in a {
        var rest := Below(n) - {y};
        assert a <= rest;
        SubsetSize(a, rest);
      }
    }
  }
}
