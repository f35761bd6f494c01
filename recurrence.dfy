/**
 * The per-lane recurrence x' = x * FIVE + ONE (mod 2^k) and what follows from
 * it: its closed form, the exact period 2^k of every seed (the Hull–Dobell
 * full-period criterion for multiplier 5, increment 1 and a power-of-two
 * modulus), that the orbit of a seed visits every lane value, that one step is
 * a bijection, and that the signed element types step in the same way.
 */
module Recurrence {

  import opened PacRandNum
  import Mod
  import Counting

  /** One step of a lane: the wrapping product with FIVE, then the wrapping sum with ONE. */
  function Step(w: Width, x: int): (y: int)
    requires InRange(w, x)
    ensures InRange(w, y)
  {
    WrappingAdd(w, WrappingMul(w, x, FIVE), ONE)
  }

  /** The two wrapping operations of a step compose to one affine map modulo 2^k. */
  lemma StepIsAffine(w: Width, x: int)
    requires InRange(w, x)
    ensures Step(w, x) == (x * FIVE + ONE) % Modulus(w)
  {
    var m, p := Modulus(w), x * FIVE;
    assert p + ONE == (p % m + ONE) + (p / m) * m;
    Mod.ModOfShift(p % m + ONE, p / m, m);
  }

  /** `n` steps of a lane. */
  function StepN(w: Width, x: int, n: nat): (y: int)
    requires InRange(w, x)
    ensures InRange(w, y)
    decreases n
  {
    if n == 0 then x else Step(w, StepN(w, x, n - 1))
  }

  /** Running `a` steps and then `b` more is running `a + b` steps. */
  lemma {:induction false} StepNAdd(w: Width, x: int, a: nat, b: nat)
    requires InRange(w, x)
    ensures StepN(w, StepN(w, x, a), b) == StepN(w, x, a + b)
  {
    if b > 0 {
      StepNAdd(w, x, a, b - 1);
    }
  }

  // ----- The recurrence over unbounded integers -----

  /** `n` applications of x * FIVE + ONE without any wrapping. */
  function Iterate(x: int, n: nat): (y: int)
    ensures x >= 0 ==> y >= x
    decreases n
  {
    if n == 0 then x else FIVE * Iterate(x, n - 1) + ONE
  }

  /** The offset 1 + 5 + ... + 5^(n-1) that `n` steps add to the zero seed. */
  function Offset(n: nat): (g: nat)
  {
    Iterate(0, n)
  }

  lemma {:induction false} IterateAdd(x: int, a: nat, b: nat)
    ensures Iterate(Iterate(x, a), b) == Iterate(x, a + b)
  {
    if b > 0 {
      IterateAdd(x, a, b - 1);
    }
  }

  /** Closed form: n steps move x by Offset(n) * (4x + 1), because 5^n = 4 * Offset(n) + 1. */
  lemma {:induction false} IterateClosedForm(x: int, n: nat)
    ensures Iterate(x, n) == x + (4 * x + 1) * Offset(n)
  {
    if n > 0 {
      IterateClosedForm(x, n - 1);
      var g := Offset(n - 1);
      assert Offset(n) == 5 * g + 1;
      assert (4 * x + 1) * (5 * g + 1) == 5 * ((4 * x + 1) * g) + 4 * x + 1;
    }
  }

  /** The wrapping steps agree with the unbounded ones modulo 2^k. */
  lemma {:induction false} StepNIsIterateMod(w: Width, x: int, n: nat)
    requires InRange(w, x)
    ensures StepN(w, x, n) == Iterate(x, n) % Modulus(w)
  {
    var m := Modulus(w);
    if n == 0 {
      Mod.ModUnique(x, 0, m, x);
    } else {
      StepNIsIterateMod(w, x, n - 1);
      var a := Iterate(x, n - 1);
      assert StepN(w, x, n) == (a % m * FIVE + ONE) % m by {
        StepIsAffine(w, a % m);
      }
      Mod.ModMulAdd(a, FIVE, ONE, m);
    }
  }

  lemma {:induction false} OffsetParity(n: nat)
    ensures Offset(n) % 2 == n % 2
  {
    if n > 0 {
      OffsetParity(n - 1);
      HullDobellConditions();
      assert Offset(n) == FIVE * Offset(n - 1) + ONE;
      Mod.AffineFlipsParity(FIVE, ONE, Offset(n - 1));
    }
  }

  /** Offset(2n) = 2 * Offset(n) * (2 * Offset(n) + 1): doubling the step count
      adds exactly one factor of two. */
  lemma OffsetDouble(n: nat)
    ensures Offset(2 * n) == 2 * ((2 * Offset(n) + 1) * Offset(n))
  {
    var g := Offset(n);
    IterateAdd(0, n, n);
    IterateClosedForm(g, n);
    assert Offset(2 * n) == g + (4 * g + 1) * g;
  }

  /** An odd factor does not change divisibility by a power of two. */
  lemma {:induction false} OddFactor(k: nat, t: int, g: int)
    requires t % 2 == 1
    ensures (t * g) % Pow2(k) == 0 <==> g % Pow2(k) == 0
  {
    if k == 0 {
      Mod.ModUnique(t * g, t * g, 1, 0);
      Mod.ModUnique(g, g, 1, 0);
    } else {
      var p := Pow2(k - 1);
      if g % 2 == 1 {
        Mod.OddTimesOdd(t, g);
        Mod.OddNotMultiple(t * g, p);
        Mod.OddNotMultiple(g, p);
      } else {
        var h := g / 2;
        assert g == 2 * h;
        assert t * g == 2 * (t * h);
        Mod.ModDouble(t * h, p);
        Mod.ModDouble(h, p);
        OddFactor(k - 1, t, h);
      }
    }
  }

  /** 2^k divides Offset(n) exactly when 2^k divides n. */
  lemma {:induction false} OffsetDivisible(k: nat, n: nat)
    ensures Offset(n) % Pow2(k) == 0 <==> n % Pow2(k) == 0
  {
    if k == 0 {
      Mod.ModUnique(Offset(n), Offset(n), 1, 0);
      Mod.ModUnique(n, n, 1, 0);
    } else {
      var p := Pow2(k - 1);
      OffsetParity(n);
      if n % 2 == 1 {
        Mod.OddNotMultiple(Offset(n), p);
        Mod.OddNotMultiple(n, p);
      } else {
        OffsetDivisible(k - 1, n / 2);
        OffsetDivisibleEven(k - 1, n / 2);
      }
    }
  }

  /** The step of OffsetDivisible for an even count 2h. */
  lemma OffsetDivisibleEven(k: nat, h: nat)
    requires Offset(h) % Pow2(k) == 0 <==> h % Pow2(k) == 0
    ensures Offset(2 * h) % Pow2(k + 1) == 0 <==> (2 * h) % Pow2(k + 1) == 0
  {
    OffsetDoubleDivisible(k, h);
    Mod.ModDouble(h, Pow2(k));
  }

  /** Doubling the step count doubles the power of two in the offset. */
  lemma OffsetDoubleDivisible(k: nat, h: nat)
    ensures Offset(2 * h) % (2 * Pow2(k)) == 0 <==> Offset(h) % Pow2(k) == 0
  {
    var p, g := Pow2(k), Offset(h);
    var t := (2 * g + 1) * g;
    assert Offset(2 * h) == 2 * t by {
      OffsetDouble(h);
    }
    Mod.ModDouble(t, p);
    OddFactor(k, 2 * g + 1, g);
  }

  /** Moving a residue x by y returns to x exactly when y is a multiple of m. */
  lemma ShiftReturns(x: int, y: int, m: int)
    requires 0 <= x < m
    ensures (x + y) % m == x <==> y % m == 0
  {
    var r := y % m;
    assert x + y == (x + r) + (y / m) * m;
    Mod.ModOfShift(x + r, y / m, m);
    if r == 0 {
      Mod.ModUnique(x, 0, m, x);
    } else if x + r < m {
      Mod.ModUnique(x + r, 0, m, x + r);
    } else {
      Mod.ModUnique(x + r, 1, m, x + r - m);
    }
  }

  /** Over unbounded integers: n steps from a residue x of 2^k come back to x
      modulo 2^k exactly when 2^k divides n. */
  lemma IterateReturns(k: nat, x: int, n: nat)
    requires 0 <= x < Pow2(k)
    ensures Iterate(x, n) % Pow2(k) == x <==> n % Pow2(k) == 0
  {
    ReturnsIffMultiple(k, x, n);
    assert ((4 * x + 1) * Offset(n)) % Pow2(k) == 0 <==> Offset(n) % Pow2(k) == 0 by {
      Mod.ModUnique(4 * x + 1, 2 * x, 2, 1);
      OddFactor(k, 4 * x + 1, Offset(n));
    }
    OffsetDivisible(k, n);
  }

  lemma ReturnsIffMultiple(k: nat, x: int, n: nat)
    requires 0 <= x < Pow2(k)
    ensures Iterate(x, n) % Pow2(k) == x <==> ((4 * x + 1) * Offset(n)) % Pow2(k) == 0
  {
    IterateClosedForm(x, n);
    ShiftReturns(x, (4 * x + 1) * Offset(n), Pow2(k));
  }

  /** Exact period: from every seed, n steps return to the seed if and only if
      2^k divides n. */
  lemma Period(w: Width, x: int, n: nat)
    requires InRange(w, x)
    ensures StepN(w, x, n) == x <==> n % Modulus(w) == 0
  {
    StepNIsIterateMod(w, x, n);
    ModulusIsPow2(w);
    IterateReturns(Bits(w), x, n);
  }

  /** 2^k steps return every seed to itself, and no positive smaller count does. */
  lemma FullPeriod(w: Width, x: int)
    requires InRange(w, x)
    ensures StepN(w, x, Modulus(w)) == x
    ensures forall n :: 0 < n < Modulus(w) ==> StepN(w, x, n) != x
  {
    var m := Modulus(w);
    Period(w, x, m);
    Mod.ModUnique(m, 1, m, 0);
    forall n | 0 < n < m
      ensures StepN(w, x, n) != x
    {
      Period(w, x, n);
      Mod.ModUnique(n, 0, m, n);
    }
  }

  /** The 8-bit instance: 256 steps are the period of every seed. */
  lemma FullPeriod8(x: int)
    requires 0 <= x < 256
    ensures StepN(W8, x, 256) == x
    ensures forall n :: 0 < n < 256 ==> StepN(W8, x, n) != x
  {
    FullPeriod(W8, x);
  }

  // ----- One step is a bijection -----

  /** The lane value that steps to `y`: 2^k - 1 steps undo one. */
  ghost function Predecessor(w: Width, y: int): (x: int)
    requires InRange(w, y)
    ensures InRange(w, x)
  {
    StepN(w, y, Modulus(w) - 1)
  }

  lemma StepPredecessor(w: Width, x: int)
    requires InRange(w, x)
    ensures Step(w, Predecessor(w, x)) == x
    ensures Predecessor(w, Step(w, x)) == x
  {
    var m := Modulus(w);
    FullPeriod(w, x);
    assert Step(w, Predecessor(w, x)) == StepN(w, x, m);
    StepNAdd(w, x, 1, m - 1);
  }

  /** Distinct lane values have distinct successors. */
  lemma StepInjective(w: Width, x: int, y: int)
    requires InRange(w, x) && InRange(w, y)
    ensures Step(w, x) == Step(w, y) <==> x == y
  {
    StepPredecessor(w, x);
    StepPredecessor(w, y);
  }

  /** Every lane value is the successor of some lane value. */
  lemma StepSurjective(w: Width, y: int)
    requires InRange(w, y)
    ensures exists x :: InRange(w, x) && Step(w, x) == y
  {
    StepPredecessor(w, y);
    var x := Predecessor(w, y);
    assert InRange(w, x) && Step(w, x) == y;
  }

  // ----- The orbit of a seed covers every lane value -----

  /** The values a lane takes in its first `n` steps from `x`. */
  ghost function Orbit(w: Width, x: int, n: nat): (o: set<int>)
    requires InRange(w, x)
  {
    set i | 0 <= i < n :: StepN(w, x, i)
  }

  /** The first 2^k values of an orbit are pairwise distinct. */
  lemma OrbitDistinct(w: Width, x: int, i: nat, j: nat)
    requires InRange(w, x) && i < j < Modulus(w)
    ensures StepN(w, x, i) != StepN(w, x, j)
  {
    var m := Modulus(w);
    StepNAdd(w, x, i, j - i);
    Period(w, StepN(w, x, i), j - i);
    Mod.ModUnique(j - i, 0, m, j - i);
  }

  lemma OrbitExtend(w: Width, x: int, n: nat)
    requires InRange(w, x)
    ensures Orbit(w, x, n + 1) == Orbit(w, x, n) + {StepN(w, x, n)}
  {
    var a, b := Orbit(w, x, n + 1), Orbit(w, x, n) + {StepN(w, x, n)};
    forall v | v in a
      ensures v in b
    {
      var i :| 0 <= i < n + 1 && StepN(w, x, i) == v;
    }
    forall v | v in b
      ensures v in a
    {
      if v != StepN(w, x, n) {
        var i :| 0 <= i < n && StepN(w, x, i) == v;
      }
    }
  }

  /** Before 2^k steps, a lane never comes back to a value it has taken. */
  lemma OrbitFresh(w: Width, x: int, n: nat)
    requires InRange(w, x) && n < Modulus(w)
    ensures StepN(w, x, n) !in Orbit(w, x, n)
  {
    if StepN(w, x, n) in Orbit(w, x, n) {
      var i :| 0 <= i < n && StepN(w, x, i) == StepN(w, x, n);
      OrbitDistinct(w, x, i, n);
    }
  }

  lemma {:induction false} OrbitSize(w: Width, x: int, n: nat)
    requires InRange(w, x) && n <= Modulus(w)
    ensures |Orbit(w, x, n)| == n
  {
    if n > 0 {
      OrbitSize(w, x, n - 1);
      OrbitExtend(w, x, n - 1);
      OrbitFresh(w, x, n - 1);
      Counting.AddFresh(Orbit(w, x, n - 1), StepN(w, x, n - 1));
    }
  }

  /** Full period in the Hull–Dobell sense: in its first 2^k steps a lane
      visits every one of the 2^k lane values, each once. */
  lemma OrbitCoversAll(w: Width, x: int, y: int)
    requires InRange(w, x) && InRange(w, y)
    ensures exists n :: 0 <= n < Modulus(w) && StepN(w, x, n) == y
  {
    var m := Modulus(w);
    var o := Orbit(w, x, m);
    OrbitSize(w, x, m);
    OrbitInRange(w, x, m);
    Counting.FullSubset(m, o);
    assert y in o;
  }

  lemma OrbitInRange(w: Width, x: int, n: nat)
    requires InRange(w, x)
    ensures forall v :: v in Orbit(w, x, n) ==> InRange(w, v)
  {
  }

  // ----- Signed element types -----

  /** Wrapping multiplication of a signed element type. */
  function SignedWrappingMul(w: Width, a: int, b: int): (z: int)
    ensures InSignedRange(w, z)
  {
    ToSigned(w, WrappingMul(w, a, b))
  }

  /** Wrapping addition of a signed element type. */
  function SignedWrappingAdd(w: Width, a: int, b: int): (z: int)
    ensures InSignedRange(w, z)
  {
    ToSigned(w, WrappingAdd(w, a, b))
  }

  /** One step of a signed lane, in its own wrapping arithmetic. */
  function SignedStep(w: Width, s: int): (z: int)
    ensures InSignedRange(w, z)
  {
    SignedWrappingAdd(w, SignedWrappingMul(w, s, FIVE), ONE)
  }

  /** A signed lane steps to the signed reading of the unsigned step of its
      bit pattern, so modelling every lane as a residue loses nothing. */
  lemma SignedStepAgrees(w: Width, x: int)
    requires InRange(w, x)
    ensures SignedStep(w, ToSigned(w, x)) == ToSigned(w, Step(w, x))
  {
    var m: int, s := Modulus(w), ToSigned(w, x);
    var p := WrappingMul(w, x, FIVE);
    assert WrappingMul(w, s, FIVE) == p by {
      if s != x {
        Mod.ModOfShift(x * FIVE, -FIVE, m);
        assert x * FIVE + -FIVE * m == s * FIVE;
      }
    }
    var ps := ToSigned(w, p);
    assert WrappingAdd(w, ps, ONE) == WrappingAdd(w, p, ONE) by {
      if ps != p {
        Mod.ModOfShift(p + ONE, -1, m);
        assert p + ONE + -1 * m == ps + ONE;
      }
    }
  }
}
