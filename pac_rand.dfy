/**
 * The lane-parallel generator `PacRand`: one lane vector advanced in lockstep
 * by the recurrence of module Recurrence, lane by lane.
 *
 * `Advance` is the vector operation `seed * FIVE + ONE` on whole vectors
 * (lane-wise wrapping multiplication by the broadcast FIVE, then lane-wise
 * wrapping addition of the broadcast ONE); `AdvanceN` is `n` updates in a row
 * and specifies repeated calls of `PacRand.Update` (see `PacRand.UpdateN`).
 */
module Generator {

  import opened PacRandNum
  import opened Recurrence

  /** One update of a whole lane vector: lane-wise wrapping multiplication by
      the broadcast FIVE, then lane-wise wrapping addition of the broadcast ONE. */
  function Advance(w: Width, v: seq<int>): (r: seq<int>)
    requires IsLaneVector(w, |v|, v)
    ensures IsLaneVector(w, |v|, r)
    ensures forall i :: 0 <= i < |v| ==> r[i] == Step(w, v[i])
  {
    LaneAdd(w, LaneMul(w, v, Broadcast(|v|, FIVE)), Broadcast(|v|, ONE))
  }

  /** Every lane of an update is x * 5 + 1 modulo 2^k. */
  lemma AdvanceIsAffine(w: Width, v: seq<int>)
    requires IsLaneVector(w, |v|, v)
    ensures |Advance(w, v)| == |v|
    ensures forall i :: 0 <= i < |v| ==> Advance(w, v)[i] == (v[i] * FIVE + ONE) % Modulus(w)
  {
    forall i | 0 <= i < |v|
      ensures Advance(w, v)[i] == (v[i] * FIVE + ONE) % Modulus(w)
    {
      StepIsAffine(w, v[i]);
    }
  }

  /** `n` updates of a whole lane vector. */
  function AdvanceN(w: Width, v: seq<int>, n: nat): (r: seq<int>)
    requires IsLaneVector(w, |v|, v)
    ensures IsLaneVector(w, |v|, r)
    ensures forall i :: 0 <= i < |v| ==> r[i] == StepN(w, v[i], n)
    decreases n
  {
    if n == 0 then v else Advance(w, AdvanceN(w, v, n - 1))
  }

  /** Updates compose: `a` updates followed by `b` more are `a + b` updates. */
  lemma AdvanceNAdd(w: Width, v: seq<int>, a: nat, b: nat)
    requires IsLaneVector(w, |v|, v)
    ensures AdvanceN(w, AdvanceN(w, v, a), b) == AdvanceN(w, v, a + b)
  {
  }

  /** Lane independence: after any number of updates, lane `i` depends only on
      lane `i` of the seed; rewriting another lane of the seed leaves it unchanged. */
  lemma LaneIndependence(w: Width, v: seq<int>, j: nat, t: int, n: nat)
    requires IsLaneVector(w, |v|, v) && j < |v| && InRange(w, t)
    ensures IsLaneVector(w, |v|, v[j := t])
    ensures forall i :: 0 <= i < |v| && i != j ==> AdvanceN(w, v[j := t], n)[i] == AdvanceN(w, v, n)[i]
    ensures AdvanceN(w, v[j := t], n)[j] == StepN(w, t, n)
  {
  }

  /** Broadcast invariance: a splat seed stays a splat value after any number of
      updates, so all lanes stay pairwise equal. */
  lemma SplatStaysUniform(w: Width, n: nat, t: int, k: nat)
    requires InRange(w, t)
    ensures IsLaneVector(w, n, Broadcast(n, t))
    ensures AdvanceN(w, Broadcast(n, t), k) == Broadcast(n, StepN(w, t, k))
    ensures forall i, j :: 0 <= i < n && 0 <= j < n ==>
      AdvanceN(w, Broadcast(n, t), k)[i] == AdvanceN(w, Broadcast(n, t), k)[j]
  {
  }

  /** The period of a non-empty lane vector is 2^k: `n` updates return every
      seed to itself exactly when 2^k divides `n`. */
  lemma VectorPeriod(w: Width, v: seq<int>, n: nat)
    requires IsLaneVector(w, |v|, v) && |v| > 0
    ensures AdvanceN(w, v, n) == v <==> n % Modulus(w) == 0
  {
    var r := AdvanceN(w, v, n);
    if n % Modulus(w) == 0 {
      forall i | 0 <= i < |v|
        ensures r[i] == v[i]
      {
        Period(w, v[i], n);
      }
    } else {
      Period(w, v[0], n);
      assert r[0] != v[0];
    }
  }

  /** With 8-bit lanes, 256 updates return every seed to itself and no
      smaller positive number of updates does. */
  lemma VectorFullPeriod8(v: seq<int>)
    requires IsLaneVector(W8, |v|, v) && |v| > 0
    ensures AdvanceN(W8, v, 256) == v
    ensures forall n :: 0 < n < 256 ==> AdvanceN(W8, v, n) != v
  {
    assert 256 % Modulus(W8) == 0;
    VectorPeriod(W8, v, 256);
    forall n | 0 < n < 256
      ensures AdvanceN(W8, v, n) != v
    {
      assert n % Modulus(W8) != 0;
      VectorPeriod(W8, v, n);
    }
  }

  /** One update is injective on lane vectors of equal length. */
  lemma AdvanceInjective(w: Width, u: seq<int>, v: seq<int>)
    requires IsLaneVector(w, |u|, u) && IsLaneVector(w, |u|, v)
    ensures Advance(w, u) == Advance(w, v) <==> u == v
  {
    if Advance(w, u) == Advance(w, v) {
      forall i | 0 <= i < |u|
        ensures u[i] == v[i]
      {
        StepInjective(w, u[i], v[i]);
        assert Advance(w, u)[i] == Advance(w, v)[i];
      }
    }
  }

  /** The lane vector that one update turns into `v`. */
  ghost function Retreat(w: Width, v: seq<int>): (u: seq<int>)
    requires IsLaneVector(w, |v|, v)
    ensures IsLaneVector(w, |v|, u)
  {
    seq(|v|, i requires 0 <= i < |v| => Predecessor(w, v[i]))
  }

  /** `Retreat` inverts one update on both sides, so an update is a bijection
      on lane vectors of a given length. */
  lemma AdvanceRetreat(w: Width, v: seq<int>)
    requires IsLaneVector(w, |v|, v)
    ensures Advance(w, Retreat(w, v)) == v
    ensures Retreat(w, Advance(w, v)) == v
  {
    var u, a := Retreat(w, v), Advance(w, v);
    forall i | 0 <= i < |v|
      ensures Advance(w, u)[i] == v[i] && Retreat(w, a)[i] == v[i]
    {
      StepPredecessor(w, v[i]);
    }
  }

  /** The generator: it owns one lane vector of `lanes` lanes of width `width`. */
  class PacRand {
    const width: Width
    const lanes: nat
    var seed: seq<int>

    ghost predicate Valid()
      reads this
    {
      SupportedLaneCount(lanes) && IsLaneVector(width, lanes, seed)
    }

    /** A generator whose state is the given vector, lane for lane. */
    constructor FromSeed(w: Width, s: seq<int>)
      requires SupportedLaneCount(|s|) && IsLaneVector(w, |s|, s)
      ensures Valid()
      ensures width == w && lanes == |s|
      ensures State() == s
    {
      width, lanes := w, |s|;
      seed := s;
    }

    /** A generator whose `n` lanes all hold `t`. */
    constructor Splat(w: Width, n: nat, t: int)
      requires SupportedLaneCount(n) && InRange(w, t)
      ensures Valid()
      ensures width == w && lanes == n
      ensures |State()| == n && forall i :: 0 <= i < n ==> State()[i] == t
    {
      width, lanes := w, n;
      seed := Broadcast(n, t);
    }

    /** The current lane vector. */
    function State(): (v: seq<int>)
      reads this
      requires Valid()
      ensures IsLaneVector(width, lanes, v)
    {
      seed
    }

    /** Advances every lane by one step and returns the new vector. */
    method Update() returns (v: seq<int>)
      requires Valid()
      modifies this
      ensures Valid()
      ensures State() == Advance(width, old(State()))
      ensures v == State()
    {
      seed := Advance(width, seed);
      v := seed;
    }

    /** `n` calls of `Update` in a row: the state is then `AdvanceN` of the
        state before, so every lemma about `AdvanceN` speaks of the generator. */
    method UpdateN(n: nat) returns (v: seq<int>)
      requires Valid()
      modifies this
      ensures Valid()
      ensures State() == AdvanceN(width, old(State()), n)
      ensures v == State()
    {
      v := seed;
      var i := 0;
      while i < n
        invariant 0 <= i <= n
        invariant Valid()
        invariant State() == AdvanceN(width, old(State()), i)
        invariant v == State()
      {
        v := Update();
        i := i + 1;
      }
    }
  }

  /** Four 8-bit lanes seeded with 0, 1, 2, 3: one update gives 1, 6, 11, 16 ... */
  lemma ExampleFirstUpdate()
    ensures Advance(W8, [0, 1, 2, 3]) == [1, 6, 11, 16]
  {
  }

  /** ... and a second update gives 6, 31, 56, 81. */
  lemma ExampleSecondUpdate()
    ensures Advance(W8, [1, 6, 11, 16]) == [6, 31, 56, 81]
  {
  }

  /** The same example through the generator's own operations. */
  method ExampleRun() returns (first: seq<int>, second: seq<int>)
    ensures first == [1, 6, 11, 16]
    ensures second == [6, 31, 56, 81]
  {
    ExampleFirstUpdate();
    ExampleSecondUpdate();
    var g := new PacRand.FromSeed(W8, [0, 1, 2, 3]);
    first := g.Update();
    second := g.Update();
  }

  /** 256 updates of an 8-bit generator bring it back to its seed. */
  method ExamplePeriodRun() returns (v: seq<int>)
    ensures v == [0, 1, 2, 3]
  {
    var g := new PacRand.FromSeed(W8, [0, 1, 2, 3]);
    VectorFullPeriod8([0, 1, 2, 3]);
    v := g.UpdateN(256);
  }
}
