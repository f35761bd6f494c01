# pac-rand in Dafny

pac-rand is a small pseudo-random generator. `PacRand<T, N>` holds one SIMD
vector of `N` lanes of the integer type `T`. Each `update` advances every lane
at once by the linear congruential recurrence

    x' = x * 5 + 1   (wrapping, modulo 2^k for a k-bit lane)

and returns the new vector. A generator is built from an explicit vector
(`from_seed`) or from one value copied into every lane (`splat`). `state`
reads the vector without changing it. Every integer type from 8 to 128 bits,
signed or unsigned, implements the trait `PacRandNum`, which supplies the
constants FIVE and ONE for each lane type and broadcasts them to whole vectors.
A lane type of the generator must also be a SIMD element type; whether the
portable-SIMD library admits the 128-bit integers as such is decided outside
this repository, so the 128-bit width may be reachable only through the
scalar trait. The model covers it anyway: the proofs hold for every width.

The model has four modules:

- `PacRandNum` (pac_rand_num.dfy) covers lane widths, wrapping arithmetic,
  the constants FIVE and ONE, broadcasting a lane value to a vector, and the
  two's-complement reading of signed lanes.
- `Recurrence` (recurrence.dfy) is the single-lane recurrence and its theory.
  It proves:
  - the closed form over unbounded integers;
  - the exact period 2^k from every seed (the Hull–Dobell full-period
    criterion for multiplier 5, increment 1 and modulus 2^k);
  - that a lane's orbit visits every lane value;
  - that one step is a bijection with an explicit inverse;
  - that signed lanes step exactly like their bit patterns.
- `Generator` (pac_rand.dfy) holds the vector operation `Advance` and the
  class `PacRand`. The class has the seed as a mutable field, the two
  constructors, `State`, `Update` and `UpdateN` (n updates in a row).
  `Update` is specified by `Advance`, `UpdateN` by `AdvanceN`.
  Further lemmas cover lane independence, uniform splat seeds, the vector
  period and the bijection on vectors.
- `Mod` and `Counting` (facts.dfy) are arithmetic and finite-set facts the
  proofs use.

A lane value is modelled as an `int` in `[0, 2^k)`. A lane vector is a
`seq<int>` whose length is the lane count. Signed lane types use the same
residues: Rust's wrapping `*` and `+` on `iN` act on the same bit patterns as
on `uN`. `SignedStepAgrees` proves that stepping in the signed reading gives
the same result.

## Model

| member | source | states |
|---|---|---|
| PacRandNum.Bits | src/lib.rs:28-41 | every supported element type has a bit width that is a multiple of 8 between 8 and 128 |
| PacRandNum.ModulusIsPow2 | src/lib.rs:28-41 | a lane of width k holds exactly 2^k values, so its wrapping arithmetic is arithmetic modulo 2^k |
| PacRandNum.Modulus | src/lib.rs:28-41 | a lane of any supported width holds an even number of values, at least 256 |
| PacRandNum.ConstantsInRange | src/lib.rs:21-24 | records that the constants FIVE = 5 and ONE = 1 fit in a lane of every width |
| PacRandNum.HullDobellConditions | src/lib.rs:22-23 | the multiplier FIVE is 1 modulo 4 and the increment ONE is odd; the parity step of the period proof (OffsetParity) uses them |
| PacRandNum.Broadcast | src/lib.rs:49-51 | the vector constants have N lanes, and each lane holds the scalar constant |
| PacRandNum.BroadcastIsLaneVector | src/lib.rs:49-51 | broadcasting a lane value gives a well-formed lane vector of any lane count |
| PacRandNum.WrappingMul | src/lib.rs:93 | the wrapping product of two lane values is again a lane value |
| PacRandNum.WrappingAdd | src/lib.rs:93 | the wrapping sum of two lane values is again a lane value |
| PacRandNum.LaneMul | src/lib.rs:65 | the lane-wise product of two vectors of equal length has that length, and each lane is the wrapping product of the two lanes |
| PacRandNum.LaneAdd | src/lib.rs:65 | the lane-wise sum of two vectors of equal length has that length, and each lane is the wrapping sum of the two lanes |
| PacRandNum.ToSigned | src/lib.rs:35-40 | the signed reading of a bit pattern is in [-2^(k-1), 2^(k-1)), and it is negative exactly when the top bit is set |
| PacRandNum.FromSigned | src/lib.rs:35-40 | the bit pattern of a value in the signed range is a lane value |
| PacRandNum.SignedRoundTrip | src/lib.rs:35-40 | reading back the bit pattern of a signed value gives the value again |
| PacRandNum.UnsignedRoundTrip | src/lib.rs:35-40 | the bit pattern of the signed reading of a residue is that residue |
| Recurrence.Step | src/lib.rs:93 | one lane step (wrapping product with FIVE, then wrapping sum with ONE) takes a lane value to a lane value |
| Recurrence.StepN | src/lib.rs:92-95 | any number of lane steps keeps a lane value a lane value |
| Recurrence.StepIsAffine | src/lib.rs:93 | one lane step (wrapping product with FIVE, then wrapping sum with ONE) equals (x * 5 + 1) mod 2^k |
| Recurrence.StepNAdd | src/lib.rs:92-95 | a steps followed by b steps are a + b steps |
| Recurrence.IterateClosedForm | src/lib.rs:93 | over unbounded integers, n steps take x to x + (4x + 1) * (1 + 5 + ... + 5^(n-1)) |
| Recurrence.StepNIsIterateMod | src/lib.rs:93 | n wrapping steps equal n unbounded steps reduced modulo 2^k |
| Recurrence.OffsetDivisible | src/lib.rs:93 | 2^j divides 1 + 5 + ... + 5^(n-1) exactly when 2^j divides n |
| Recurrence.Period | src/lib.rs:92-95 | from every seed, n steps return a lane to its seed if and only if 2^k divides n |
| Recurrence.FullPeriod | src/lib.rs:92-95 | 2^k steps return every lane value to itself, and no smaller positive count does |
| Recurrence.FullPeriod8 | src/lib.rs:29 | for 8-bit lanes, 256 steps return every seed to itself, and no count from 1 to 255 does |
| Recurrence.StepPredecessor | src/lib.rs:93 | 2^k - 1 steps undo one step, on both sides, so one step is a bijection on lane values |
| Recurrence.StepInjective | src/lib.rs:93 | two lane values have the same successor if and only if they are equal |
| Recurrence.StepSurjective | src/lib.rs:93 | every lane value is the successor of some lane value |
| Recurrence.OrbitSize | src/lib.rs:92-95 | the first n ≤ 2^k values of a lane's orbit are pairwise distinct (the set has n elements) |
| Recurrence.OrbitCoversAll | src/lib.rs:92-95 | from any seed, a lane takes every one of the 2^k lane values within its first 2^k updates |
| Recurrence.SignedWrappingMul | src/lib.rs:35-40 | the wrapping product of a signed element type stays in its signed range |
| Recurrence.SignedWrappingAdd | src/lib.rs:35-40 | the wrapping sum of a signed element type stays in its signed range |
| Recurrence.SignedStep | src/lib.rs:35-40 | one step of a signed lane, x * FIVE + ONE in its own wrapping arithmetic, stays in its signed range |
| Recurrence.SignedStepAgrees | src/lib.rs:35-40 | a signed lane stepped in its own wrapping arithmetic gives the signed reading of the unsigned step of its bit pattern |
| Generator.Advance | src/lib.rs:93 | the vector expression seed * FIVE + ONE keeps the lane count, and each lane of the result is the step of the same lane of the seed |
| Generator.AdvanceIsAffine | src/lib.rs:93 | each lane of an updated vector is (x * 5 + 1) mod 2^k of the same lane before |
| Generator.AdvanceN | src/lib.rs:92-95 | n updates keep the lane count, and lane i of the result is n steps of lane i of the seed |
| Generator.AdvanceNAdd | src/lib.rs:92-95 | a updates followed by b updates are a + b updates |
| Generator.LaneIndependence | src/lib.rs:93 | after any number of updates, changing one lane of the seed changes no other lane, and that lane follows its own orbit |
| Generator.SplatStaysUniform | src/lib.rs:83-87 | a splat seed stays a splat value after any number of updates: every lane equals the lane orbit of t |
| Generator.VectorPeriod | src/lib.rs:92-95 | n updates return a non-empty vector to its seed if and only if 2^k divides n |
| Generator.VectorFullPeriod8 | src/lib.rs:92-95 | for 8-bit lanes, 256 updates return every vector to its seed, and no count from 1 to 255 does |
| Generator.AdvanceInjective | src/lib.rs:93 | two vectors of equal length have the same update if and only if they are equal |
| Generator.AdvanceRetreat | src/lib.rs:93 | Retreat undoes one update on both sides, so one update is a bijection on vectors of a given lane count |
| Generator.PacRand.FromSeed | src/lib.rs:80-82 | the new generator's state is the given vector, lane for lane |
| Generator.PacRand.Splat | src/lib.rs:83-87 | the new generator's state has N lanes, and each lane holds t |
| Generator.PacRand.State | src/lib.rs:88-91 | reads the stored vector and changes nothing; the result is a well-formed vector of the generator's lane count |
| Generator.PacRand.Update | src/lib.rs:92-95 | the new state is Advance of the old state, the result is the new state, and the generator stays well-formed |
| Generator.PacRand.UpdateN | src/lib.rs:92-95 | n calls of update in a row leave the state at AdvanceN of the state before and return it, so the lemmas about AdvanceN describe the generator |
| Generator.ExampleFirstUpdate | src/lib.rs:93 | with 8-bit lanes, [0, 1, 2, 3] updates to [1, 6, 11, 16] |
| Generator.ExampleSecondUpdate | src/lib.rs:93 | with 8-bit lanes, [1, 6, 11, 16] updates to [6, 31, 56, 81] |
| Generator.ExampleRun | src/lib.rs:80-95 | a generator seeded with [0, 1, 2, 3] through from_seed returns [1, 6, 11, 16] and then [6, 31, 56, 81] from two updates |
| Generator.ExamplePeriodRun | src/lib.rs:80-95 | a generator seeded with [0, 1, 2, 3] through from_seed is back at [0, 1, 2, 3] after 256 updates |

## Left out

- `new` (src/lib.rs:67-79) is not modelled. It fills the seed from operating-system entropy by transmuting the vector to a byte buffer. It discards the result of the entropy call (line 70) and then assumes the buffer is initialised (line 77). Randomness from the operating system is outside a deterministic model. A model would also have to decide what an unfilled buffer holds, and the code leaves that undefined. Because the entropy result is discarded, the code never reports an entropy failure, and the model has no such error either.
- The SIMD representation, hardware vector registers, `#[inline]`, `const fn` and the nightly feature gates are left out. A vector is a sequence.
- The macro expansion over twelve element types (src/lib.rs:18-41) becomes one `Width` parameter. `usize` and `isize` are fixed at 64 bits. Their real width depends on the target platform.
- The lane-count bound `LaneCount<N>: SupportedLaneCount` is modelled as the set {1, 2, 4, 8, 16, 32, 64}. The portable-SIMD library decides that set, and it is not part of this model.
- Generator.PacRand.State and Generator.PacRand.Update return the vector by value, not as a borrowed reference. Aliasing and borrowing are not modelled.
- Statistical quality of the output, thread safety and performance are not modelled.
