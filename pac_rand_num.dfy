/**
 * The numeric capability of a lane element: its bit width, the wrapping
 * arithmetic the lane vector uses, the two affine constants FIVE and ONE,
 * and their broadcast across every lane of a vector.
 *
 * A lane holds the residue of its value modulo 2^k, where k is the bit width.
 * Signed element types share the same bit patterns and the same wrapping
 * arithmetic (two's complement); `ToSigned` and `FromSigned` give the signed
 * reading of a residue.
 */
module PacRandNum {

  import Mod

  /** The lane bit widths of the supported element types (u8/i8 .. u128/i128).
      usize and isize are taken to be 64 bits wide. */
  datatype Width = W8 | W16 | W32 | W64 | W128

  function Bits(w: Width): (k: nat)
    ensures 8 <= k <= 128 && k % 8 == 0
  {
    match w
    case W8 => 8
    case W16 => 16
    case W32 => 32
    case W64 => 64
    case W128 => 128
  }

  function Pow2(k: nat): (p: nat)
    ensures p >= 1
  {
    if k == 0 then 1 else 2 * Pow2(k - 1)
  }

  lemma {:induction false} Pow2Add(a: nat, b: nat)
    ensures Pow2(a + b) == Pow2(a) * Pow2(b)
  {
    if b > 0 {
      Pow2Add(a, b - 1);
      calc {
        Pow2(a + b);
        2 * Pow2(a + (b - 1));
        2 * (Pow2(a) * Pow2(b - 1));
        Pow2(a) * (2 * Pow2(b - 1));
        Pow2(a) * Pow2(b);
      }
    }
  }

  lemma Pow2Doubles(k: nat, p: nat)
    requires Pow2(k) == p
    ensures Pow2(k + k) == p * p
  {
    Pow2Add(k, k);
  }

  /** The number of values a lane of width `w` can hold, 2^k. */
  function Modulus(w: Width): (m: nat)
    ensures m >= 256 && m % 2 == 0
  {
    match w
    case W8 => 0x100
    case W16 => 0x1_0000
    case W32 => 0x1_0000_0000
    case W64 => 0x1_0000_0000_0000_0000
    case W128 => 0x1_0000_0000_0000_0000_0000_0000_0000_0000
  }

  lemma ModulusIsPow2(w: Width)
    ensures Modulus(w) == Pow2(Bits(w))
  {
    assert Pow2(8) == 0x100;
    Pow2Doubles(8, 0x100);
    Pow2Doubles(16, 0x1_0000);
    Pow2Doubles(32, 0x1_0000_0000);
    Pow2Doubles(64, 0x1_0000_0000_0000_0000);
  }

  /** A value is a lane value of width `w` when it is one of the 2^k residues. */
  predicate InRange(w: Width, x: int)
  {
    0 <= x < Modulus(w)
  }

  /** A lane vector of `n` lanes, every lane a residue of width `w`. */
  predicate IsLaneVector(w: Width, n: nat, v: seq<int>)
  {
    |v| == n && forall i :: 0 <= i < |v| ==> InRange(w, v[i])
  }

  /** The lane counts a portable SIMD vector supports. */
  predicate SupportedLaneCount(n: nat)
  {
    n == 1 || n == 2 || n == 4 || n == 8 || n == 16 || n == 32 || n == 64
  }

  /** The multiplier of the recurrence, in every element type. */
  const FIVE: int := 5

  /** The increment of the recurrence, in every element type. */
  const ONE: int := 1

  /** FIVE and ONE are lane values of every width. */
  lemma ConstantsInRange(w: Width)
    ensures InRange(w, FIVE) && InRange(w, ONE)
  {
  }

  /** The Hull–Dobell conditions for a power-of-two modulus: the multiplier is
      1 modulo 4 and the increment is odd. */
  lemma HullDobellConditions()
    ensures FIVE % 4 == 1 && ONE % 2 == 1
  {
  }

  /** A vector whose `n` lanes all hold `t`: the lifting of a scalar to a
      lane vector, used for the vector constants and for splat. */
  function Broadcast(n: nat, t: int): (v: seq<int>)
    ensures |v| == n
    ensures forall i :: 0 <= i < n ==> v[i] == t
  {
    seq(n, _ => t)
  }

  lemma BroadcastIsLaneVector(w: Width, n: nat, t: int)
    requires InRange(w, t)
    ensures IsLaneVector(w, n, Broadcast(n, t))
  {
  }

  /** Multiplication that wraps modulo 2^k. */
  function WrappingMul(w: Width, a: int, b: int): (r: int)
    ensures InRange(w, r)
  {
    (a * b) % Modulus(w)
  }

  /** Addition that wraps modulo 2^k. */
  function WrappingAdd(w: Width, a: int, b: int): (r: int)
    ensures InRange(w, r)
  {
    (a + b) % Modulus(w)
  }

  /** Lane-wise wrapping multiplication of two vectors of equal length. */
  function LaneMul(w: Width, a: seq<int>, b: seq<int>): (r: seq<int>)
    requires |a| == |b|
    ensures |r| == |a|
    ensures forall i :: 0 <= i < |a| ==> r[i] == WrappingMul(w, a[i], b[i])
  {
    seq(|a|, i requires 0 <= i < |a| => WrappingMul(w, a[i], b[i]))
  }

  /** Lane-wise wrapping addition of two vectors of equal length. */
  function LaneAdd(w: Width, a: seq<int>, b: seq<int>): (r: seq<int>)
    requires |a| == |b|
    ensures |r| == |a|
    ensures forall i :: 0 <= i < |a| ==> r[i] == WrappingAdd(w, a[i], b[i])
  {
    seq(|a|, i requires 0 <= i < |a| => WrappingAdd(w, a[i], b[i]))
  }

  // ----- The signed reading of a lane (two's complement) -----

  /** Half the modulus: the signed range of width `w` is [-Half, Half). */
  function Half(w: Width): (h: nat)
    ensures 2 * h == Modulus(w) && h >= 128
  {
    Modulus(w) / 2
  }

  predicate InSignedRange(w: Width, z: int)
  {
    -(Half(w) as int) <= z < Half(w)
  }

  /** The value a signed element type reads from the bit pattern of residue
      `r`: the top bit carries weight -2^(k-1). */
  function ToSigned(w: Width, r: int): (z: int)
    requires InRange(w, r)
    ensures InSignedRange(w, z)
    ensures z < 0 <==> r >= Half(w)
  {
    if r < Half(w) then r else r - Modulus(w)
  }

  /** The residue that holds the bit pattern of the signed value `z`. */
  function FromSigned(w: Width, z: int): (r: int)
    requires InSignedRange(w, z)
    ensures InRange(w, r)
  {
    z % Modulus(w)
  }

  lemma SignedRoundTrip(w: Width, z: int)
    requires InSignedRange(w, z)
    ensures ToSigned(w, FromSigned(w, z)) == z
  {
  }

  lemma UnsignedRoundTrip(w: Width, r: int)
    requires InRange(w, r)
    ensures FromSigned(w, ToSigned(w, r)) == r
  {
  }
}
