/** Bytes as groups of eight bits: the value of a bit group, its inverse,
    and the byte builder the encoder uses (`ConvertToByte`). */
module Bits {

  /** An unsigned 8-bit value, as C# `byte`. */
  type Byte = b: int | 0 <= b < 256

  function Pow2(n: nat): (r: nat)
    ensures r >= 1
  {
    if n == 0 then 1 else 2 * Pow2(n - 1)
  }

  /** The unsigned value of a group of bits given least-significant bit
      first: bit `i` weighs `2^i`. */
  function Weight(bits: seq<bool>): (r: nat)
    ensures r < Pow2(|bits|)
  {
    if bits == [] then 0 else (if bits[0] then 1 else 0) + 2 * Weight(bits[1..])
  }

  /** The `n` low bits of `v`, least-significant first. */
  function ToBits(v: nat, n: nat): (r: seq<bool>)
    ensures |r| == n
  {
    if n == 0 then [] else [v % 2 == 1] + ToBits(v / 2, n - 1)
  }

  /** Reading the bits back out of a group's value gives the group. */
  lemma {:induction false} ToBitsWeight(bits: seq<bool>)
    ensures ToBits(Weight(bits), |bits|) == bits
  {
    if bits != [] {
      ToBitsWeight(bits[1..]);
    }
  }

  /** Every value below `2^n` is the value of its own `n` bits. */
  lemma {:induction false} WeightToBits(v: nat, n: nat)
    requires v < Pow2(n)
    ensures Weight(ToBits(v, n)) == v
  {
    if n > 0 {
      WeightToBits(v / 2, n - 1);
    }
  }

  /** Appending a bit adds its weight at the next position. */
  lemma {:induction false} WeightSnoc(bits: seq<bool>, b: bool)
    ensures Weight(bits + [b]) == Weight(bits) + (if b then Pow2(|bits|) else 0)
  {
    if bits != [] {
      assert (bits + [b])[1..] == bits[1..] + [b];
      WeightSnoc(bits[1..], b);
    }
  }

  lemma {:induction false} Pow2Monotone(a: nat, b: nat)
    requires a <= b
    ensures Pow2(a) <= Pow2(b)
  {
    if a < b {
      Pow2Monotone(a, b - 1);
    }
  }

  /** Any prefix of eight bits has a value that fits in a byte. */
  lemma PrefixFitsByte(bits: seq<bool>, n: nat)
    requires n <= |bits| == 8
    ensures Weight(bits[..n]) < 256
  {
    Pow2Monotone(n, 8);
    assert Pow2(8) == 256;
  }

  /** Bitwise OR of two non-negative integers, as C#'s `|` on them. */
  function BitOr(a: nat, b: nat): nat
    decreases a + b
  {
    if a == 0 && b == 0 then 0
    else (if a % 2 == 1 || b % 2 == 1 then 1 else 0) + 2 * BitOr(a / 2, b / 2)
  }

  /** OR-ing in a bit above every set bit of `a` adds that bit's weight. */
  lemma {:induction false} OrHighBit(a: nat, x: nat)
    requires a < Pow2(x)
    ensures BitOr(a, Pow2(x)) == a + Pow2(x)
  {
    if x > 0 {
      OrHighBit(a / 2, x - 1);
    }
  }

  /** OR with zero changes nothing. */
  lemma {:induction false} OrZero(a: nat)
    ensures BitOr(a, 0) == a
  {
    if a > 0 {
      OrZero(a / 2);
    }
  }

  /** One step of `ConvertToByte`: OR-ing in bit `x` of the group turns
      the value of its first `x` bits into the value of its first `x + 1`. */
  lemma OrStep(bits: seq<bool>, x: nat, v: nat)
    requires x < |bits| && v == Weight(bits[..x])
    ensures BitOr(v, if bits[x] then Pow2(x) else 0) == Weight(bits[..x + 1])
  {
    assert bits[..x + 1] == bits[..x] + [bits[x]];
    WeightSnoc(bits[..x], bits[x]);
    if bits[x] {
      OrHighBit(v, x);
    } else {
      OrZero(v);
    }
  }

  /** Folds eight bits into a byte, `bits[x]` giving bit `x` (the value
      `0x01 << x`); the byte's value is the weighted sum of the bits. */
  method ConvertToByte(bits: array<bool>) returns (value: Byte)
    requires bits.Length == 8
    ensures value == Weight(bits[..])
  {
    value := 0;
    for x := 0 to 8
      invariant value == Weight(bits[..x])
    {
      OrStep(bits[..], x, value);
      PrefixFitsByte(bits[..], x + 1);
      value := BitOr(value, if bits[x] then Pow2(x) else 0);
    }
    assert bits[..8] == bits[..];
  }
}
