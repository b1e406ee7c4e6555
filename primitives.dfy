/**
 * The bitwise primitives of the SHA256 class: a 32-bit right rotation and
 * the six logical functions of section 4.1.2 of FIPS 180-4. Each function
 * is the class's single expression over unsigned 32-bit words; each is
 * paired with a lemma describing it one bit at a time, which is how the
 * standard defines it.
 */
module Sha256Primitives {

  /**
   * Bit i (0 = least significant) of a 32-bit word. Bit positions are
   * `bv5`, so `i + k` is already taken modulo 32.
   */
  predicate Bit(x: bv32, i: bv5)
  {
    (x >> i) & 1 == 1
  }

  /**
   * Addition of unsigned 32-bit words, modulo 2^32 as in `uint32_t`
   * arithmetic. Every sum in the compression function is written with
   * `Add` so that it stays one term per source-level addition.
   */
  function Add(a: bv32, b: bv32): bv32
  {
    a + b
  }

  /** The rotation amounts the class passes to `RotateRight`. */
  predicate UsedRotation(bits: bv32)
  {
    bits in {2, 6, 7, 11, 13, 17, 18, 19, 22, 25}
  }

  /**
   * `(value >> bits) | (value << (32 - bits))`. Shifting a 32-bit word by
   * 32 is undefined in the source language, so callers must keep `bits`
   * strictly between 0 and 32.
   */
  function RotateRight(value: bv32, bits: bv32): bv32
    requires 0 < bits < 32
  {
    (value >> bits) | (value << (32 - bits))
  }

  /**
   * For every amount the class uses, `RotateRight` is a right rotation:
   * bit i of the result is bit (i + bits) mod 32 of the input.
   */
  lemma RotateRightBit(value: bv32, bits: bv32, i: bv5)
    requires UsedRotation(bits)
    ensures 0 < bits < 32
    ensures Bit(RotateRight(value, bits), i) == Bit(value, i + bits as bv5)
  {
    if bits == 2 {
      RotateRight2Bit(value, i);
    } else if bits == 6 {
      RotateRight6Bit(value, i);
    } else if bits == 7 {
      RotateRight7Bit(value, i);
    } else if bits == 11 {
      RotateRight11Bit(value, i);
    } else if bits == 13 {
      RotateRight13Bit(value, i);
    } else if bits == 17 {
      RotateRight17Bit(value, i);
    } else if bits == 18 {
      RotateRight18Bit(value, i);
    } else if bits == 19 {
      RotateRight19Bit(value, i);
    } else if bits == 22 {
      RotateRight22Bit(value, i);
    } else if bits == 25 {
      RotateRight25Bit(value, i);
    }
  }

  lemma RotateRight2Bit(v: bv32, i: bv5)
    ensures Bit(RotateRight(v, 2), i) == Bit(v, i + 2)
  {
  }

  lemma RotateRight6Bit(v: bv32, i: bv5)
    ensures Bit(RotateRight(v, 6), i) == Bit(v, i + 6)
  {
  }

  lemma RotateRight7Bit(v: bv32, i: bv5)
    ensures Bit(RotateRight(v, 7), i) == Bit(v, i + 7)
  {
  }

  lemma RotateRight11Bit(v: bv32, i: bv5)
    ensures Bit(RotateRight(v, 11), i) == Bit(v, i + 11)
  {
  }

  lemma RotateRight13Bit(v: bv32, i: bv5)
    ensures Bit(RotateRight(v, 13), i) == Bit(v, i + 13)
  {
  }

  lemma RotateRight17Bit(v: bv32, i: bv5)
    ensures Bit(RotateRight(v, 17), i) == Bit(v, i + 17)
  {
  }

  lemma RotateRight18Bit(v: bv32, i: bv5)
    ensures Bit(RotateRight(v, 18), i) == Bit(v, i + 18)
  {
  }

  lemma RotateRight19Bit(v: bv32, i: bv5)
    ensures Bit(RotateRight(v, 19), i) == Bit(v, i + 19)
  {
  }

  lemma RotateRight22Bit(v: bv32, i: bv5)
    ensures Bit(RotateRight(v, 22), i) == Bit(v, i + 22)
  {
  }

  lemma RotateRight25Bit(v: bv32, i: bv5)
    ensures Bit(RotateRight(v, 25), i) == Bit(v, i + 25)
  {
  }


  function Choose(x: bv32, y: bv32, z: bv32): bv32
  {
    (x & y) ^ (!x & z)
  }

  /** Ch is a bitwise multiplexer: the two terms of its xor never overlap. */
  lemma ChooseIsMux(x: bv32, y: bv32, z: bv32)
    ensures Choose(x, y, z) == (x & y) | (!x & z)
  {
  }

  lemma MuxBit(x: bv32, y: bv32, z: bv32, i: bv5)
    ensures Bit((x & y) | (!x & z), i) == if Bit(x, i) then Bit(y, i) else Bit(z, i)
  {
  }

  /** Ch: each bit of x chooses between the bits of y and z. */
  lemma ChooseBit(x: bv32, y: bv32, z: bv32, i: bv5)
    ensures Bit(Choose(x, y, z), i) == if Bit(x, i) then Bit(y, i) else Bit(z, i)
  {
    ChooseIsMux(x, y, z);
    MuxBit(x, y, z, i);
  }

  function Majority(x: bv32, y: bv32, z: bv32): bv32
  {
    (x & y) ^ (x & z) ^ (y & z)
  }

  /** Maj in or-form: the three pairwise products never disagree where two of them are set. */
  lemma MajorityIsVote(x: bv32, y: bv32, z: bv32)
    ensures Majority(x, y, z) == (x & y) | (x & z) | (y & z)
  {
  }

  lemma VoteBit(x: bv32, y: bv32, z: bv32, i: bv5)
    ensures Bit((x & y) | (x & z) | (y & z), i) ==
      ((Bit(x, i) && Bit(y, i)) || (Bit(x, i) && Bit(z, i)) || (Bit(y, i) && Bit(z, i)))
  {
  }

  /** Maj: each bit is the majority vote of the three input bits. */
  lemma MajorityBit(x: bv32, y: bv32, z: bv32, i: bv5)
    ensures Bit(Majority(x, y, z), i) ==
      ((Bit(x, i) && Bit(y, i)) || (Bit(x, i) && Bit(z, i)) || (Bit(y, i) && Bit(z, i)))
  {
    MajorityIsVote(x, y, z);
    VoteBit(x, y, z, i);
  }

  function Sigma0(value: bv32): bv32
  {
    RotateRight(value, 7) ^ RotateRight(value, 18) ^ (value >> 3)
  }

  function Sigma1(value: bv32): bv32
  {
    RotateRight(value, 17) ^ RotateRight(value, 19) ^ (value >> 10)
  }

  function UpperSigma0(value: bv32): bv32
  {
    RotateRight(value, 2) ^ RotateRight(value, 13) ^ RotateRight(value, 22)
  }

  function UpperSigma1(value: bv32): bv32
  {
    RotateRight(value, 6) ^ RotateRight(value, 11) ^ RotateRight(value, 25)
  }
}
