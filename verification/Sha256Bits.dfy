/**
 The bit functions of SHA-256 (section 4.1.2 of FIPS 180-4, the macros of compat/sha2.c) and what they compute.
 */
module Sha256Bits {
  function ChBits(x: bv32, y: bv32, z: bv32): (r: bv32) {
    (x & y) ^ (!x & z)
  }

  function MajBits(x: bv32, y: bv32, z: bv32): (r: bv32) {
    (x & y) ^ (x & z) ^ (y & z)
  }

  function BigSigma0Bits(x: bv32): (r: bv32) {
    ((x >> 2) | (x << 30)) ^ ((x >> 13) | (x << 19)) ^ ((x >> 22) | (x << 10))
  }

  function BigSigma1Bits(x: bv32): (r: bv32) {
    ((x >> 6) | (x << 26)) ^ ((x >> 11) | (x << 21)) ^ ((x >> 25) | (x << 7))
  }

  function Sigma0Bits(x: bv32): (r: bv32) {
    ((x >> 7) | (x << 25)) ^ ((x >> 18) | (x << 14)) ^ (x >> 3)
  }

  function Sigma1Bits(x: bv32): (r: bv32) {
    ((x >> 17) | (x << 15)) ^ ((x >> 19) | (x << 13)) ^ (x >> 10)
  }

  /** Ch chooses the bits of y where x has ones and those of z where it has zeros. */
  lemma ChChooses(x: bv32, y: bv32, z: bv32)
    ensures ChBits(x, y, z) & x == y & x && ChBits(x, y, z) & !x == z & !x
  {
  }

  /** Maj agrees with any two that agree. */
  lemma MajAgreesXY(x: bv32, y: bv32, z: bv32)
    ensures (MajBits(x, y, z) ^ x) & !(x ^ y) == 0
  {
  }

  lemma MajAgreesXZ(x: bv32, y: bv32, z: bv32)
    ensures (MajBits(x, y, z) ^ x) & !(x ^ z) == 0
  {
  }

  lemma MajAgreesYZ(x: bv32, y: bv32, z: bv32)
    ensures (MajBits(x, y, z) ^ y) & !(y ^ z) == 0
  {
  }

  /** The sigmas are sums of rotations, and of a shift for the small ones. */
  lemma SigmasRotate(x: bv32)
    ensures BigSigma0Bits(x) == x.RotateRight(2) ^ x.RotateRight(13) ^ x.RotateRight(22)
    ensures BigSigma1Bits(x) == x.RotateRight(6) ^ x.RotateRight(11) ^ x.RotateRight(25)
    ensures Sigma0Bits(x) == x.RotateRight(7) ^ x.RotateRight(18) ^ (x >> 3)
    ensures Sigma1Bits(x) == x.RotateRight(17) ^ x.RotateRight(19) ^ (x >> 10)
  {
  }

  /** Where each sigma takes a single bit. */
  lemma SigmasOneBit(k: bv32)
    requires k < 32
    ensures BigSigma0Bits(1 << k) == (1 << ((k + 30) & 31)) ^ (1 << ((k + 19) & 31)) ^ (1 << ((k + 10) & 31))
    ensures BigSigma1Bits(1 << k) == (1 << ((k + 26) & 31)) ^ (1 << ((k + 21) & 31)) ^ (1 << ((k + 7) & 31))
    ensures Sigma0Bits(1 << k) ==
            (1 << ((k + 25) & 31)) ^ (1 << ((k + 14) & 31)) ^ (if k >= 3 then 1 << (k - 3) else 0)
    ensures Sigma1Bits(1 << k) ==
            (1 << ((k + 15) & 31)) ^ (1 << ((k + 13) & 31)) ^ (if k >= 10 then 1 << (k - 10) else 0)
  {
  }
}
