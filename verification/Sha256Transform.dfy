/**
 The SHA-256 compression function of compat/sha2.c: section 6.2.2 of FIPS 180-4 with its schedule of 64 words, and
 the two forms of SHA256Transform, which keep a window of 16 words.
 */
module Sha256Transform {
  import opened Sha256Bits

  type Byte = x: int | 0 <= x < 256
  /** 32-bit words: sums wrap; the other operations work on the bits. */
  type Word = x: int | 0 <= x < 0x1_0000_0000

  datatype Regs = Regs(a: Word, b: Word, c: Word, d: Word, e: Word, f: Word, g: Word, h: Word)

  const K256: seq<Word> :=
    [0x428a2f98, 0x71374491, 0xb5c0fbcf, 0xe9b5dba5, 0x3956c25b, 0x59f111f1, 0x923f82a4, 0xab1c5ed5] +
    [0xd807aa98, 0x12835b01, 0x243185be, 0x550c7dc3, 0x72be5d74, 0x80deb1fe, 0x9bdc06a7, 0xc19bf174] +
    [0xe49b69c1, 0xefbe4786, 0x0fc19dc6, 0x240ca1cc, 0x2de92c6f, 0x4a7484aa, 0x5cb0a9dc, 0x76f988da] +
    [0x983e5152, 0xa831c66d, 0xb00327c8, 0xbf597fc7, 0xc6e00bf3, 0xd5a79147, 0x06ca6351, 0x14292967] +
    [0x27b70a85, 0x2e1b2138, 0x4d2c6dfc, 0x53380d13, 0x650a7354, 0x766a0abb, 0x81c2c92e, 0x92722c85] +
    [0xa2bfe8a1, 0xa81a664b, 0xc24b8b70, 0xc76c51a3, 0xd192e819, 0xd6990624, 0xf40e3585, 0x106aa070] +
    [0x19a4c116, 0x1e376c08, 0x2748774c, 0x34b0bcb5, 0x391c0cb3, 0x4ed8aa4a, 0x5b9cca4f, 0x682e6ff3] +
    [0x748f82ee, 0x78a5636f, 0x84c87814, 0x8cc70208, 0x90befffa, 0xa4506ceb, 0xbef9a3f7, 0xc67178f2]

  const InitialHash := Regs(0x6a09e667, 0xbb67ae85, 0x3c6ef372, 0xa54ff53a,
                            0x510e527f, 0x9b05688c, 0x1f83d9ab, 0x5be0cd19)

  function Add(x: Word, y: Word): (r: Word) {
    (x + y) % 0x1_0000_0000
  }

  lemma Reduced(x: nat, y: nat)
    ensures (x % 0x1_0000_0000 + y) % 0x1_0000_0000 == (x + y) % 0x1_0000_0000
  {
  }

  lemma AddAssociative(x: Word, y: Word, z: Word)
    ensures Add(Add(x, y), z) == Add(x, Add(y, z))
  {
    Reduced(x + y, z);
    Reduced(y + z, x);
  }

  /** Sums wrap at 2^32 and not before. */
  lemma AddWraps(x: Word, y: Word)
    ensures Add(x, y) == if x + y < 0x1_0000_0000 then x + y else x + y - 0x1_0000_0000
  {
  }

  lemma AddCommutative(x: Word, y: Word)
    ensures Add(x, y) == Add(y, x)
  {
  }

  function Ch(x: Word, y: Word, z: Word): (r: Word) {
    ChBits(x as bv32, y as bv32, z as bv32) as int
  }

  function Maj(x: Word, y: Word, z: Word): (r: Word) {
    MajBits(x as bv32, y as bv32, z as bv32) as int
  }

  function BigSigma0(x: Word): (r: Word) {
    BigSigma0Bits(x as bv32) as int
  }

  function BigSigma1(x: Word): (r: Word) {
    BigSigma1Bits(x as bv32) as int
  }

  function Sigma0(x: Word): (r: Word) {
    Sigma0Bits(x as bv32) as int
  }

  function Sigma1(x: Word): (r: Word) {
    Sigma1Bits(x as bv32) as int
  }

  /** The words are those of the bit functions. */
  lemma WordBits(x: Word, y: Word, z: Word)
    ensures Ch(x, y, z) as bv32 == ChBits(x as bv32, y as bv32, z as bv32)
    ensures Maj(x, y, z) as bv32 == MajBits(x as bv32, y as bv32, z as bv32)
    ensures BigSigma0(x) as bv32 == BigSigma0Bits(x as bv32) && BigSigma1(x) as bv32 == BigSigma1Bits(x as bv32)
    ensures Sigma0(x) as bv32 == Sigma0Bits(x as bv32) && Sigma1(x) as bv32 == Sigma1Bits(x as bv32)
  {
    hide ChBits;
    hide MajBits;
    hide BigSigma0Bits;
    hide BigSigma1Bits;
    hide Sigma0Bits;
    hide Sigma1Bits;
  }

  /** The big-endian word at an offset of a block; the bytes that are put together have no bits in common. */
  function Load(block: seq<Byte>, i: nat): (w: Word)
    requires i + 4 <= |block|
  {
    var b0: int, b1: int, b2: int, b3: int := block[i], block[i + 1], block[i + 2], block[i + 3];
    b0 * 0x100_0000 + b1 * 0x1_0000 + b2 * 0x100 + b3
  }

  /** The message schedule W, all 64 words of it. */
  function Schedule(block: seq<Byte>, t: nat): (w: Word)
    requires |block| == 64
  {
    if t < 16 then Load(block, 4 * t)
    else Add(Add(Add(Sigma1(Schedule(block, t - 2)), Schedule(block, t - 7)), Sigma0(Schedule(block, t - 15))),
             Schedule(block, t - 16))
  }

  function T1(r: Regs, k: Word, w: Word): (t: Word) {
    Add(Add(Add(Add(r.h, BigSigma1(r.e)), Ch(r.e, r.f, r.g)), k), w)
  }

  function T2(r: Regs): (t: Word) {
    Add(BigSigma0(r.a), Maj(r.a, r.b, r.c))
  }

  function Round(r: Regs, k: Word, w: Word): (s: Regs) {
    Regs(Add(T1(r, k, w), T2(r)), r.a, r.b, r.c, Add(r.d, T1(r, k, w)), r.e, r.f, r.g)
  }

  /** The working variables after `t` rounds. */
  function Rounds(block: seq<Byte>, r: Regs, t: nat): (s: Regs)
    requires |block| == 64 && t <= 64
  {
    if t == 0 then r else Round(Rounds(block, r, t - 1), K256[t - 1], Schedule(block, t - 1))
  }

  function Sum(r: Regs, s: Regs): (u: Regs) {
    Regs(Add(r.a, s.a), Add(r.b, s.b), Add(r.c, s.c), Add(r.d, s.d),
         Add(r.e, s.e), Add(r.f, s.f), Add(r.g, s.g), Add(r.h, s.h))
  }

  /** The hash value after a block. */
  function Compress(r: Regs, block: seq<Byte>): (s: Regs) {
    if |block| != 64 then r else Sum(r, Rounds(block, r, 64))
  }

  /** The window holds the last sixteen words of the schedule before word `j`. */
  ghost predicate Window(w: seq<Word>, block: seq<Byte>, j: nat)
    requires |w| == 16 && |block| == 64
  {
    forall t :: 0 <= t < j && j - 16 <= t ==> w[t % 16] == Schedule(block, t)
  }

  lemma WindowStep(w: seq<Word>, w': seq<Word>, block: seq<Byte>, j: nat)
    requires |w| == 16 && |block| == 64 && Window(w, block, j) && w' == w[j % 16 := Schedule(block, j)]
    ensures Window(w', block, j + 1)
  {
    hide Schedule;
    forall t | 0 <= t < j + 1 && j - 15 <= t
      ensures w'[t % 16] == Schedule(block, t)
    {
      assert t < j ==> t % 16 != j % 16;
    }
  }

  lemma WindowNext(w: seq<Word>, block: seq<Byte>, j: nat)
    requires |w| == 16 && |block| == 64 && Window(w, block, j) && j >= 16
    ensures Add(w[j % 16], Add(Add(Sigma1(w[(j + 14) % 16]), w[(j + 9) % 16]), Sigma0(w[(j + 1) % 16]))) == Schedule(block, j)
  {
    hide Add;
    hide Ch;
    hide Maj;
    hide BigSigma0;
    hide BigSigma1;
    hide Sigma0;
    hide Sigma1;
    hide Load;
    assert (j - 2) % 16 == (j + 14) % 16 && (j - 7) % 16 == (j + 9) % 16;
    assert (j - 15) % 16 == (j + 1) % 16 && (j - 16) % 16 == j % 16;
    AddCommutative(w[j % 16], Add(Add(Sigma1(w[(j + 14) % 16]), w[(j + 9) % 16]), Sigma0(w[(j + 1) % 16])));
  }

  /** The next word of the schedule, loaded from the block or computed in the window. */
  method Expand(j: nat, w: array<Word>, block: seq<Byte>)
    requires |block| == 64 && w.Length == 16 && Window(w[..], block, j) && j < 64
    modifies w
    ensures Window(w[..], block, j + 1) && w[j % 16] == Schedule(block, j)
  {
    hide Add;
    hide Ch;
    hide Maj;
    hide BigSigma0;
    hide BigSigma1;
    hide Sigma0;
    hide Sigma1;
    hide Load;
    hide Window;
    ghost var old_w := w[..];
    if j < 16 {
      w[j] := Load(block, 4 * j);
    } else {
      WindowNext(w[..], block, j);
      var s0 := Sigma0(w[(j + 1) % 16]);
      var s1 := Sigma1(w[(j + 14) % 16]);
      w[j % 16] := Add(w[j % 16], Add(Add(s1, w[(j + 9) % 16]), s0));
    }
    assert w[..] == old_w[j % 16 := Schedule(block, j)];
    WindowStep(old_w, w[..], block, j);
  }

  /** ROUND256_0_TO_15 and ROUND256: the registers keep their places and two of them change. */
  method RotatedRound(j: nat, w: array<Word>, block: seq<Byte>, ghost state: Regs,
                      a: Word, b: Word, c: Word, d: Word, e: Word, f: Word, g: Word, h: Word) returns (d': Word, h': Word)
    requires |block| == 64 && j < 64 && w.Length == 16 && Window(w[..], block, j)
    requires Regs(a, b, c, d, e, f, g, h) == Rounds(block, state, j)
    modifies w
    ensures Regs(h', a, b, c, d', e, f, g) == Rounds(block, state, j + 1) && Window(w[..], block, j + 1)
  {
    hide Add;
    hide Ch;
    hide Maj;
    hide BigSigma0;
    hide BigSigma1;
    hide Sigma0;
    hide Sigma1;
    hide Load;
    hide Window;
    hide Schedule;
    Expand(j, w, block);
    var t1 := Add(Add(Add(Add(h, BigSigma1(e)), Ch(e, f, g)), K256[j]), w[j % 16]);
    d' := Add(d, t1);
    h' := Add(Add(t1, BigSigma0(a)), Maj(a, b, c));
    AddAssociative(t1, BigSigma0(a), Maj(a, b, c));
  }

  /** SHA256Transform, plain loops. */
  method TransformLoop(state: Regs, block: seq<Byte>) returns (r: Regs)
    requires |block| == 64
    ensures r == Compress(state, block)
  {
    hide Add;
    hide Ch;
    hide Maj;
    hide BigSigma0;
    hide BigSigma1;
    hide Sigma0;
    hide Sigma1;
    hide Load;
    hide Schedule;
    hide Window;
    var a, b, c, d, e, f, g, h := state.a, state.b, state.c, state.d, state.e, state.f, state.g, state.h;
    var w := new Word[16](i => 0);
    WindowStart(w[..], block);
    var j := 0;
    while j < 64
      invariant j <= 64 && Regs(a, b, c, d, e, f, g, h) == Rounds(block, state, j) && Window(w[..], block, j)
    {
      Expand(j, w, block);
      var t1 := Add(Add(Add(Add(h, BigSigma1(e)), Ch(e, f, g)), K256[j]), w[j % 16]);
      var t2 := Add(BigSigma0(a), Maj(a, b, c));
      h := g;
      g := f;
      f := e;
      e := Add(d, t1);
      d := c;
      c := b;
      b := a;
      a := Add(t1, t2);
      j := j + 1;
    }
    r := Regs(Add(state.a, a), Add(state.b, b), Add(state.c, c), Add(state.d, d),
              Add(state.e, e), Add(state.f, f), Add(state.g, g), Add(state.h, h));
  }

  lemma RoundsStart(block: seq<Byte>, r: Regs)
    requires |block| == 64
    ensures Rounds(block, r, 0) == r
  {
  }

  lemma WindowStart(w: seq<Word>, block: seq<Byte>)
    requires |w| == 16 && |block| == 64
    ensures Window(w, block, 0)
  {
  }

  /** SHA256Transform, unrolled by eight rounds. */
  method TransformUnrolled(state: Regs, block: seq<Byte>) returns (r: Regs)
    requires |block| == 64
    ensures r == Compress(state, block)
  {
    hide Add;
    hide Ch;
    hide Maj;
    hide BigSigma0;
    hide BigSigma1;
    hide Sigma0;
    hide Sigma1;
    hide Load;
    hide Schedule;
    hide Window;
    hide Rounds;
    var a, b, c, d, e, f, g, h := state.a, state.b, state.c, state.d, state.e, state.f, state.g, state.h;
    var w := new Word[16](i => 0);
    WindowStart(w[..], block);
    RoundsStart(block, state);
    var j := 0;
    while j < 64
      invariant j <= 64 && j % 8 == 0 && Window(w[..], block, j)
      invariant Regs(a, b, c, d, e, f, g, h) == Rounds(block, state, j)
    {
      d, h := RotatedRound(j, w, block, state, a, b, c, d, e, f, g, h);
      c, g := RotatedRound(j + 1, w, block, state, h, a, b, c, d, e, f, g);
      b, f := RotatedRound(j + 2, w, block, state, g, h, a, b, c, d, e, f);
      a, e := RotatedRound(j + 3, w, block, state, f, g, h, a, b, c, d, e);
      h, d := RotatedRound(j + 4, w, block, state, e, f, g, h, a, b, c, d);
      g, c := RotatedRound(j + 5, w, block, state, d, e, f, g, h, a, b, c);
      f, b := RotatedRound(j + 6, w, block, state, c, d, e, f, g, h, a, b);
      e, a := RotatedRound(j + 7, w, block, state, b, c, d, e, f, g, h, a);
      j := j + 8;
    }
    r := Regs(Add(state.a, a), Add(state.b, b), Add(state.c, c), Add(state.d, d),
              Add(state.e, e), Add(state.f, f), Add(state.g, g), Add(state.h, h));
  }
}
