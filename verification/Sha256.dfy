/**
 SHA-256 of compat/sha2.c: the padding and the hash of a message as in FIPS 180-4.
 */
module Sha256 {
  import opened BlockFold
  import opened Sha256Transform

  function Zeros(n: nat): (r: seq<Byte>)
    ensures |r| == n
  {
    seq(n, i => 0)
  }

  /** The low `k` bytes of a number, big-endian. */
  function BigEndian(n: nat, k: nat): (r: seq<Byte>)
    ensures |r| == k
    decreases k
  {
    if k == 0 then [] else BigEndian(n / 256, k - 1) + [n % 256]
  }

  function Value(b: seq<Byte>): (n: nat) {
    if b == [] then 0 else Value(b[..|b| - 1]) * 256 + b[|b| - 1]
  }

  function Power256(k: nat): (n: nat) {
    if k == 0 then 1 else 256 * Power256(k - 1)
  }

  /** A number that fits is what its bytes say. */
  lemma {:induction false} BigEndianValue(n: nat, k: nat)
    requires n < Power256(k)
    ensures Value(BigEndian(n, k)) == n
    decreases k
  {
    if k > 0 {
      BigEndianValue(n / 256, k - 1);
      assert BigEndian(n, k)[..k - 1] == BigEndian(n / 256, k - 1);
    }
  }

  /** Higher bits do not show. */
  lemma {:induction false} BigEndianWraps(n: nat, c: nat, k: nat)
    ensures BigEndian(n + c * Power256(k), k) == BigEndian(n, k)
    decreases k
  {
    if k > 0 {
      var y := c * Power256(k - 1);
      assert c * Power256(k) == 256 * y;
      BigEndianWraps(n / 256, c, k - 1);
    }
  }

  lemma Power8()
    ensures Power256(8) == 0x1_0000_0000_0000_0000
  {
    assert Power256(4) == 0x1_0000_0000;
  }

  lemma Wrapped(n: nat)
    ensures BigEndian(n % 0x1_0000_0000_0000_0000, 8) == BigEndian(n, 8)
  {
    hide BigEndian;
    hide Power256;
    Power8();
    BigEndianWraps(n % 0x1_0000_0000_0000_0000, n / 0x1_0000_0000_0000_0000, 8);
  }

  /** BE_64_TO_8: the bytes by shifting. */
  function ShiftedBytes(n: nat): (r: seq<Byte>) {
    [n / 0x100_0000_0000_0000 % 256, n / 0x1_0000_0000_0000 % 256, n / 0x100_0000_0000 % 256, n / 0x1_0000_0000 % 256,
     n / 0x100_0000 % 256, n / 0x1_0000 % 256, n / 0x100 % 256, n % 256]
  }

  lemma EightBytes(n: nat)
    ensures ShiftedBytes(n) == BigEndian(n, 8)
  {
    var n1 := n / 0x100;
    var n2 := n1 / 0x100;
    var n3 := n2 / 0x100;
    var n4 := n3 / 0x100;
    var n5 := n4 / 0x100;
    var n6 := n5 / 0x100;
    var n7 := n6 / 0x100;
    assert BigEndian(n7, 1) == [n7 % 256];
    assert BigEndian(n6, 2) == [n7 % 256, n6 % 256];
    assert BigEndian(n4, 4) == [n7 % 256, n6 % 256, n5 % 256, n4 % 256];
    assert BigEndian(n2, 6) == [n7 % 256, n6 % 256, n5 % 256, n4 % 256, n3 % 256, n2 % 256];
    Shifts(n);
  }

  lemma Shifts(n: nat)
    ensures n / 0x100 / 0x100 == n / 0x1_0000 && n / 0x1_0000 / 0x100 == n / 0x100_0000
    ensures n / 0x100_0000 / 0x100 == n / 0x1_0000_0000 && n / 0x1_0000_0000 / 0x100 == n / 0x100_0000_0000
    ensures n / 0x100_0000_0000 / 0x100 == n / 0x1_0000_0000_0000
    ensures n / 0x1_0000_0000_0000 / 0x100 == n / 0x100_0000_0000_0000
  {
  }

  /** The number of zero bytes that bring a message and the 0x80 byte to 56 modulo 64. */
  function ZeroCount(len: nat): (k: nat)
    ensures k < 64 && (len + 1 + k) % 64 == 56
  {
    (119 - len % 64) % 64
  }

  /** Section 5.1.1 of FIPS 180-4, for messages of whole bytes. */
  function Padded(msg: seq<Byte>): (r: seq<Byte>) {
    msg + [0x80] + Zeros(ZeroCount(|msg|)) + BigEndian(8 * |msg|, 8)
  }

  /** The padding fills the last block, and ends with the length in bits if that has 64 bits or fewer. */
  lemma PaddedWhole(msg: seq<Byte>)
    ensures |Padded(msg)| % 64 == 0 && msg <= Padded(msg) && |Padded(msg)| - |msg| <= 72
    ensures |msg| < 0x2000_0000_0000_0000 ==> Value(Padded(msg)[|Padded(msg)| - 8..]) == 8 * |msg|
  {
    hide BigEndian;
    hide Value;
    assert Padded(msg)[|Padded(msg)| - 8..] == BigEndian(8 * |msg|, 8);
    if |msg| < 0x2000_0000_0000_0000 {
      Power8();
      BigEndianValue(8 * |msg|, 8);
    }
  }

  /** After the message comes one bit, and then zeros up to the length, as few as fill the block. */
  lemma PaddedBytes(msg: seq<Byte>)
    ensures |Padded(msg)| > |msg| && Padded(msg)[|msg|] == 0x80 && |Padded(msg)| - |msg| - 9 < 64
    ensures forall i :: |msg| < i < |Padded(msg)| - 8 ==> Padded(msg)[i] == 0
    ensures Padded(msg)[|Padded(msg)| - 8..] == BigEndian(8 * |msg|, 8)
  {
    hide BigEndian;
  }

  lemma LastByte(n: nat, k: nat)
    requires k > 0
    ensures BigEndian(n, k) == BigEndian(n / 256, k - 1) + [n % 256]
  {
  }

  lemma FourBytes(b0: int, b1: int, b2: int, b3: int)
    requires 0 <= b0 < 256 && 0 <= b1 < 256 && 0 <= b2 < 256 && 0 <= b3 < 256
    ensures var w := b0 * 0x100_0000 + b1 * 0x1_0000 + b2 * 0x100 + b3;
      w % 256 == b3 && w / 256 == b0 * 0x1_0000 + b1 * 0x100 + b2 && w / 256 % 256 == b2 &&
      w / 256 / 256 == b0 * 0x100 + b1 && w / 256 / 256 % 256 == b1 && w / 256 / 256 / 256 == b0
  {
  }

  /** Four bytes are those of the word that they load as. */
  lemma LoadStore(block: seq<Byte>, i: nat)
    requires i + 4 <= |block|
    ensures BigEndian(Load(block, i), 4) == block[i..i + 4]
  {
    hide BigEndian;
    var w := Load(block, i);
    FourBytes(block[i], block[i + 1], block[i + 2], block[i + 3]);
    LastByte(w, 4);
    LastByte(w / 256, 3);
    LastByte(w / 256 / 256, 2);
    LastByte(w / 256 / 256 / 256, 1);
    assert BigEndian(w / 256 / 256 / 256 / 256, 0) == [];
  }

  /** The chaining value after the whole blocks of a message. */
  function Chain(msg: seq<Byte>): (r: Regs) {
    Fold(Compress, 64, InitialHash, msg)
  }

  function Words(r: Regs): (s: seq<Word>)
    ensures |s| == 8
  {
    [r.a, r.b, r.c, r.d, r.e, r.f, r.g, r.h]
  }

  function Bytes(s: seq<Word>): (r: seq<Byte>)
    ensures |r| == 4 * |s|
  {
    if s == [] then [] else Bytes(s[..|s| - 1]) + BigEndian(s[|s| - 1], 4)
  }

  /** The digest of a message. */
  function Digest(msg: seq<Byte>): (r: seq<Byte>)
    ensures |r| == 32
  {
    Bytes(Words(Chain(Padded(msg))))
  }

  lemma StoreLoad(w: Word, s: seq<Byte>, i: nat)
    requires i + 4 <= |s| && s[i..i + 4] == BigEndian(w, 4)
    ensures Load(s, i) == w
  {
    hide BigEndian;
    LastByte(w, 4);
    LastByte(w / 256, 3);
    LastByte(w / 256 / 256, 2);
    LastByte(w / 256 / 256 / 256, 1);
    assert BigEndian(w / 256 / 256 / 256 / 256, 0) == [];
    var b := s[i..i + 4];
    assert s[i] == b[0] && s[i + 1] == b[1] && s[i + 2] == b[2] && s[i + 3] == b[3];
  }

  lemma {:induction false} BytesLoad(s: seq<Word>, k: nat)
    requires k < |s|
    ensures Load(Bytes(s), 4 * k) == s[k]
  {
    hide BigEndian;
    hide Load;
    var n := |s| - 1;
    var t := Bytes(s);
    if k < n {
      BytesLoad(s[..n], k);
      SameLoad(Bytes(s[..n]), t, 4 * k);
    } else {
      assert t[4 * k..4 * k + 4] == BigEndian(s[k], 4);
      StoreLoad(s[k], t, 4 * k);
    }
  }

  lemma SameLoad(a: seq<Byte>, b: seq<Byte>, i: nat)
    requires i + 4 <= |a| && a <= b
    ensures Load(a, i) == Load(b, i)
  {
  }

  /** The digest is the eight words of the hash value in order. */
  lemma DigestWords(msg: seq<Byte>)
    ensures var r, d := Chain(Padded(msg)), Digest(msg);
      Load(d, 0) == r.a && Load(d, 4) == r.b && Load(d, 8) == r.c && Load(d, 12) == r.d &&
      Load(d, 16) == r.e && Load(d, 20) == r.f && Load(d, 24) == r.g && Load(d, 28) == r.h
  {
    hide Chain;
    hide Padded;
    hide Load;
    hide Bytes;
    var w := Words(Chain(Padded(msg)));
    BytesLoad(w, 0);
    BytesLoad(w, 1);
    BytesLoad(w, 2);
    BytesLoad(w, 3);
    BytesLoad(w, 4);
    BytesLoad(w, 5);
    BytesLoad(w, 6);
    BytesLoad(w, 7);
  }
}
