/**
 The SHA-256 context of compat/sha2.c: SHA256Init, SHA256Update, SHA256Pad and SHA256Final.
 */
module Sha256Context {
  import opened Common
  import opened BlockFold
  import opened Sha256Transform
  import opened Sha256

  lemma {:induction false} RestLength<B>(msg: seq<B>)
    ensures |Rest(64, msg)| == |msg| % 64
    decreases |msg|
  {
    if |msg| >= 64 { RestLength(msg[64..]); }
  }

  lemma ChainWait(msg: seq<Byte>, piece: seq<Byte>)
    requires |Rest(64, msg)| + |piece| < 64
    ensures Chain(msg + piece) == Chain(msg) && Rest(64, msg + piece) == Rest(64, msg) + piece
  {
    Wait(Compress, 64, InitialHash, msg, piece);
  }

  lemma ChainFill(msg: seq<Byte>, piece: seq<Byte>)
    requires |Rest(64, msg)| + |piece| == 64
    ensures Chain(msg + piece) == Compress(Chain(msg), Rest(64, msg) + piece) && Rest(64, msg + piece) == []
  {
    Fill(Compress, 64, InitialHash, msg, piece);
  }

  /** 64 blocks of 8 bits divide the modulus of the bit counter. */
  lemma UsedSpace(n: nat)
    ensures 8 * n % 0x1_0000_0000_0000_0000 / 8 % 64 == n % 64
  {
    var q, r := 8 * n / 0x1_0000_0000_0000_0000, 8 * n % 0x1_0000_0000_0000_0000;
    assert n == q * 0x2000_0000_0000_0000 + r / 8;
    assert n == 64 * (q * 0x80_0000_0000_0000 + r / 8 / 64) + r / 8 % 64;
  }

  lemma CountMore(n: nat, k: nat)
    ensures (8 * n % 0x1_0000_0000_0000_0000 + 8 * k) % 0x1_0000_0000_0000_0000 == 8 * (n + k) % 0x1_0000_0000_0000_0000
  {
    var q, r := 8 * n / 0x1_0000_0000_0000_0000, 8 * n % 0x1_0000_0000_0000_0000;
    var q', r' := (r + 8 * k) / 0x1_0000_0000_0000_0000, (r + 8 * k) % 0x1_0000_0000_0000_0000;
    assert 8 * (n + k) == (q + q') * 0x1_0000_0000_0000_0000 + r';
  }

  lemma Zeroes(a: nat, b: nat)
    ensures Zeros(a) + Zeros(b) == Zeros(a + b)
  {
  }

  lemma Join4<X>(a: seq<X>, b: seq<X>, c: seq<X>, d: seq<X>)
    ensures a + (b + c) + d == a + b + c + d
  {
  }

  lemma Join5<X>(a: seq<X>, b: seq<X>, c: seq<X>, d: seq<X>, e: seq<X>)
    ensures a + (b + c) + d + e == a + b + (c + d) + e
  {
  }

  lemma ZeroCounts(n: nat)
    ensures ZeroCount(n) == if n % 64 < 56 then 55 - n % 64 else 63 - n % 64 + 56
  {
  }

  /** The padding in one block, up to the length field. */
  lemma PaddedOne(msg: seq<Byte>, z: nat)
    requires ZeroCount(|msg|) == z
    ensures msg + ([0x80] + Zeros(z)) + BigEndian(8 * |msg|, 8) == Padded(msg)
  {
    Join4(msg, [0x80], Zeros(z), BigEndian(8 * |msg|, 8));
  }

  /** The padding in two blocks. */
  lemma PaddedTwo(msg: seq<Byte>, z: nat)
    requires ZeroCount(|msg|) == z + 56
    ensures msg + ([0x80] + Zeros(z)) + Zeros(56) + BigEndian(8 * |msg|, 8) == Padded(msg)
  {
    hide BigEndian;
    hide Zeros;
    hide ZeroCount;
    Zeroes(z, 56);
    Join5(msg, [0x80], Zeros(z), Zeros(56), BigEndian(8 * |msg|, 8));
  }

  class Context {
    var state: Regs
    const buffer: array<Byte>
    var bitcount: nat
    ghost var msg: seq<Byte>

    ghost predicate Absorbed(m: seq<Byte>)
      requires buffer.Length == 64
      reads this, buffer
    {
      state == Chain(m) && buffer[..|Rest(64, m)|] == Rest(64, m)
    }

    /** The bit counter has 64 bits and wraps. */
    ghost predicate Counted(m: seq<Byte>)
      reads `bitcount
    {
      bitcount == 8 * |m| % 0x1_0000_0000_0000_0000
    }

    ghost predicate Valid()
      reads this, buffer
    {
      buffer.Length == 64 && Absorbed(msg) && Counted(msg)
    }

    /** SHA256Init */
    constructor ()
      ensures Valid() && msg == [] && fresh(buffer)
    {
      state := InitialHash;
      buffer := new Byte[64](i => 0);
      bitcount := 0;
      msg := [];
    }

    /** Adding a number of bytes to the bit counter. */
    method Count(ghost m: seq<Byte>, ghost piece: seq<Byte>, len: nat)
      requires Counted(m) && len == |piece|
      modifies `bitcount
      ensures Counted(m + piece)
    {
      CountMore(|m|, len);
      bitcount := (bitcount + len * 8) % 0x1_0000_0000_0000_0000;
    }

    /** A piece that completes the block in the buffer. */
    method Complete(ghost m: seq<Byte>, used: nat, piece: seq<Byte>)
      requires buffer.Length == 64 && Absorbed(m) && used == |Rest(64, m)| && used + |piece| == 64
      modifies `state, buffer
      ensures Absorbed(m + piece) && Rest(64, m + piece) == []
    {
      hide Compress;
      hide Rest;
      hide Chain;
      Copy(buffer, used, piece);
      assert buffer[..] == buffer[..used] + buffer[used..used + |piece|];
      state := TransformUnrolled(state, buffer[..]);
      ChainFill(m, piece);
    }

    /** A piece that does not complete a block. */
    method Keep(ghost m: seq<Byte>, used: nat, piece: seq<Byte>)
      requires buffer.Length == 64 && Absorbed(m) && used == |Rest(64, m)| && used + |piece| < 64
      modifies buffer
      ensures Absorbed(m + piece)
    {
      hide Compress;
      hide Rest;
      hide Chain;
      Copy(buffer, used, piece);
      assert buffer[..used + |piece|] == buffer[..used] + buffer[used..used + |piece|];
      ChainWait(m, piece);
    }

    /** SHA256Update */
    method Update(src: seq<Byte>)
      requires Valid()
      modifies this, buffer
      ensures Valid() && msg == old(msg) + src
    {
      hide Compress;
      hide Rest;
      hide Chain;
      hide Counted;
      ghost var m := msg;
      Used(m);
      msg := msg + src;
      if |src| == 0 {
        assert msg == m;
        return;
      }
      var usedspace := bitcount / 8 % 64;
      var at := 0;
      assert m + src[..at] == m;
      if usedspace > 0 {
        var freespace := 64 - usedspace;
        if |src| >= freespace {
          Complete(m, usedspace, src[..freespace]);
          Count(m, src[..freespace], freespace);
          at := freespace;
        } else {
          Keep(m, usedspace, src);
          Count(m, src, |src|);
          return;
        }
      }
      Blocks(m, src, at);
    }

    lemma Used(m: seq<Byte>)
      requires Counted(m)
      ensures bitcount / 8 % 64 == |Rest(64, m)| == |m| % 64
    {
      RestLength(m);
      UsedSpace(|m|);
    }

    /** The whole blocks of the rest of a piece are hashed where they are; what is then left is kept. */
    method Blocks(ghost m: seq<Byte>, src: seq<Byte>, start: nat)
      requires buffer.Length == 64 && start <= |src| && Absorbed(m + src[..start]) && Counted(m + src[..start])
      requires Rest(64, m + src[..start]) == []
      modifies `state, `bitcount, buffer
      ensures Absorbed(m + src) && Counted(m + src)
    {
      hide Compress;
      hide Rest;
      hide Chain;
      hide Counted;
      var at := start;
      while |src| - at >= 64
        invariant at <= |src| && Absorbed(m + src[..at]) && Counted(m + src[..at]) && Rest(64, m + src[..at]) == []
      {
        ghost var before := m + src[..at];
        var block := src[at..at + 64];
        state := TransformUnrolled(state, block);
        ChainFill(before, block);
        assert [] + block == block;
        Count(before, block, 64);
        assert before + block == m + src[..at + 64];
        at := at + 64;
      }
      Keep(m + src[..at], 0, src[at..]);
      Count(m + src[..at], src[at..], |src| - at);
      assert m + src[..at] + src[at..] == m + src;
    }

    /** SHA256Pad: the state becomes the hash value of the padded message. */
    method Pad()
      requires Valid()
      modifies `state, buffer
      ensures state == Chain(Padded(msg))
    {
      hide Compress;
      hide Rest;
      hide Chain;
      hide Padded;
      hide BigEndian;
      hide Counted;
      hide ShiftedBytes;
      CountedWraps(msg);
      ghost var m, p := PadBuffer();
      ghost var last := p + BigEndian(bitcount, 8);
      EightBytes(bitcount);
      Copy(buffer, 56, ShiftedBytes(bitcount));
      assert buffer[..] == buffer[..56] + buffer[56..64];
      assert buffer[..] == Rest(64, m) + last;
      state := TransformUnrolled(state, buffer[..]);
      ChainFill(m, last);
      assert m + last == m + p + BigEndian(bitcount, 8);
    }

    lemma CountedWraps(m: seq<Byte>)
      requires Counted(m)
      ensures BigEndian(bitcount, 8) == BigEndian(8 * |m|, 8)
    {
      Wrapped(8 * |m|);
    }

    /** All of the padding but the length field; `m` is hashed or buffered, and `p` follows it in the buffer. */
    method PadBuffer() returns (ghost m: seq<Byte>, ghost p: seq<Byte>)
      requires Valid()
      modifies `state, buffer
      ensures state == Chain(m) && buffer[..56] == Rest(64, m) + p
      ensures m + p + BigEndian(8 * |msg|, 8) == Padded(msg)
    {
      hide Compress;
      hide Rest;
      hide Chain;
      hide Padded;
      hide BigEndian;
      hide Counted;
      hide Zeros;
      hide ZeroCount;
      Used(msg);
      ZeroCounts(|msg|);
      m := msg;
      ghost var rest := Rest(64, m);
      var usedspace := bitcount / 8 % 64;
      if usedspace > 0 {
        buffer[usedspace] := 0x80;
        usedspace := usedspace + 1;
        assert buffer[..usedspace] == rest + [0x80];
        if usedspace <= 56 {
          PaddedOne(msg, 56 - usedspace);
          p := [0x80] + Zeros(56 - usedspace);
          Copy(buffer, usedspace, Zeros(56 - usedspace));
          assert buffer[..56] == buffer[..usedspace] + buffer[usedspace..56];
        } else {
          PaddedTwo(msg, 64 - usedspace);
          m := SpareBlock(usedspace);
          p := Zeros(56);
        }
      } else {
        PaddedOne(msg, 55);
        p := [0x80] + Zeros(55);
        Copy(buffer, 0, Zeros(56));
        OneZero(buffer[..56]);
        buffer[0] := 0x80;
        assert buffer[..56] == [0x80] + buffer[1..56];
      }
    }

    lemma OneZero(b: seq<Byte>)
      requires b == Zeros(56)
      ensures b[1..] == Zeros(55)
    {
    }

    /** No room for the length: the block is hashed and another one begun. */
    method SpareBlock(usedspace: nat) returns (ghost m: seq<Byte>)
      requires buffer.Length == 64 && 56 < usedspace <= 64 && |Rest(64, msg)| == usedspace - 1
      requires state == Chain(msg) && buffer[..usedspace] == Rest(64, msg) + [0x80]
      modifies `state, buffer
      ensures m == msg + ([0x80] + Zeros(64 - usedspace)) && state == Chain(m) && Rest(64, m) == []
      ensures buffer[..56] == Zeros(56)
    {
      hide Compress;
      hide Rest;
      hide Chain;
      hide Zeros;
      ghost var p := [0x80] + Zeros(64 - usedspace);
      Copy(buffer, usedspace, Zeros(64 - usedspace));
      assert buffer[..] == buffer[..usedspace] + buffer[usedspace..64];
      assert buffer[..] == Rest(64, msg) + p;
      state := TransformUnrolled(state, buffer[..]);
      ChainFill(msg, p);
      m := msg + p;
      Copy(buffer, 0, Zeros(56));
    }

    /** SHA256Final */
    method Final(digest: array<Byte>)
      requires Valid() && digest.Length >= 32 && digest != buffer
      modifies this, buffer, digest
      ensures digest[..32] == Digest(old(msg))
      ensures digest[32..] == old(digest[32..])
    {
      hide Chain;
      hide Padded;
      hide BigEndian;
      ghost var m := msg;
      Pad();
      var words := Words(state);
      for i := 0 to 8
        invariant digest[..4 * i] == Bytes(words[..i]) && digest[32..] == old(digest[32..])
      {
        ghost var done := digest[..4 * i];
        Copy(digest, 4 * i, BigEndian(words[i], 4));
        assert digest[..4 * (i + 1)] == done + digest[4 * i..4 * i + 4];
        assert words[..i + 1][..i] == words[..i];
        assert digest[32..] == digest[4 * i + 4..][28 - 4 * i..];
      }
      assert words[..8] == words;
    }
  }

  /** Any split into updates gives the digest of the whole. */
  method DigestPieces(pieces: seq<seq<Byte>>) returns (r: seq<Byte>)
    ensures r == Digest(Concat(pieces))
  {
    hide Digest;
    var ctx := new Context();
    for i := 0 to |pieces|
      invariant ctx.Valid() && fresh(ctx) && fresh(ctx.buffer) && ctx.msg == Concat(pieces[..i])
    {
      ctx.Update(pieces[i]);
      assert pieces[..i + 1][..i] == pieces[..i];
    }
    assert pieces[..|pieces|] == pieces;
    var digest := new Byte[32](i => 0);
    ctx.Final(digest);
    r := digest[..32];
  }
}
