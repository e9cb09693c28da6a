/**
 SipHash of compat/siphash.c: the definition in "SipHash: a fast short-input PRF" (Aumasson and Bernstein, 2012)
 and the incremental form.
 */
module SipHash {
  import opened Common
  import opened BlockFold

  type Byte = x: int | 0 <= x < 256

  datatype State = State(v0: bv64, v1: bv64, v2: bv64, v3: bv64)
  datatype Key = Key(k0: bv64, k1: bv64)

  function Rotl(x: bv64, b: bv64): (r: bv64)
    requires b <= 64
  {
    (x << b) | (x >> (64 - b))
  }

  function Add(x: bv64, y: bv64): (r: bv64) {
    x + y
  }

  function Xor(x: bv64, y: bv64): (r: bv64) {
    x ^ y
  }

  /** One SipRound as the paper draws it: two half rounds, each of two parallel lanes. */
  function SipRound(s: State): (r: State) {
    var v0 := Add(s.v0, s.v1);
    var v1 := Xor(Rotl(s.v1, 13), v0);
    var w0 := Rotl(v0, 32);
    var v2 := Add(s.v2, s.v3);
    var v3 := Xor(Rotl(s.v3, 16), v2);
    var x0 := Add(w0, v3);
    var x3 := Xor(Rotl(v3, 21), x0);
    var w2 := Add(v2, v1);
    var x1 := Xor(Rotl(v1, 17), w2);
    State(x0, x1, Rotl(w2, 32), x3)
  }

  function SipRounds(n: nat, s: State): (r: State) {
    if n == 0 then s else SipRounds(n - 1, SipRound(s))
  }

  /** The little-endian word of eight bytes. */
  function Word(b: seq<Byte>): (w: bv64)
    requires |b| == 8
  {
    (b[0] as bv64) | (b[1] as bv64 << 8) | (b[2] as bv64 << 16) | (b[3] as bv64 << 24) |
    (b[4] as bv64 << 32) | (b[5] as bv64 << 40) | (b[6] as bv64 << 48) | (b[7] as bv64 << 56)
  }

  /** Compression of one message word with `rc` rounds. */
  function Compress(rc: nat, s: State, block: seq<Byte>): (r: State) {
    if |block| != 8 then s
    else
      var m := Word(block);
      var t := SipRounds(rc, s.(v3 := Xor(s.v3, m)));
      t.(v0 := Xor(t.v0, m))
  }

  function Initial(key: Key): (s: State) {
    State(Xor(0x736f6d6570736575, key.k0), Xor(0x646f72616e646f6d, key.k1), Xor(0x6c7967656e657261, key.k0),
          Xor(0x7465646279746573, key.k1))
  }

  function Zeros(n: nat): (r: seq<Byte>)
    ensures |r| == n
  {
    seq(n, i => 0)
  }

  /** The message, zeros, and its length modulo 256 in the last byte of the last word. */
  function Padded(msg: seq<Byte>): (r: seq<Byte>)
    ensures |r| % 8 == 0 && msg <= r && |r| - |msg| <= 8
  {
    msg + Zeros(7 - |msg| % 8) + [|msg| % 256]
  }

  /** After the message come zeros up to the last byte of a word, which holds the length modulo 256. */
  lemma PaddedBytes(msg: seq<Byte>)
    ensures var p := Padded(msg);
      |p| % 8 == 0 && |msg| < |p| <= |msg| + 8 && p[|p| - 1] == |msg| % 256 && p[..|msg|] == msg &&
      forall i :: |msg| <= i < |p| - 1 ==> p[i] == 0
  {
  }

  /** The state after the whole words of a message. */
  function Chain(key: Key, rc: nat, msg: seq<Byte>): (s: State) {
    Fold((s, b) => Compress(rc, s, b), 8, Initial(key), msg)
  }

  function Finalize(rf: nat, s: State): (r: bv64) {
    var t := SipRounds(rf, s.(v2 := Xor(s.v2, 0xff)));
    Xor(Xor(t.v0, t.v1), Xor(t.v2, t.v3))
  }

  /** SipHash-rc-rf of a message, in one go. */
  function Hash(key: Key, rc: nat, rf: nat, msg: seq<Byte>): (r: bv64) {
    Finalize(rf, Chain(key, rc, Padded(msg)))
  }

  /** 8 and 256 divide the modulus of the counter, so its wrapping does not show. */
  lemma Counter(n: nat, len: nat)
    ensures (n % 0x1_0000_0000 + len) % 0x1_0000_0000 == (n + len) % 0x1_0000_0000
    ensures n % 0x1_0000_0000 % 8 == n % 8 && n % 0x1_0000_0000 % 256 == n % 256
  {
    CounterSum(n / 0x1_0000_0000, n % 0x1_0000_0000 + len);
    CounterLow(n / 0x1_0000_0000, n % 0x1_0000_0000);
  }

  lemma CounterSum(q: nat, x: nat)
    ensures (q * 0x1_0000_0000 + x) % 0x1_0000_0000 == x % 0x1_0000_0000
  {
  }

  lemma CounterLow(q: nat, r: nat)
    ensures (q * 0x1_0000_0000 + r) % 8 == r % 8 && (q * 0x1_0000_0000 + r) % 256 == r % 256
  {
  }

  lemma PaddedPiece(msg: seq<Byte>)
    ensures msg + (Zeros(7 - |msg| % 8) + [|msg| % 256]) == Padded(msg)
  {
  }

  lemma {:induction false} RestLength<B>(msg: seq<B>)
    ensures |Rest(8, msg)| == |msg| % 8
    decreases |msg|
  {
    if |msg| >= 8 { RestLength(msg[8..]); }
  }

  lemma ChainWait(key: Key, rc: nat, msg: seq<Byte>, piece: seq<Byte>)
    requires |Rest(8, msg)| + |piece| < 8
    ensures Chain(key, rc, msg + piece) == Chain(key, rc, msg) && Rest(8, msg + piece) == Rest(8, msg) + piece
  {
    Wait((s, b) => Compress(rc, s, b), 8, Initial(key), msg, piece);
  }

  lemma ChainFill(key: Key, rc: nat, msg: seq<Byte>, piece: seq<Byte>)
    requires |Rest(8, msg)| + |piece| == 8
    ensures Chain(key, rc, msg + piece) == Compress(rc, Chain(key, rc, msg), Rest(8, msg) + piece)
    ensures Rest(8, msg + piece) == []
  {
    Fill((s, b) => Compress(rc, s, b), 8, Initial(key), msg, piece);
  }

  lemma {:induction false} RoundsLast(n: nat, s: State)
    ensures SipRounds(n + 1, s) == SipRound(SipRounds(n, s))
  {
    if n > 0 { RoundsLast(n - 1, SipRound(s)); }
  }

  class Context {
    var v: State
    const buf: array<Byte>
    var bytes: nat
    ghost const key: Key
    ghost const rc: nat
    ghost var msg: seq<Byte>

    ghost predicate Shape() {
      buf.Length == 8
    }

    /** The state stands for the whole words of `m`, and the buffer holds what is left of it. */
    ghost predicate Absorbed(m: seq<Byte>)
      requires Shape()
      reads this, buf
    {
      v == Chain(key, rc, m) && buf[..|Rest(8, m)|] == Rest(8, m)
    }

    /** The byte counter has 32 bits and wraps. */
    ghost predicate Valid()
      reads this, buf
    {
      Shape() && Absorbed(msg) && bytes == |msg| % 0x1_0000_0000
    }

    /** SipHash_Init */
    constructor (k: Key, ghost rounds: nat)
      ensures Valid() && msg == [] && key == k && rc == rounds && fresh(buf)
    {
      v := Initial(k);
      buf := new Byte[8](i => 0);
      bytes := 0;
      msg := [];
      key := k;
      rc := rounds;
    }

    /** SipHash_Rounds: the interleaved order of the steps is a SipRound. */
    method Rounds(rounds: nat)
      modifies `v
      ensures v == SipRounds(rounds, old(v))
    {
      hide Rotl;
      hide Add;
      hide Xor;
      var i := 0;
      while i < rounds
        invariant i <= rounds && v == SipRounds(i, old(v))
      {
        RoundsLast(i, old(v));
        Round();
        i := i + 1;
      }
    }

    method Round()
      modifies `v
      ensures v == SipRound(old(v))
    {
      hide Rotl;
      hide Add;
      hide Xor;
      v := v.(v0 := Add(v.v0, v.v1));
      v := v.(v2 := Add(v.v2, v.v3));
      v := v.(v1 := Rotl(v.v1, 13));
      v := v.(v3 := Rotl(v.v3, 16));

      v := v.(v1 := Xor(v.v1, v.v0));
      v := v.(v3 := Xor(v.v3, v.v2));
      v := v.(v0 := Rotl(v.v0, 32));

      v := v.(v2 := Add(v.v2, v.v1));
      v := v.(v0 := Add(v.v0, v.v3));
      v := v.(v1 := Rotl(v.v1, 17));
      v := v.(v3 := Rotl(v.v3, 21));

      v := v.(v1 := Xor(v.v1, v.v2));
      v := v.(v3 := Xor(v.v3, v.v0));
      v := v.(v2 := Rotl(v.v2, 32));
    }

    /** SipHash_CRounds */
    method CRounds(rounds: nat)
      requires Shape()
      modifies `v
      ensures v == Compress(rounds, old(v), buf[..])
    {
      hide SipRounds;
      hide Word;
      hide Xor;
      var m := Word(buf[..]);
      v := v.(v3 := Xor(v.v3, m));
      Rounds(rounds);
      v := v.(v0 := Xor(v.v0, m));
    }

    /** Copies in a piece that completes a word, and compresses the word. */
    method Complete(ghost m: seq<Byte>, used: nat, piece: seq<Byte>, rounds: nat)
      requires Shape() && Absorbed(m) && used == |Rest(8, m)| && used + |piece| == 8 && rounds == rc
      modifies `v, buf
      ensures Absorbed(m + piece) && Rest(8, m + piece) == []
    {
      hide Compress;
      hide Rest;
      hide Chain;
      Copy(buf, used, piece);
      assert buf[..] == buf[..used] + buf[used..used + |piece|];
      CRounds(rounds);
      ChainFill(key, rc, m, piece);
    }

    /** Copies in a piece that does not complete a word. */
    method Keep(ghost m: seq<Byte>, used: nat, piece: seq<Byte>)
      requires Shape() && Absorbed(m) && used == |Rest(8, m)| && used + |piece| < 8
      modifies buf
      ensures Absorbed(m + piece)
    {
      hide Compress;
      hide Rest;
      hide Chain;
      Copy(buf, used, piece);
      assert buf[..used + |piece|] == buf[..used] + buf[used..used + |piece|];
      ChainWait(key, rc, m, piece);
    }

    /** SipHash_Update */
    method Update(rounds: nat, src: seq<Byte>)
      requires Valid() && rounds == rc
      modifies this, buf
      ensures Valid() && msg == old(msg) + src
    {
      hide Compress;
      hide Rest;
      hide Chain;
      ghost var m := msg;
      RestLength(m);
      Counter(|m|, |src|);
      msg := msg + src;
      if |src| == 0 {
        assert msg == m;
        return;
      }
      var used := bytes % 8;
      bytes := (bytes + |src|) % 0x1_0000_0000;
      var ptr := 0;
      assert m + src[..ptr] == m;
      if used > 0 {
        var left := 8 - used;
        if |src| >= left {
          Complete(m, used, src[..left], rounds);
          ptr := left;
        } else {
          Keep(m, used, src);
          return;
        }
      }
      Words(m, src, ptr, rounds);
    }

    /** The whole words of the rest of a piece, and what is then left of it. */
    method Words(ghost m: seq<Byte>, src: seq<Byte>, start: nat, rounds: nat)
      requires Shape() && start <= |src| && Absorbed(m + src[..start]) && Rest(8, m + src[..start]) == [] && rounds == rc
      modifies `v, buf
      ensures Absorbed(m + src)
    {
      hide Compress;
      hide Rest;
      hide Chain;
      var ptr := start;
      while |src| - ptr >= 8
        invariant ptr <= |src| && Absorbed(m + src[..ptr]) && Rest(8, m + src[..ptr]) == []
      {
        Complete(m + src[..ptr], 0, src[ptr..ptr + 8], rounds);
        assert m + src[..ptr] + src[ptr..ptr + 8] == m + src[..ptr + 8];
        ptr := ptr + 8;
      }
      Keep(m + src[..ptr], 0, src[ptr..]);
      assert m + src[..ptr] + src[ptr..] == m + src;
    }

    /** SipHash_End */
    method End(rounds: nat, final: nat) returns (r: bv64)
      requires Valid() && rounds == rc
      modifies this, buf
      ensures r == Hash(key, rc, final, old(msg))
    {
      hide Chain;
      hide Rest;
      hide Padded;
      hide Finalize;
      RestLength(msg);
      Counter(|msg|, 0);
      PaddedPiece(msg);
      var used := bytes % 8;
      var left := 8 - used;
      Complete(msg, used, Zeros(left - 1) + [bytes % 256], rounds);
      r := Finish(final);
    }

    method Finish(final: nat) returns (r: bv64)
      modifies `v
      ensures r == Finalize(final, old(v))
    {
      hide SipRounds;
      hide Xor;
      v := v.(v2 := Xor(v.v2, 0xff));
      Rounds(final);
      r := Xor(Xor(v.v0, v.v1), Xor(v.v2, v.v3));
    }
  }

  /** Any split into updates gives the hash of the whole. */
  method HashPieces(key: Key, rc: nat, rf: nat, pieces: seq<seq<Byte>>) returns (r: bv64)
    ensures r == Hash(key, rc, rf, Concat(pieces))
  {
    hide Hash;
    var ctx := new Context(key, rc);
    for i := 0 to |pieces|
      invariant ctx.Valid() && fresh(ctx) && fresh(ctx.buf) && ctx.key == key && ctx.rc == rc
      invariant ctx.msg == Concat(pieces[..i])
    {
      ctx.Update(rc, pieces[i]);
      assert pieces[..i + 1][..i] == pieces[..i];
    }
    assert pieces[..|pieces|] == pieces;
    r := ctx.End(rc, rf);
  }
}
