/**
 Hashing a message block by block: the chaining value after its whole blocks, and the bytes that wait for more.
 */
module BlockFold {
  /** The chaining value after all whole blocks of `n` bytes. */
  function Fold<S, B>(f: (S, seq<B>) -> S, n: nat, s: S, msg: seq<B>): (r: S)
    requires n > 0
    decreases |msg|
  {
    if |msg| < n then s else Fold(f, n, f(s, msg[..n]), msg[n..])
  }

  /** What is left after the whole blocks. */
  function Rest<B>(n: nat, msg: seq<B>): (r: seq<B>)
    requires n > 0
    ensures |r| < n
  {
    if |msg| < n then msg else Rest(n, msg[n..])
  }

  /** A piece that does not complete a block waits. */
  lemma {:induction false} Wait<S, B>(f: (S, seq<B>) -> S, n: nat, s: S, msg: seq<B>, piece: seq<B>)
    requires n > 0 && |Rest(n, msg)| + |piece| < n
    ensures Fold(f, n, s, msg + piece) == Fold(f, n, s, msg) && Rest(n, msg + piece) == Rest(n, msg) + piece
    decreases |msg|
  {
    if |msg| >= n {
      Wait(f, n, f(s, msg[..n]), msg[n..], piece);
      assert (msg + piece)[..n] == msg[..n] && (msg + piece)[n..] == msg[n..] + piece;
    }
  }

  /** A piece that completes a block is hashed with what waited before it. */
  lemma {:induction false} Fill<S, B>(f: (S, seq<B>) -> S, n: nat, s: S, msg: seq<B>, piece: seq<B>)
    requires n > 0 && |Rest(n, msg)| + |piece| == n
    ensures Fold(f, n, s, msg + piece) == f(Fold(f, n, s, msg), Rest(n, msg) + piece) && Rest(n, msg + piece) == []
    decreases |msg|
  {
    if |msg| >= n {
      Fill(f, n, f(s, msg[..n]), msg[n..], piece);
      assert (msg + piece)[..n] == msg[..n] && (msg + piece)[n..] == msg[n..] + piece;
    } else {
      assert (msg + piece)[..n] == msg + piece;
    }
  }

  /** Copying a piece into a buffer. */
  method Copy<B>(buf: array<B>, at: nat, piece: seq<B>)
    requires at + |piece| <= buf.Length
    modifies buf
    ensures buf[..at] == old(buf[..at]) && buf[at..at + |piece|] == piece
    ensures buf[at + |piece|..] == old(buf[at + |piece|..])
  {
    for i := 0 to |piece|
      invariant buf[..at] == old(buf[..at]) && buf[at..at + i] == piece[..i] && buf[at + i..] == old(buf[at + i..])
    {
      buf[at + i] := piece[i];
    }
  }
}
