/**
 The ibuf cursor operations of compat/imsg-buffer.c and the write queue built from ibufs.
 An ibuf is a value here; the lists hold ibufs and are reassigned by their owner.
 */
module IbufOps {
  import opened Common
  import opened ImsgWire

  const ON_STACK: int := -2
  const SIZE_MAX: nat := 0xFFFF_FFFF_FFFF_FFFF
  const IOV_MAX: nat := 1024

  datatype Ibuf = Ibuf(buf: bytes, max: nat, wpos: nat, rpos: nat, fd: int)

  predicate Valid(b: Ibuf) {
    b.rpos <= b.wpos <= |b.buf| <= SIZE_MAX && (b.fd != ON_STACK ==> |b.buf| <= b.max)
  }

  /** ibuf_data() and ibuf_size(): the bytes between the cursors. */
  function Data(b: Ibuf): (d: bytes)
    requires Valid(b)
    ensures |d| == Size(b)
  {
    b.buf[b.rpos..b.wpos]
  }

  function Size(b: Ibuf): nat
    requires Valid(b)
  {
    b.wpos - b.rpos
  }

  /** ibuf_left() */
  function Left(b: Ibuf): nat
    requires Valid(b)
  {
    if b.fd == ON_STACK then 0 else b.max - b.wpos
  }

  function Zeros(n: nat): (z: bytes)
    ensures |z| == n
  {
    seq(n, _ => 0)
  }

  /** ibuf_open() */
  function Open(len: nat): (b: Ibuf)
    requires len <= SIZE_MAX
    ensures Valid(b) && Data(b) == [] && Left(b) == len && b.fd == -1
  {
    Ibuf(Zeros(len), len, 0, 0, -1)
  }

  /** ibuf_dynamic() */
  function Dynamic(len: nat, max: nat): (r: Option<Ibuf>)
    requires len <= SIZE_MAX
    ensures r.None? <==> max == 0 || max < len
    ensures r.Some? ==> Valid(r.value) && Data(r.value) == [] && Left(r.value) == max && r.value.fd == -1
  {
    if max == 0 || max < len then None else Some(Ibuf(Zeros(len), max, 0, 0, -1))
  }

  /** ibuf_from_buffer() */
  function FromBuffer(data: bytes): (b: Ibuf)
    requires |data| <= SIZE_MAX
    ensures Valid(b) && Data(b) == data
  {
    Ibuf(data, 0, |data|, 0, ON_STACK)
  }

  function Overwrite(buf: bytes, at: nat, data: bytes): (r: bytes)
    requires at + |data| <= |buf|
    ensures |r| == |buf| && r[at..at + |data|] == data && r[..at] == buf[..at] && r[at + |data|..] == buf[at + |data|..]
  {
    buf[..at] + data + buf[at + |data|..]
  }

  /** ibuf_add(): fails on a stack buffer or past the maximum, otherwise appends. */
  function Add(b: Ibuf, data: bytes): (r: Option<Ibuf>)
    requires Valid(b)
    ensures r.Some? <==> b.fd != ON_STACK && |data| <= SIZE_MAX - b.wpos && b.wpos + |data| <= b.max
    ensures r.Some? ==> Valid(r.value) && Data(r.value) == Data(b) + data && r.value.fd == b.fd
    ensures r.Some? ==> r.value.max == b.max && r.value.rpos == b.rpos && Left(r.value) == Left(b) - |data|
  {
    if |data| > SIZE_MAX - b.wpos || b.fd == ON_STACK then None
    else if b.wpos + |data| > |b.buf| then
      if b.wpos + |data| > b.max then None
      else
        var nb := b.buf + Zeros(b.wpos + |data| - |b.buf|);
        Some(b.(buf := Overwrite(nb, b.wpos, data), wpos := b.wpos + |data|))
    else Some(b.(buf := Overwrite(b.buf, b.wpos, data), wpos := b.wpos + |data|))
  }

  /** ibuf_set(): only between the cursors. */
  function Set(b: Ibuf, pos: nat, data: bytes): (r: Option<Ibuf>)
    requires Valid(b)
    ensures r.Some? <==> pos + |data| <= Size(b)
    ensures r.Some? ==> Valid(r.value) && r.value.(buf := b.buf) == b
    ensures r.Some? ==> Data(r.value) == Data(b)[..pos] + data + Data(b)[pos + |data|..]
  {
    if Size(b) < pos || SIZE_MAX - pos < |data| || Size(b) < pos + |data| then None
    else
      var nb := Overwrite(b.buf, b.rpos + pos, data);
      var r := Some(b.(buf := nb));
      SetData(b, pos, data);
      r
  }

  lemma SetData(b: Ibuf, pos: nat, data: bytes)
    requires Valid(b) && pos + |data| <= Size(b)
    ensures Overwrite(b.buf, b.rpos + pos, data)[b.rpos..b.wpos] == Data(b)[..pos] + data + Data(b)[pos + |data|..]
  {
    var at, end := b.rpos + pos, b.rpos + pos + |data|;
    Middle(b.buf[..at], data, b.buf[end..], b.rpos, b.wpos);
    assert b.buf[..at][b.rpos..] == Data(b)[..pos];
    assert b.buf[end..][..b.wpos - end] == Data(b)[pos + |data|..];
  }

  lemma Middle(a: bytes, d: bytes, c: bytes, lo: nat, hi: nat)
    requires lo <= |a| && |a| + |d| <= hi <= |a| + |d| + |c|
    ensures (a + d + c)[lo..hi] == a[lo..] + d + c[..hi - |a| - |d|]
  {
  }

  /** ibuf_get(): the next `len` bytes, or failure if there are fewer. */
  function Get(b: Ibuf, len: nat): (r: Option<(Ibuf, bytes)>)
    requires Valid(b)
    ensures r.Some? <==> len <= Size(b)
    ensures r.Some? ==> Valid(r.value.0) && r.value.1 + Data(r.value.0) == Data(b) && |r.value.1| == len
    ensures r.Some? ==> r.value.0 == b.(rpos := b.rpos + len)
  {
    if Size(b) < len then None else Some((b.(rpos := b.rpos + len), b.buf[b.rpos..b.rpos + len]))
  }

  // ---------- the write queue ----------

  /** A queued ibuf is never a stack buffer. */
  ghost predicate ValidQueue(q: seq<Ibuf>) {
    forall i :: 0 <= i < |q| ==> Valid(q[i]) && q[i].fd >= -1
  }

  /** The bytes still to be sent. */
  function Pending(q: seq<Ibuf>): bytes
    requires ValidQueue(q)
  {
    if q == [] then [] else Data(q[0]) + Pending(q[1..])
  }

  /** The descriptors that the queued ibufs own. */
  function Fds(q: seq<Ibuf>): seq<int> {
    if q == [] then [] else FdOf(q[0]) + Fds(q[1..])
  }

  function FdSeq(fd: int): seq<int> {
    if fd >= 0 then [fd] else []
  }

  function FdOf(b: Ibuf): seq<int> {
    if b.fd >= 0 then [b.fd] else []
  }

  /** What msgbuf_drain() leaves of the queue. */
  function Drained(q: seq<Ibuf>, n: nat): (r: seq<Ibuf>)
    requires ValidQueue(q)
    ensures ValidQueue(r)
  {
    if q == [] || n == 0 then q
    else if n >= Size(q[0]) then Drained(q[1..], n - Size(q[0]))
    else [q[0].(rpos := q[0].rpos + n)] + q[1..]
  }

  /** The descriptors of the ibufs that msgbuf_drain() takes off the queue. */
  function DroppedFds(q: seq<Ibuf>, n: nat): seq<int>
    requires ValidQueue(q)
  {
    if q == [] || n == 0 then []
    else if n >= Size(q[0]) then FdOf(q[0]) + DroppedFds(q[1..], n - Size(q[0]))
    else []
  }

  lemma Concat3(a: bytes, b: bytes, c: bytes)
    ensures a + (b + c) == (a + b) + c
  {
  }

  lemma {:induction false} PendingAppend(q: seq<Ibuf>, r: seq<Ibuf>)
    requires ValidQueue(q) && ValidQueue(r)
    ensures ValidQueue(q + r) && Pending(q + r) == Pending(q) + Pending(r)
  {
    hide Data;
    hide Valid;
    ValidAppend(q, r);
    if q == [] {
      assert q + r == r && [] + Pending(r) == Pending(r);
    } else {
      assert (q + r)[1..] == q[1..] + r && (q + r)[0] == q[0];
      PendingAppend(q[1..], r);
      Concat3(Data(q[0]), Pending(q[1..]), Pending(r));
    }
  }

  lemma ValidAppend(q: seq<Ibuf>, r: seq<Ibuf>)
    ensures ValidQueue(q + r) <==> ValidQueue(q) && ValidQueue(r)
  {
    if ValidQueue(q + r) {
      assert forall i :: 0 <= i < |q| ==> (q + r)[i] == q[i];
      assert forall i :: 0 <= i < |r| ==> (q + r)[|q| + i] == r[i];
    }
  }

  /** Draining n bytes drops exactly the first n pending bytes. */
  lemma {:induction false} PendingDrained(q: seq<Ibuf>, n: nat)
    requires ValidQueue(q) && n <= |Pending(q)|
    ensures Pending(Drained(q, n)) == Pending(q)[n..]
  {
    if q == [] || n == 0 {
    } else if n >= Size(q[0]) {
      PendingDrained(q[1..], n - Size(q[0]));
    } else {
      assert Drained(q, n)[1..] == q[1..];
      assert Data(q[0].(rpos := q[0].rpos + n)) == Data(q[0])[n..];
    }
  }

  lemma {:induction false} FdsAppend(q: seq<Ibuf>, r: seq<Ibuf>)
    ensures Fds(q + r) == Fds(q) + Fds(r)
  {
    if q == [] {
      assert q + r == r;
    } else {
      assert (q + r)[1..] == q[1..] + r;
      FdsAppend(q[1..], r);
    }
  }

  /** The dropped ibufs take their descriptors with them; the others keep theirs. */
  lemma SameFd(a: Ibuf, b: Ibuf)
    requires a.fd == b.fd
    ensures FdOf(a) == FdOf(b)
  {
  }

  lemma Join3(a: seq<int>, b: seq<int>, c: seq<int>)
    ensures a + (b + c) == a + b + c
  {
  }

  lemma {:induction false} FdsDrained(q: seq<Ibuf>, n: nat)
    requires ValidQueue(q)
    ensures Fds(q) == DroppedFds(q, n) + Fds(Drained(q, n))
  {
    hide FdOf;
    if q == [] || n == 0 {
      assert [] + Fds(q) == Fds(q);
    } else if n >= Size(q[0]) {
      var k := n - Size(q[0]);
      FdsDrained(q[1..], k);
      Join3(FdOf(q[0]), DroppedFds(q[1..], k), Fds(Drained(q[1..], k)));
    } else {
      var b := q[0].(rpos := q[0].rpos + n);
      assert FdOf(b) == FdOf(q[0]) by { SameFd(b, q[0]); }
      assert ([b] + q[1..])[1..] == q[1..];
    }
  }

  /** The ibufs at the end of the queue that hold no bytes. */
  function TrailingEmpty(q: seq<Ibuf>): (r: seq<Ibuf>)
    requires ValidQueue(q)
    ensures |r| <= |q| && r == q[|q| - |r|..]
  {
    if q == [] then []
    else
      var t := TrailingEmpty(q[1..]);
      if |t| == |q| - 1 && Size(q[0]) == 0 then q else t
  }

  /** Sending every pending byte leaves exactly the empty ibufs at the end of the queue. */
  lemma {:induction false} DrainedAll(q: seq<Ibuf>)
    requires ValidQueue(q)
    ensures Drained(q, |Pending(q)|) == TrailingEmpty(q)
    ensures |Pending(q)| == 0 <==> |TrailingEmpty(q)| == |q|
  {
    if q != [] {
      DrainedAll(q[1..]);
    }
  }

  lemma {:induction false} TrailingEmptyLast(q: seq<Ibuf>)
    requires ValidQueue(q)
    ensures TrailingEmpty(q) == [] <==> q == [] || Size(q[|q| - 1]) > 0
  {
    if |q| > 1 {
      TrailingEmptyLast(q[1..]);
    }
  }

  /** Flushing everything empties the queue if and only if the last ibuf is not empty. */
  lemma FlushEmpties(q: seq<Ibuf>)
    requires ValidQueue(q)
    ensures Drained(q, |Pending(q)|) == [] <==> q == [] || Size(q[|q| - 1]) > 0
  {
    DrainedAll(q);
    TrailingEmptyLast(q);
  }

  /** The ibufs of one sendmsg(): a descriptor may only travel with the first of them. */
  function BatchFrom(q: seq<Ibuf>, i: nat): (k: nat)
    requires i <= |q|
    ensures i <= k <= |q|
    ensures forall j :: i <= j < k && 0 < j ==> q[j].fd == -1
    ensures i == 0 && q != [] ==> k > 0
    decreases |q| - i
  {
    if i >= |q| || i >= IOV_MAX || (i > 0 && q[i].fd != -1) then i else BatchFrom(q, i + 1)
  }

  /** Giving up the descriptor of the first ibuf leaves the pending bytes alone. */
  lemma PendingBare(q: seq<Ibuf>)
    requires ValidQueue(q) && q != []
    ensures var r := q[0 := q[0].(fd := -1)];
      ValidQueue(r) && Pending(r) == Pending(q) && Fds(q) == FdOf(q[0]) + Fds(r)
  {
    var r := q[0 := q[0].(fd := -1)];
    assert r[1..] == q[1..];
    assert Data(r[0]) == Data(q[0]);
  }

  lemma PendingSplit(q: seq<Ibuf>, k: nat)
    requires ValidQueue(q) && k <= |q|
    ensures ValidQueue(q[..k]) && ValidQueue(q[k..]) && Pending(q) == Pending(q[..k]) + Pending(q[k..])
  {
    hide Pending;
    hide Valid;
    assert q == q[..k] + q[k..];
    ValidAppend(q[..k], q[k..]);
    PendingAppend(q[..k], q[k..]);
  }

  ghost predicate NoneEmpty(q: seq<Ibuf>)
    requires ValidQueue(q)
  {
    forall i :: 0 <= i < |q| ==> Size(q[i]) > 0
  }

  /** The bytes that the next sendmsg() offers. */
  ghost function Offered(q: seq<Ibuf>): (b: bytes)
    requires ValidQueue(q)
  {
    PendingSplit(q, BatchFrom(q, 0));
    Pending(q[..BatchFrom(q, 0)])
  }

  /** Wherever a batch begins, it offers at least one byte. */
  ghost predicate Sends(q: seq<Ibuf>)
    requires ValidQueue(q)
  {
    q != [] ==> Offered(q) != [] && Sends(q[1..])
  }

  lemma OfferedHead(q: seq<Ibuf>)
    requires ValidQueue(q) && q != [] && Size(q[0]) > 0
    ensures Offered(q) != []
  {
    var k := BatchFrom(q, 0);
    assert q[..k][0] == q[0];
    assert Pending(q[..k]) == Data(q[0]) + Pending(q[..k][1..]);
  }

  lemma {:induction false} NoneEmptySends(q: seq<Ibuf>)
    requires ValidQueue(q) && NoneEmpty(q)
    ensures Sends(q)
  {
    if q != [] {
      OfferedHead(q);
      NoneEmptySends(q[1..]);
    }
  }

  /** Draining keeps every later batch as it is. */
  lemma {:induction false} DrainedSends(q: seq<Ibuf>, n: nat)
    requires ValidQueue(q) && Sends(q)
    ensures Sends(Drained(q, n))
  {
    hide Offered;
    if q == [] || n == 0 {
    } else if n >= Size(q[0]) {
      DrainedSends(q[1..], n - Size(q[0]));
    } else {
      var r := [q[0].(rpos := q[0].rpos + n)] + q[1..];
      assert r[1..] == q[1..];
      OfferedHead(r);
    }
  }

  lemma {:induction false} BatchBare(q: seq<Ibuf>, r: seq<Ibuf>, i: nat)
    requires |q| == |r| && q != [] && q[1..] == r[1..] && i <= |q|
    ensures BatchFrom(q, i) == BatchFrom(r, i)
    decreases |q| - i
  {
    if i < |q| {
      assert i > 0 ==> q[i] == q[1..][i - 1] && r[i] == r[1..][i - 1];
      BatchBare(q, r, i + 1);
    }
  }

  /** The queue after its first ibuf has given up its descriptor. */
  function Bare(q: seq<Ibuf>): (r: seq<Ibuf>)
    ensures |r| == |q|
  {
    if q == [] then [] else q[0 := q[0].(fd := -1)]
  }

  /** The queue after a sendmsg() that took n bytes. */
  ghost function Written(q: seq<Ibuf>, n: nat): (r: seq<Ibuf>)
    requires ValidQueue(q)
    ensures ValidQueue(r)
  {
    Drained(Bare(q), n)
  }

  /** The descriptor of the first ibuf makes no difference to what is sent. */
  lemma BareSends(q: seq<Ibuf>)
    requires ValidQueue(q)
    ensures ValidQueue(Bare(q)) && Offered(Bare(q)) == Offered(q) && (Sends(Bare(q)) <==> Sends(q))
  {
    if q != [] {
      var r := Bare(q);
      PendingBare(q);
      assert r[1..] == q[1..];
      BatchBare(q, r, 0);
      var k := BatchFrom(q, 0);
      PendingSplit(q, k);
      PendingBare(q[..k]);
      assert r[..k] == q[..k][0 := q[..k][0].(fd := -1)];
    }
  }

  /** A batch that begins one later ends no earlier. */
  lemma {:induction false} BatchTail(q: seq<Ibuf>, i: nat)
    requires q != [] && i < |q| && i < IOV_MAX
    ensures BatchFrom(q[1..], i) >= BatchFrom(q, i + 1) - 1
    decreases |q| - i
  {
    if i + 1 < |q| && i + 1 < IOV_MAX && q[i + 1].fd == -1 {
      assert q[1..][i] == q[i + 1];
      BatchTail(q, i + 1);
    }
  }

  lemma BatchHead(q: seq<Ibuf>)
    requires q != []
    ensures 0 < BatchFrom(q, 0) <= BatchFrom(q[1..], 0) + 1
  {
    BatchTail(q, 0);
  }

  lemma PendingCons(q: seq<Ibuf>)
    requires ValidQueue(q) && q != []
    ensures Pending(q) == Data(q[0]) + Pending(q[1..]) && |Data(q[0])| == Size(q[0])
  {
  }

  lemma OfferedTail(q: seq<Ibuf>)
    requires ValidQueue(q) && q != [] && Size(q[0]) == 0 && Offered(q) != []
    ensures Offered(q[1..]) != []
  {
    hide Pending;
    hide Data;
    hide BatchFrom;
    var k, l := BatchFrom(q, 0), BatchFrom(q[1..], 0);
    BatchHead(q);
    PendingSplit(q, k);
    PendingCons(q[..k]);
    assert q[..k][0] == q[0] && q[..k][1..] == q[1..k];
    PendingSplit(q[1..], l);
    PendingSplit(q[1..][..l], k - 1);
    assert q[1..][..l][..k - 1] == q[1..k];
  }

  /** One byte less: a batch without bytes further on stays where it is. */
  lemma {:induction false} DrainOne(q: seq<Ibuf>)
    requires ValidQueue(q) && Offered(q) != [] && !Sends(q)
    ensures !Sends(Drained(q, 1))
  {
    hide Offered;
    if Size(q[0]) == 0 {
      OfferedTail(q);
      DrainOne(q[1..]);
    } else if Size(q[0]) > 1 {
      assert Drained(q, 1)[1..] == q[1..];
    }
  }

  /** A write of as little as possible: one byte, or none if none is offered. */
  ghost function Slow(q: seq<Ibuf>): (n: nat)
    requires ValidQueue(q)
    ensures n <= |Offered(q)| && (Offered(q) != [] ==> n > 0)
  {
    if Offered(q) == [] then 0 else 1
  }

  /** If some batch has no bytes, such a write leaves it so, and the queue is not empty. */
  lemma SlowWrite(q: seq<Ibuf>)
    requires ValidQueue(q) && !Sends(q)
    ensures q != [] && !Sends(Written(q, Slow(q)))
  {
    hide Offered;
    BareSends(q);
    if Offered(q) != [] { DrainOne(Bare(q)); }
  }

  /** The queue after `k` such writes. */
  ghost function SlowQueue(q: seq<Ibuf>, k: nat): (r: seq<Ibuf>)
    requires ValidQueue(q)
    ensures ValidQueue(r)
    decreases k
  {
    if k == 0 then q else SlowQueue(Written(q, Slow(q)), k - 1)
  }

  /** If some batch has no bytes, writes that take a byte whenever one is offered can go on forever. */
  lemma {:induction false} NeverEnds(q: seq<Ibuf>, k: nat)
    requires ValidQueue(q) && !Sends(q)
    ensures SlowQueue(q, k) != []
    decreases k
  {
    SlowWrite(q);
    if k > 0 { NeverEnds(Written(q, Slow(q)), k - 1); }
  }

  /** When nothing is offered, a write takes nothing off the queue, and the next offers nothing either. */
  lemma WriteNothing(q: seq<Ibuf>)
    requires ValidQueue(q) && Offered(q) == []
    ensures Written(q, 0) == Bare(q) && Offered(Written(q, 0)) == []
  {
    hide Offered;
    BareSends(q);
  }

  /** Whether the ibufs from i to j can travel in one batch. */
  ghost predicate Together(q: seq<Ibuf>, i: nat, j: nat)
    requires j < |q|
  {
    j < i + IOV_MAX && forall l :: i < l <= j ==> q[l].fd == -1
  }

  /** Nothing is offered from position i: every ibuf that can travel with it in one batch is empty. */
  ghost predicate Blocked(q: seq<Ibuf>, i: nat)
    requires ValidQueue(q)
  {
    forall j :: i <= j < |q| && Together(q, i, j) ==> Size(q[j]) == 0
  }

  lemma {:induction false} BatchIs(q: seq<Ibuf>, i: nat, j: nat)
    requires i <= j && i <= |q|
    ensures j < BatchFrom(q, i) <==> j < |q| && j < IOV_MAX && forall l :: i <= l <= j && 0 < l ==> q[l].fd == -1
    decreases |q| - i
  {
    if i < |q| && i < IOV_MAX && !(i > 0 && q[i].fd != -1) && i < j {
      BatchIs(q, i + 1, j);
    }
  }

  lemma {:induction false} PendingNothing(q: seq<Ibuf>)
    requires ValidQueue(q)
    ensures Pending(q) == [] <==> forall j :: 0 <= j < |q| ==> Size(q[j]) == 0
  {
    if q != [] {
      PendingNothing(q[1..]);
      PendingCons(q);
      assert forall j :: 0 < j < |q| ==> q[j] == q[1..][j - 1];
    }
  }

  lemma OfferedNothing(q: seq<Ibuf>)
    requires ValidQueue(q)
    ensures Offered(q) == [] <==> Blocked(q, 0)
  {
    hide Pending;
    hide BatchFrom;
    var k := BatchFrom(q, 0);
    PendingSplit(q, k);
    PendingNothing(q[..k]);
    forall j | 0 <= j < |q| ensures Together(q, 0, j) <==> j < k {
      BatchIs(q, 0, j);
    }
    assert forall j :: 0 <= j < k ==> q[..k][j] == q[j];
  }

  lemma BlockedTail(q: seq<Ibuf>, i: nat)
    requires ValidQueue(q) && q != []
    ensures Blocked(q[1..], i) <==> Blocked(q, i + 1)
  {
    var t := q[1..];
    if Blocked(t, i) {
      forall j | i + 1 <= j < |q| && Together(q, i + 1, j) ensures Size(q[j]) == 0 {
        assert forall l :: i < l <= j - 1 ==> t[l] == q[l + 1];
        assert t[j - 1] == q[j] && Together(t, i, j - 1);
      }
    }
    if Blocked(q, i + 1) {
      forall j | i <= j < |t| && Together(t, i, j) ensures Size(t[j]) == 0 {
        assert forall l :: i + 1 < l <= j + 1 ==> q[l] == t[l - 1];
        assert q[j + 1] == t[j] && Together(q, i + 1, j + 1);
      }
    }
  }

  /** Every batch sends if and only if no position is blocked. */
  lemma {:induction false} SendsIff(q: seq<Ibuf>)
    requires ValidQueue(q)
    ensures Sends(q) <==> forall i :: 0 <= i < |q| ==> !Blocked(q, i)
  {
    hide Offered;
    hide Blocked;
    if q != [] {
      OfferedNothing(q);
      SendsIff(q[1..]);
      forall i: nat ensures Blocked(q[1..], i) <==> Blocked(q, i + 1) { BlockedTail(q, i); }
      assert forall i :: 0 < i < |q| ==> (Blocked(q, i) <==> Blocked(q[1..], i - 1));
    }
  }

  /** An empty ibuf at the end of the queue, or before one with a descriptor, is blocked. */
  lemma EmptyBlocks(q: seq<Ibuf>, i: nat)
    requires ValidQueue(q) && i < |q| && Size(q[i]) == 0 && (i + 1 == |q| || q[i + 1].fd != -1)
    ensures !Sends(q)
  {
    assert Blocked(q, i);
    SendsIff(q);
  }
}
