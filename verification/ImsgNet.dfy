/**
 An imsg channel as a pure machine: what every step of its two ends and of the stream between them does.  The write
 queue is a list of byte sequences with at most one descriptor each; cursors and buffers do not show.
 */
module ImsgNet {
  import opened Common
  import opened ImsgWire
  import opened IbufOps

  datatype Item = Item(data: bytes, fd: int)

  /** What an end can be asked to do, and how many bytes and which descriptor the system then moves. */
  datatype Step =
    | Compose(typ: uint32, id: uint32, pid: uint32, fd: int, data: bytes)
    | ComposeV(typ: uint32, id: uint32, pid: uint32, fd: int, iov: seq<bytes>)
    | ComposeIbuf(typ: uint32, id: uint32, pid: uint32, buf: Ibuf)
    | Write(taken: int)
    | Read(n: nat, take: bool)
    | Receive

  /** The limits of the two ends, the sender's process id, and whether the receiver takes descriptors. */
  datatype Ends = Ends(txMax: nat, pid: uint32, rxMax: nat, fdpass: bool)

  /** The sender's queue; the bytes and descriptors between the ends; the receiver's complete messages and the rest;
      and what has been composed, obtained, and which descriptors have arrived. */
  datatype Net = Net(queue: seq<Item>, wire: bytes, fds: seq<int>, raw: seq<bytes>, tail: bytes,
                     sent: seq<Sendable>, obtained: seq<Msg>, arrived: seq<int>)

  function Bytes(q: seq<Item>): (b: bytes) {
    if q == [] then [] else q[0].data + Bytes(q[1..])
  }

  /** How many items travel together: a descriptor only with the first. */
  function BatchOf(q: seq<Item>, i: nat): (k: nat)
    requires i <= |q|
    ensures i <= k <= |q|
    decreases |q| - i
  {
    if i >= |q| || i >= IOV_MAX || (i > 0 && q[i].fd != -1) then i else BatchOf(q, i + 1)
  }

  /** The queue without its first n bytes, and without the items that these use up. */
  function Sent(q: seq<Item>, n: nat): (r: seq<Item>) {
    if q == [] || n == 0 then q
    else if n >= |q[0].data| then Sent(q[1..], n - |q[0].data|)
    else [Item(q[0].data[n..], q[0].fd)] + q[1..]
  }

  function BareItems(q: seq<Item>): (r: seq<Item>) {
    if q == [] then q else q[0 := q[0].(fd := -1)]
  }

  function Min(a: nat, b: nat): (m: nat) {
    if a < b then a else b
  }

  /** The message that a step composes. */
  ghost function MsgOf(e: Ends, step: Step): (m: Option<Msg>) {
    match step
    case Compose(typ, id, pid, fd, data) => Some(Msg(typ, id, if pid == 0 then e.pid else pid, fd >= 0, data))
    case ComposeV(typ, id, pid, fd, iov) => Some(Msg(typ, id, if pid == 0 then e.pid else pid, fd >= 0, Concat(iov)))
    case ComposeIbuf(typ, id, pid, b) =>
      Some(Msg(typ, id, if pid == 0 then e.pid else pid, false, if Valid(b) then Data(b) else []))
    case _ => None
  }

  /** The message, unless it is too long. */
  ghost function AcceptedBy(e: Ends, step: Step): (ms: seq<Sendable>)
    requires e.txMax < FD_MARK
    ensures |ms| <= 1
  {
    match MsgOf(e, step)
    case None => []
    case Some(m) => if Fits(m, e.txMax) then [m] else []
  }

  /** What it adds to the queue. */
  ghost function QueuedBy(e: Ends, step: Step): (q: seq<Item>)
    requires e.txMax < FD_MARK
  {
    var ms := AcceptedBy(e, step);
    if ms == [] then []
    else
      match step
      case Compose(_, _, _, fd, _) => [Item(Encode(ms[0]), if fd >= 0 then fd else -1)]
      case ComposeV(_, _, _, fd, _) => [Item(Encode(ms[0]), if fd >= 0 then fd else -1)]
      case ComposeIbuf(_, _, _, b) => DecodeEncode(ms[0]); [Item(Encode(ms[0])[..HEADER_SIZE], -1), Item(ms[0].data, b.fd)]
      case _ => []
  }

  /** The descriptors that a step hands to the sender: that of an ibuf also if the message is refused. */
  ghost function GivenBy(e: Ends, step: Step): (fds: multiset<int>)
    requires e.txMax < FD_MARK
  {
    match step
    case Compose(_, _, _, fd, _) => multiset(if AcceptedBy(e, step) == [] then [] else FdSeq(fd))
    case ComposeV(_, _, _, fd, _) => multiset(if AcceptedBy(e, step) == [] then [] else FdSeq(fd))
    case ComposeIbuf(_, _, _, b) => multiset(FdOf(b))
    case _ => multiset{}
  }

  /** The bytes that a write offers, and how many of them a step of n moves. */
  function OfferedBytes(q: seq<Item>): (b: bytes) {
    Bytes(q[..BatchOf(q, 0)])
  }

  /** How much a read can take: the receiver's buffer holds what is left over of a header. */
  function Room(tail: bytes): (n: nat) {
    READ_SIZE - if |tail| < HEADER_SIZE then |tail| else 0
  }

  /** One step. */
  ghost function Next(e: Ends, s: Net, step: Step): (r: Net)
    requires e.txMax < FD_MARK
  {
    match step
    case Write(n) =>
      if n < 0 || s.queue == [] then s
      else
        var m := Min(n, |OfferedBytes(s.queue)|);
        s.(queue := Sent(BareItems(s.queue), m), wire := s.wire + OfferedBytes(s.queue)[..m],
           fds := s.fds + FdSeq(s.queue[0].fd))
    case Read(n, take) =>
      var k := Min(n, Min(|s.wire|, Room(s.tail)));
      var got := if take && e.fdpass then s.fds[..Min(1, |s.fds|)] else [];
      var p := Parse(e.rxMax, s.tail + s.wire[..k]);
      if k == 0 || p.Bad? then s
      else s.(wire := s.wire[k..], fds := s.fds[|got|..], raw := s.raw + p.msgs, tail := p.tail,
              arrived := s.arrived + got)
    case Receive =>
      if s.raw == [] || |s.raw[0]| < HEADER_SIZE then s
      else s.(raw := s.raw[1..], obtained := s.obtained + [Decode(s.raw[0])])
    case _ => s.(queue := s.queue + QueuedBy(e, step), sent := s.sent + AcceptedBy(e, step))
  }

  /** A run. */
  ghost function RunNet(e: Ends, s: Net, steps: seq<Step>): (r: Net)
    requires e.txMax < FD_MARK
    decreases |steps|
  {
    if steps == [] then s else Next(e, RunNet(e, s, steps[..|steps| - 1]), steps[|steps| - 1])
  }

  /** The messages composed in a run, those that are too long left out. */
  ghost function Accepted(e: Ends, steps: seq<Step>): (ms: seq<Sendable>)
    requires e.txMax < FD_MARK
  {
    if steps == [] then [] else Accepted(e, steps[..|steps| - 1]) + AcceptedBy(e, steps[|steps| - 1])
  }

  /** The descriptors handed to the sender in a run. */
  ghost function Given(e: Ends, steps: seq<Step>): (fds: multiset<int>)
    requires e.txMax < FD_MARK
  {
    if steps == [] then multiset{} else Given(e, steps[..|steps| - 1]) + GivenBy(e, steps[|steps| - 1])
  }

  lemma {:induction false} RunSent(e: Ends, s: Net, steps: seq<Step>)
    requires e.txMax < FD_MARK
    ensures RunNet(e, s, steps).sent == s.sent + Accepted(e, steps)
    decreases |steps|
  {
    hide Parse;
    hide Encode;
    if steps != [] {
      var front, last := steps[..|steps| - 1], steps[|steps| - 1];
      RunSent(e, s, front);
      assert s.sent + (Accepted(e, front) + AcceptedBy(e, last)) == s.sent + Accepted(e, front) + AcceptedBy(e, last);
    }
  }

  // ---------- the queue of ibufs as items ----------

  ghost function Items(q: seq<Ibuf>): (r: seq<Item>)
    requires ValidQueue(q)
    ensures |r| == |q|
  {
    seq(|q|, i requires 0 <= i < |q| => Item(Data(q[i]), q[i].fd))
  }

  lemma {:induction false} ItemsBytes(q: seq<Ibuf>)
    requires ValidQueue(q)
    ensures Bytes(Items(q)) == Pending(q)
  {
    if q != [] {
      ItemsBytes(q[1..]);
      assert Items(q)[1..] == Items(q[1..]);
    }
  }

  lemma {:induction false} ItemsBatch(q: seq<Ibuf>, i: nat)
    requires ValidQueue(q) && i <= |q|
    ensures BatchOf(Items(q), i) == BatchFrom(q, i)
    decreases |q| - i
  {
    if i < |q| { ItemsBatch(q, i + 1); }
  }

  lemma ItemsOffered(q: seq<Ibuf>)
    requires ValidQueue(q)
    ensures OfferedBytes(Items(q)) == Offered(q)
  {
    var k := BatchFrom(q, 0);
    ItemsBatch(q, 0);
    PendingSplit(q, k);
    ItemsBytes(q[..k]);
    assert Items(q)[..k] == Items(q[..k]);
  }

  lemma {:induction false} ItemsDrained(q: seq<Ibuf>, n: nat)
    requires ValidQueue(q)
    ensures Items(Drained(q, n)) == Sent(Items(q), n)
  {
    hide Data;
    hide Items;
    if q == [] || n == 0 {
      ItemsNone(q);
    } else {
      ItemsCons(q);
      if n >= Size(q[0]) {
        ItemsDrained(q[1..], n - Size(q[0]));
      } else {
        var b := q[0].(rpos := q[0].rpos + n);
        ItemsCons([b] + q[1..]);
        assert ([b] + q[1..])[1..] == q[1..];
        Advanced(q[0], n);
      }
    }
  }

  lemma ItemsNone(q: seq<Ibuf>)
    requires ValidQueue(q)
    ensures Items(q) == [] <==> q == []
  {
  }

  lemma ItemsCons(q: seq<Ibuf>)
    requires ValidQueue(q) && q != []
    ensures Items(q) == [Item(Data(q[0]), q[0].fd)] + Items(q[1..])
    ensures Items(q)[0] == Item(Data(q[0]), q[0].fd) && Items(q)[1..] == Items(q[1..]) && |Data(q[0])| == Size(q[0])
  {
  }

  lemma Advanced(b: Ibuf, n: nat)
    requires Valid(b) && n <= Size(b)
    ensures Data(b.(rpos := b.rpos + n)) == Data(b)[n..]
  {
  }

  lemma ItemsWritten(q: seq<Ibuf>, n: nat)
    requires ValidQueue(q)
    ensures Items(Written(q, n)) == Sent(BareItems(Items(q)), n)
  {
    var r := Bare(q);
    ItemsDrained(r, n);
    assert forall i :: 0 <= i < |q| ==> Data(r[i]) == Data(q[i]);
    assert Items(r) == BareItems(Items(q));
  }

  /** A queue that grew at its end. */
  lemma ItemsGrown(q: seq<Ibuf>, r: seq<Ibuf>, more: seq<Item>)
    requires ValidQueue(q) && ValidQueue(r) && |r| == |q| + |more| && r[..|q|] == q
    requires forall i :: 0 <= i < |more| ==> more[i] == Item(Data(r[|q| + i]), r[|q| + i].fd)
    ensures Items(r) == Items(q) + more
  {
    assert forall i :: 0 <= i < |q| ==> r[i] == r[..|q|][i];
  }
}
