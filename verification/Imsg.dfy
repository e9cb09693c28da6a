/**
 One end of an imsg channel: struct msgbuf and struct imsgbuf with the functions of
 compat/imsg-buffer.c and compat/imsg.c that compose, write, read and hand out messages.
 System calls are replaced by the number of bytes they moved; close() is recorded.
 */
module Imsg {
  import opened Common
  import opened ImsgWire
  import opened IbufOps

  /** Whether part of the first queued ibuf has been sent, after draining n bytes. */
  ghost function PartialAfter(q: seq<Ibuf>, n: nat, partial: bool): bool
    requires ValidQueue(q)
  {
    if q == [] || n == 0 then partial
    else if n >= Size(q[0]) then PartialAfter(q[1..], n - Size(q[0]), false)
    else true
  }

  /** A partly sent ibuf has no descriptor left. */
  ghost predicate SentBare(q: seq<Ibuf>, partial: bool) {
    partial ==> q != [] && q[0].fd == -1
  }

  lemma {:induction false} DrainSentBare(q: seq<Ibuf>, k: nat, n: nat, partial: bool)
    requires ValidQueue(q) && k <= |q| && ValidQueue(q[..k]) && n <= |Pending(q[..k])|
    requires (forall j :: 0 <= j < k ==> q[j].fd == -1) && SentBare(q, partial)
    ensures SentBare(Drained(q, n), PartialAfter(q, n, partial))
    decreases k
  {
    if q == [] || n == 0 {
    } else if n >= Size(q[0]) {
      assert k > 0;
      assert q[..k][1..] == q[1..][..k - 1] && q[..k][0] == q[0];
      DrainSentBare(q[1..], k - 1, n - Size(q[0]), false);
    } else {
      assert k > 0;
    }
  }

  /** Draining within ibufs that have no descriptor drops none. */
  lemma {:induction false} DroppedNone(q: seq<Ibuf>, k: nat, n: nat)
    requires ValidQueue(q) && k <= |q| && ValidQueue(q[..k]) && n <= |Pending(q[..k])|
    requires forall j :: 0 <= j < k ==> q[j].fd == -1
    ensures DroppedFds(q, n) == []
    decreases k
  {
    if q != [] && n > 0 && n >= Size(q[0]) {
      assert k > 0;
      assert q[..k][1..] == q[1..][..k - 1] && q[..k][0] == q[0];
      DroppedNone(q[1..], k - 1, n - Size(q[0]));
    }
  }

  class Imsgbuf {
    var bufs: seq<Ibuf>
    var queued: uint32
    var rbufs: seq<Ibuf>
    var rpmsg: Option<Ibuf>
    var rbuf: bytes
    var pid: uint32
    var maxsize: nat
    var fdpass: bool
    var closed: seq<int>
    ghost var partial: bool

    /** imsgbuf_init() and imsgbuf_allow_fdpass() */
    constructor (pid: uint32, fdpass: bool)
      ensures WriteValid() && ReadValid() && bufs == [] && rbufs == [] && rpmsg == None && rbuf == [] && closed == []
      ensures maxsize == 16384 && this.fdpass == fdpass && this.pid == pid && !partial
    {
      bufs, queued, rbufs, rpmsg, rbuf, closed := [], 0, [], None, [], [];
      maxsize, partial := DEFAULT_MAXSIZE, false;
      this.pid, this.fdpass := pid, fdpass;
    }

    /** imsgbuf_set_maxsize() */
    method SetMaxsize(m: uint32) returns (r: int)
      modifies `maxsize
      ensures r == if m < HEADER_SIZE || m >= FD_MARK then -1 else 0
      ensures maxsize == if r == 0 then m else old(maxsize)
    {
      if m < HEADER_SIZE || m >= FD_MARK {
        return -1;
      }
      maxsize := m;
      return 0;
    }

    // ---------- write side ----------

    ghost predicate WriteValid()
      reads `bufs, `queued, `maxsize
    {
      ValidQueue(bufs) && queued == |bufs| % 0x1_0000_0000 && HEADER_SIZE <= maxsize < FD_MARK
    }

    /** msgbuf_enqueue() */
    method Enqueue(b: Ibuf)
      requires WriteValid() && Valid(b) && b.fd >= -1
      modifies `bufs, `queued
      ensures WriteValid() && bufs == old(bufs) + [b]
      ensures Holds() == old(Holds()) + multiset(FdOf(b))
    {
      hide Fds;
      hide Imsgbuf.RpFds;
      FdsGrow(bufs, bufs + [b]);
      bufs := bufs + [b];
      queued := (queued + 1) % 0x1_0000_0000;
    }

    /** msgbuf_dequeue() of the first ibuf, which closes its descriptor. */
    method Dequeue()
      requires WriteValid() && bufs != []
      modifies `bufs, `queued, `closed, `partial
      ensures WriteValid() && bufs == old(bufs)[1..] && closed == old(closed) + FdOf(old(bufs)[0]) && !partial
    {
      var b := bufs[0];
      bufs := bufs[1..];
      queued := (queued + 0xFFFF_FFFF) % 0x1_0000_0000;
      if b.fd >= 0 {
        closed := closed + [b.fd];
      }
      partial := false;
    }

    /** msgbuf_drain() */
    method Drain(n0: nat)
      requires WriteValid()
      modifies `bufs, `queued, `closed, `partial
      ensures WriteValid() && bufs == Drained(old(bufs), n0) && |bufs| <= |old(bufs)|
      ensures closed == old(closed) + DroppedFds(old(bufs), n0)
      ensures partial == PartialAfter(old(bufs), n0, old(partial))
    {
      var n := n0;
      ghost var q := bufs;
      while bufs != [] && n > 0
        invariant WriteValid() && 0 <= n && |bufs| <= |q|
        invariant Drained(bufs, n) == Drained(q, n0)
        invariant closed + DroppedFds(bufs, n) == old(closed) + DroppedFds(q, n0)
        invariant PartialAfter(bufs, n, partial) == PartialAfter(q, n0, old(partial))
        decreases n, |bufs|
      {
        if n >= Size(bufs[0]) {
          ghost var b, c := bufs, closed;
          n := n - Size(bufs[0]);
          Dequeue();
          Assoc(c, FdOf(b[0]), DroppedFds(b[1..], n));
        } else {
          bufs := [bufs[0].(rpos := bufs[0].rpos + n)] + bufs[1..];
          n := 0;
          partial := true;
        }
      }
    }

    /** Every descriptor this end was ever given: queued, received, or closed. */
    ghost function Holds(): multiset<int>
      reads `bufs, `rbufs, `rpmsg, `closed
    {
      multiset(Fds(bufs)) + multiset(Fds(rbufs)) + multiset(RpFds()) + multiset(closed)
    }

    /** The loop of msgbuf_write() that collects a batch and its one descriptor. */
    method Batch() returns (i: nat, fd0: int)
      requires WriteValid()
      ensures i == BatchFrom(bufs, 0) && fd0 == if i > 0 then bufs[0].fd else -1
    {
      i, fd0 := 0, -1;
      while i < |bufs| && i < IOV_MAX && !(i > 0 && bufs[i].fd != -1)
        invariant i <= |bufs| && BatchFrom(bufs, i) == BatchFrom(bufs, 0)
        invariant fd0 == if i > 0 then bufs[0].fd else -1
      {
        if bufs[i].fd != -1 {
          fd0 := bufs[i].fd;
        }
        i := i + 1;
      }
    }

    /** After a send: the descriptor of the first ibuf has gone along and is closed here. */
    method PassFd(fd0: int)
      requires WriteValid() && SentBare(bufs, partial) && bufs != [] && fd0 == bufs[0].fd
      modifies `bufs, `closed
      ensures WriteValid() && SentBare(bufs, partial) && Holds() == old(Holds())
      ensures bufs == Bare(old(bufs)) && Pending(bufs) == old(Pending(bufs)) && closed == old(closed) + FdSeq(fd0)
    {
      hide Fds;
      hide Pending;
      PendingBare(bufs);
      if fd0 != -1 {
        closed := closed + [fd0];
        bufs := bufs[0 := bufs[0].(fd := -1)];
      }
    }

    /** Draining within a batch none of whose ibufs has a descriptor any more. */
    method DrainBatch(n: nat, ghost k: nat)
      requires WriteValid() && SentBare(bufs, partial) && k <= |bufs|
      requires (forall j :: 0 <= j < k ==> bufs[j].fd == -1) && ValidQueue(bufs[..k]) && n <= |Pending(bufs[..k])|
      modifies `bufs, `queued, `closed, `partial
      ensures WriteValid() && SentBare(bufs, partial) && Holds() == old(Holds())
      ensures n <= |old(Pending(bufs))| && Pending(bufs) == old(Pending(bufs))[n..]
      ensures |bufs| <= |old(bufs)| && (old(Sends(bufs)) ==> Sends(bufs))
      ensures bufs == Drained(old(bufs), n) && closed == old(closed)
    {
      hide Fds;
      hide Drained;
      hide DroppedFds;
      hide Pending;
      PendingSplit(bufs, k);
      DroppedNone(bufs, k, n);
      DrainSentBare(bufs, k, n, partial);
      FdsDrained(bufs, n);
      PendingDrained(bufs, n);
      hide Sends;
      if Sends(bufs) { DrainedSends(bufs, n); }
      Drain(n);
    }

    /** msgbuf_write(): `taken` is what sendmsg() returned, -1 for "try again later".  The descriptor of the first
        ibuf goes along with whatever is sent, and is closed here. */
    method MsgbufWrite(taken: int) returns (out: bytes, sentFd: int)
      requires WriteValid() && SentBare(bufs, partial) && -1 <= taken <= |Offered(bufs)|
      modifies `bufs, `queued, `closed, `partial
      ensures WriteValid() && SentBare(bufs, partial) && Holds() == old(Holds())
      ensures |out| == (if taken == -1 then 0 else taken) && old(Pending(bufs)) == out + Pending(bufs)
      ensures taken == -1 ==> unchanged(this)
      ensures taken >= 0 ==> bufs == Written(old(bufs), taken)
      ensures sentFd == if taken == -1 || old(bufs) == [] then -1 else old(bufs)[0].fd
      ensures closed == old(closed) + FdSeq(sentFd) && (sentFd >= 0 ==> !old(partial))
      ensures |bufs| <= |old(bufs)| && (old(Sends(bufs)) ==> Sends(bufs))
      ensures old(Offered(bufs)) == [] ==> Offered(bufs) == [] && |bufs| == |old(bufs)| && queued == old(queued)
    {
      hide Pending;
      hide BatchFrom;
      hide Fds;
      hide Drained;
      hide Sends;
      hide Imsgbuf.Holds;
      out, sentFd := [], -1;
      var i, fd0 := Batch();
      if i == 0 || taken == -1 {
        Unwritten(bufs, i, taken);
        return;
      }
      PendingSplit(bufs, i);
      out := Pending(bufs)[..taken];
      sentFd := fd0;
      ghost var p, q := Pending(bufs), bufs;
      BareSends(bufs);
      if Offered(bufs) == [] { WriteNothing(bufs); }
      PassFd(fd0);
      BarePrefix(q, i);
      DrainBatch(taken, i);
      assert p == p[..taken] + p[taken..];
    }

    /** imsgbuf_flush() with descriptor passing: when every write takes at least one byte and no batch is without
        bytes, the loop ends with the queue empty and every byte sent in order.  The counter that ends it has 32
        bits, so of a longer queue a multiple of 2^32 ibufs can be left. */
    method Flush(take: nat -> nat) returns (out: bytes)
      requires WriteValid() && SentBare(bufs, partial) && Sends(bufs)
      requires forall m: nat :: m > 0 ==> 1 <= take(m) <= m
      modifies `bufs, `queued, `closed, `partial
      ensures WriteValid() && queued == 0 && |bufs| % 0x1_0000_0000 == 0 && |bufs| <= |old(bufs)|
      ensures out + Pending(bufs) == old(Pending(bufs)) && Holds() == old(Holds())
      ensures |old(bufs)| < 0x1_0000_0000 ==> bufs == [] && out == old(Pending(bufs))
    {
      hide Pending;
      hide BatchFrom;
      hide Fds;
      hide Offered;
      hide Written;
      hide Imsgbuf.Holds;
      out := [];
      ghost var p := Pending(bufs);
      while queued > 0
        invariant WriteValid() && SentBare(bufs, partial) && Sends(bufs) && |bufs| <= |old(bufs)|
        invariant out + Pending(bufs) == p && Holds() == old(Holds())
        decreases |Pending(bufs)|
      {
        var i, _ := Batch();
        OfferedIs(bufs);
        var sent, _ := MsgbufWrite(take(|Pending(bufs[..i])|));
        Assoc(out, sent, Pending(bufs));
        out := out + sent;
      }
      PendingNone(bufs);
    }

    // ---------- composing ----------

    /** imsg_create(): the length field is filled in only when the message is closed. */
    method Create(typ: uint32, id: uint32, pid0: uint32, datalen: nat) returns (b: Option<Ibuf>)
      requires WriteValid() && datalen <= SIZE_MAX
      ensures b.None? <==> (HEADER_SIZE + datalen) % (SIZE_MAX + 1) > maxsize
      ensures b.Some? ==> Valid(b.value) && b.value.fd == -1 && b.value.max == maxsize && b.value.rpos == 0
      ensures b.Some? ==> Data(b.value) == PutHdr(Hdr(typ, 0, id, if pid0 == 0 then pid else pid0))
    {
      var len := (HEADER_SIZE + datalen) % (SIZE_MAX + 1);
      if len > maxsize {
        return None;
      }
      var hdr := Hdr(typ, 0, id, if pid0 == 0 then pid else pid0);
      b := Dynamic(len, maxsize);
      b := Add(b.value, PutHdr(hdr));
    }

    /** imsg_close(): patches the length, marks it when a descriptor is attached, and queues. */
    method Close(b: Ibuf, ghost m: Sendable)
      requires WriteValid() && Valid(b) && b.fd >= -1 && m.marked == (b.fd >= 0) && Fits(m, maxsize)
      requires Data(b) == PutHdr(Hdr(m.typ, 0, m.id, m.pid)) + m.data
      modifies `bufs, `queued
      ensures WriteValid() && Pending(bufs) == old(Pending(bufs)) + Encode(m)
      ensures |bufs| == |old(bufs)| + 1 && bufs[..|old(bufs)|] == old(bufs)
      ensures bufs[|old(bufs)|].fd == b.fd && Data(bufs[|old(bufs)|]) == Encode(m)
      ensures Holds() == old(Holds()) + multiset(FdSeq(b.fd))
    {
      hide PutHdr;
      hide Put32;
      hide Imsgbuf.Holds;
      var len := Size(b);
      if b.fd >= 0 {
        len := len + FD_MARK;
      }
      PatchLen(Hdr(m.typ, 0, m.id, m.pid), len, m.data);
      var r := Set(b, 4, Put32(len));
      assert Data(r.value) == Encode(m);
      PendingAppend(bufs, [r.value]);
      PendingOne(r.value);
      Enqueue(r.value);
    }

    /** imsg_compose(): too long a message is refused and changes nothing. */
    method Compose(typ: uint32, id: uint32, pid0: uint32, fd: int, data: bytes) returns (r: int)
      requires WriteValid() && |data| <= SIZE_MAX
      modifies `bufs, `queued
      ensures WriteValid()
      ensures r == if HEADER_SIZE + |data| > maxsize then -1 else 1
      ensures r == -1 ==> unchanged(this)
      ensures r == 1 ==> Pending(bufs) == old(Pending(bufs)) + Encode(Composed(typ, id, pid0, fd, data))
      ensures r == 1 ==> |bufs| == |old(bufs)| + 1 && bufs[..|old(bufs)|] == old(bufs)
      ensures r == 1 ==> bufs[|old(bufs)|].fd == (if fd >= 0 then fd else -1)
      ensures r == 1 ==> Data(bufs[|old(bufs)|]) == Encode(Composed(typ, id, pid0, fd, data))
      ensures Holds() == old(Holds()) + multiset(if r == 1 then FdSeq(fd) else [])
    {
      hide Encode;
      hide Pending;
      hide PutHdr;
      hide Imsgbuf.Holds;
      var wbuf := Create(typ, id, pid0, |data|);
      if wbuf.None? {
        return -1;
      }
      var added := Add(wbuf.value, data);
      if added.None? {
        return -1;
      }
      var b := added.value.(fd := if fd >= 0 then fd else -1);
      Close(b, Composed(typ, id, pid0, fd, data));
      return 1;
    }

    /** The message that imsg_compose() puts on the wire. */
    ghost function Composed(typ: uint32, id: uint32, pid0: uint32, fd: int, data: bytes): (m: Msg)
      reads this
    {
      Msg(typ, id, if pid0 == 0 then pid else pid0, fd >= 0, data)
    }

    /** The first loop of imsg_composev(), in the arithmetic of size_t. */
    static method TotalLength(iov: seq<bytes>) returns (datalen: nat)
      ensures datalen == |Concat(iov)| % (SIZE_MAX + 1)
    {
      datalen := 0;
      for i := 0 to |iov|
        invariant datalen == |Concat(iov[..i])| % (SIZE_MAX + 1)
      {
        assert iov[..i + 1][..i] == iov[..i];
        SizeSum(|Concat(iov[..i])|, |iov[i]|);
        datalen := (datalen + |iov[i]|) % (SIZE_MAX + 1);
      }
      assert iov[..|iov|] == iov;
    }

    /** The second loop of imsg_composev(): fails exactly if the pieces together do not fit. */
    static method AddPieces(b0: Ibuf, iov: seq<bytes>) returns (b: Option<Ibuf>)
      requires Valid(b0) && b0.fd == -1 && b0.max <= SIZE_MAX
      ensures b.None? <==> b0.wpos + |Concat(iov)| > b0.max
      ensures b.Some? ==> Valid(b.value) && b.value.fd == -1 && b.value.rpos == b0.rpos && b.value.max == b0.max
      ensures b.Some? ==> Data(b.value) == Data(b0) + Concat(iov)
    {
      b := Some(b0);
      for i := 0 to |iov|
        invariant b.Some? && Valid(b.value) && b.value.fd == -1 && b.value.rpos == b0.rpos && b.value.max == b0.max
        invariant Data(b.value) == Data(b0) + Concat(iov[..i])
      {
        assert iov[..i + 1][..i] == iov[..i];
        ConcatPrefix(iov, i + 1);
        Assoc(Data(b0), Concat(iov[..i]), iov[i]);
        b := Add(b.value, iov[i]);
        if b.None? {
          return;
        }
      }
      assert iov[..|iov|] == iov;
    }

    /** imsg_composev(): the pieces travel as one message. */
    method ComposeV(typ: uint32, id: uint32, pid0: uint32, fd: int, iov: seq<bytes>) returns (r: int)
      requires WriteValid()
      modifies `bufs, `queued
      ensures WriteValid()
      ensures r == if HEADER_SIZE + |Concat(iov)| > maxsize then -1 else 1
      ensures r == -1 ==> unchanged(this)
      ensures r == 1 ==> Pending(bufs) == old(Pending(bufs)) + Encode(Composed(typ, id, pid0, fd, Concat(iov)))
      ensures r == 1 ==> |bufs| == |old(bufs)| + 1 && bufs[..|old(bufs)|] == old(bufs)
      ensures r == 1 ==> bufs[|old(bufs)|].fd == (if fd >= 0 then fd else -1)
      ensures r == 1 ==> Data(bufs[|old(bufs)|]) == Encode(Composed(typ, id, pid0, fd, Concat(iov)))
      ensures Holds() == old(Holds()) + multiset(if r == 1 then FdSeq(fd) else [])
    {
      hide Encode;
      hide Pending;
      hide PutHdr;
      hide Imsgbuf.Holds;
      var datalen := TotalLength(iov);
      SizeSmall(|Concat(iov)|);
      var wbuf := Create(typ, id, pid0, datalen);
      if wbuf.None? {
        return -1;
      }
      var added := AddPieces(wbuf.value, iov);
      if added.None? {
        return -1;
      }
      var b := added.value.(fd := if fd >= 0 then fd else -1);
      Close(b, Composed(typ, id, pid0, fd, Concat(iov)));
      return 1;
    }

    /** ibuf_free(): the descriptor of the ibuf is closed. */
    method Free(b: Ibuf)
      requires b.fd >= -1
      modifies `closed
      ensures closed == old(closed) + FdOf(b) && Holds() == old(Holds()) + multiset(FdOf(b))
    {
      CloseFd(b.fd);
    }

    /** Queues a header ibuf and an ibuf with the rest of the message. */
    method QueuePair(h: Ibuf, b: Ibuf)
      requires WriteValid() && Valid(h) && h.fd == -1 && Valid(b) && b.fd >= -1
      modifies `bufs, `queued
      ensures WriteValid() && bufs == old(bufs) + [h] + [b]
      ensures Pending(bufs) == old(Pending(bufs)) + (Data(h) + Data(b))
      ensures Holds() == old(Holds()) + multiset(FdOf(b))
    {
      hide Pending;
      hide Data;
      hide Imsgbuf.Holds;
      PendingOne(h);
      PendingOne(b);
      PendingAppend(bufs, [h]);
      PendingAppend(bufs + [h], [b]);
      Assoc(Pending(bufs), Data(h), Data(b));
      assert multiset(FdOf(h)) == multiset{};
      Enqueue(h);
      Enqueue(b);
    }

    /** imsg_compose_ibuf(): a header ibuf and the caller's ibuf are queued one after the other; on
        failure the caller's ibuf is freed. */
    method ComposeIbuf(typ: uint32, id: uint32, pid0: uint32, b: Ibuf) returns (r: int)
      requires WriteValid() && Valid(b) && b.fd >= -1
      modifies `bufs, `queued, `closed
      ensures WriteValid()
      ensures r == if HEADER_SIZE + Size(b) > maxsize then -1 else 1
      ensures r == -1 ==> bufs == old(bufs) && closed == old(closed) + FdOf(b)
      ensures r == 1 ==> Pending(bufs) == old(Pending(bufs)) + Encode(Composed(typ, id, pid0, -1, Data(b)))
      ensures r == 1 ==> |bufs| == |old(bufs)| + 2 && bufs[..|old(bufs)|] == old(bufs) && closed == old(closed)
      ensures r == 1 ==> bufs[|old(bufs)|].fd == -1 && bufs[|old(bufs)| + 1] == b
      ensures r == 1 ==> Data(bufs[|old(bufs)|]) == Encode(Composed(typ, id, pid0, -1, Data(b)))[..HEADER_SIZE]
      ensures r == 1 && Size(b) == 0 ==> !Sends(bufs)
      ensures Holds() == old(Holds()) + multiset(FdOf(b))
    {
      hide PutHdr;
      hide Pending;
      hide Imsgbuf.Holds;
      if Size(b) + HEADER_SIZE > maxsize {
        Free(b);
        return -1;
      }
      var hdr := Hdr(typ, Size(b) + HEADER_SIZE, id, if pid0 == 0 then pid else pid0);
      var h := Add(Open(HEADER_SIZE), PutHdr(hdr)).value;
      QueuePair(h, b);
      if Size(b) == 0 { EmptyBlocks(bufs, |bufs| - 1); }
      return 1;
    }

    // ---------- read side ----------

    ghost predicate ReadInvariant()
      reads `maxsize, `rbufs, `rpmsg
    {
      HEADER_SIZE <= maxsize < FD_MARK && Received(rbufs) && (rpmsg.Some? ==> InProgress(rpmsg.value, maxsize))
    }

    /** Between reads: less than a header is left over, and nothing while a message is in progress. */
    ghost predicate ReadValid()
      reads `maxsize, `rbufs, `rpmsg, `rbuf
    {
      ReadInvariant() && |rbuf| < HEADER_SIZE && (rpmsg.Some? ==> rbuf == [])
    }

    /** The bytes of the message that is not complete yet. */
    ghost function Partial(): bytes
      requires ReadInvariant()
      reads `maxsize, `rbufs, `rpmsg
    {
      if rpmsg.Some? then Data(rpmsg.value) else []
    }

    /** imsg_parse_hdr(): a buffer for the announced length, which takes the descriptor if marked. */
    method ParseHdr(hdr: bytes, fd0: int) returns (b: Option<Ibuf>, fd: int)
      requires |hdr| == HEADER_SIZE && fd0 >= -1 && HEADER_SIZE <= maxsize < FD_MARK
      ensures b.None? <==> MsgLen(hdr) < HEADER_SIZE || MsgLen(hdr) > maxsize
      ensures b.None? ==> fd == fd0
      ensures b.Some? ==> b.value == Open(MsgLen(hdr)).(fd := if Marked(hdr) then fd0 else -1)
      ensures b.Some? ==> fd == if Marked(hdr) then -1 else fd0
    {
      assert hdr[..HEADER_SIZE] == hdr;
      var h := GetHdr(hdr);
      var len := h.len % FD_MARK;
      fd := fd0;
      if len < HEADER_SIZE || len > maxsize {
        return None, fd;
      }
      var nb := Open(len);
      if h.len >= FD_MARK {
        nb := nb.(fd := fd);
        fd := -1;
      }
      b := Some(nb);
    }

    /** What the messages received so far and the bytes at hand amount to. */
    ghost function Outlook(rest: bytes): Stream
      requires ReadInvariant()
      reads `maxsize, `rbufs, `rpmsg
    {
      Prepend(Raw(rbufs), Parse(maxsize, Partial() + rest))
    }

    /** The second half of the loop of ibuf_read_process(): the message `b` in progress takes what
        it needs from the input, and is queued when complete.  Neither buffer call can fail. */
    method Absorb(b: Ibuf, rb: Ibuf) returns (rb': Ibuf)
      requires ReadInvariant() && Growing(b, Data0(rb), maxsize)
      modifies `rbufs, `rpmsg
      ensures ReadInvariant() && Valid(rb') && Size(rb') < Size(rb)
      ensures Outlook(Data(rb')) == old(Prepend(Raw(rbufs), Parse(maxsize, Data(b) + Data(rb))))
      ensures multiset(Fds(rbufs)) + multiset(RpFds()) == old(multiset(Fds(rbufs))) + multiset(FdOf(b))
      ensures rpmsg.Some? ==> Size(rb') == 0
    {
      hide Parse;
      hide Raw;
      hide Fds;
      hide MsgLen;
      hide Marked;
      ghost var p, d := Data(b), Data(rb);
      var sz := if Left(b) <= Size(rb) then Left(b) else Size(rb);
      var got := Get(rb, sz);
      assert got.Some?;
      rb' := got.value.0;
      assert got.value.1 == d[..sz] && Data(rb') == d[sz..];
      var nb := Add(b, got.value.1);
      assert nb.Some?;
      ParseStep(maxsize, p, d, sz);
      assert Data(nb.value) == p + d[..sz];
      GrowingStep(b, d, sz, nb.value, maxsize);
      if Left(nb.value) == 0 {
        PrependAfter(Raw(rbufs), p + d[..sz], Parse(maxsize, d[sz..]));
        RawAppend(rbufs, nb.value);
        FdsAppend(rbufs, [nb.value]);
        FdsOne(nb.value);
        rbufs := rbufs + [nb.value];
        rpmsg := None;
        assert [] + d[sz..] == d[sz..];
      } else {
        rpmsg := nb;
      }
    }

    ghost function RpFds(): seq<int>
      reads `rpmsg
    {
      if rpmsg.Some? then FdOf(rpmsg.value) else []
    }

    /** One round of the loop of ibuf_read_process() on the input `rb`. */
    method ProcessOne(rb: Ibuf, fd0: int) returns (r: Progress, rb': Ibuf, fd: int)
      requires ReadInvariant() && Valid(rb) && Size(rb) > 0 && fd0 >= -1
      modifies `rbufs, `rpmsg
      ensures ReadInvariant() && Valid(rb') && fd >= -1 && Outlook(Data(rb')) == old(Outlook(Data(rb)))
      ensures multiset(Fds(rbufs)) + multiset(RpFds()) + multiset(FdSeq(fd))
        == old(multiset(Fds(rbufs))) + old(multiset(RpFds())) + multiset(FdSeq(fd0))
      ensures r == More ==> Size(rb') < Size(rb) && (rpmsg.Some? ==> Size(rb') == 0)
      ensures r != More ==> rb' == rb && rpmsg.None? && unchanged(this)
      ensures r == Wait ==> Size(rb) < HEADER_SIZE
      ensures r == Fail ==> Size(rb) >= HEADER_SIZE && Parse(maxsize, Data(rb)) == Bad([])
    {
      hide Parse;
      hide Raw;
      hide Fds;
      hide MsgLen;
      hide Marked;
      rb', fd := rb, fd0;
      ghost var d := Data(rb);
      if rpmsg.None? {
        assert [] + d == d;
        if Size(rb) < HEADER_SIZE {
          return Wait, rb, fd;
        }
        var hdr := Get(rb, HEADER_SIZE).value.1;
        HdrFacts(d, hdr);
        var nb;
        nb, fd := ParseHdr(hdr, fd0);
        if nb.None? {
          ParseBad(maxsize, d);
          return Fail, rb, fd;
        }
        assert Data(nb.value) == [];
        rb' := Absorb(nb.value, rb);
        return More, rb', fd;
      } else {
        InProgressGrows(rpmsg.value, d, maxsize);
        rb' := Absorb(rpmsg.value, rb);
        return More, rb', fd;
      }
    }

    /** The loop of ibuf_read_process(). */
    method ProcessAll(fd0: int) returns (ok: bool, rest: bytes, fd: int)
      requires ReadInvariant() && rbuf != [] && |rbuf| <= READ_SIZE && fd0 >= -1
      modifies `rbufs, `rpmsg
      ensures ReadInvariant() && fd >= -1 && Outlook(rest) == old(Outlook(rbuf))
      ensures multiset(Fds(rbufs)) + multiset(RpFds()) + multiset(FdSeq(fd))
        == old(multiset(Fds(rbufs))) + old(multiset(RpFds())) + multiset(FdSeq(fd0))
      ensures ok ==> |rest| < HEADER_SIZE && (rpmsg.Some? ==> rest == [])
      ensures !ok ==> Outlook(rest) == Bad(Raw(rbufs))
    {
      hide Parse;
      hide Raw;
      hide Fds;
      hide Imsgbuf.Outlook;
      hide Imsgbuf.RpFds;
      hide FdSeq;
      var rb := FromBuffer(rbuf);
      fd := fd0;
      var p;
      while true
        invariant ReadInvariant() && Valid(rb) && Size(rb) > 0 && fd >= -1
        invariant Outlook(Data(rb)) == old(Outlook(rbuf))
        invariant multiset(Fds(rbufs)) + multiset(RpFds()) + multiset(FdSeq(fd))
          == old(multiset(Fds(rbufs))) + old(multiset(RpFds())) + multiset(FdSeq(fd0))
        decreases Size(rb)
      {
        p, rb, fd := ProcessOne(rb, fd);
        if p == Fail {
          OutlookFail(Data(rb));
          return false, Data(rb), fd;
        }
        if p == Wait || Size(rb) == 0 {
          return true, Data(rb), fd;
        }
      }
    }

    lemma OutlookFail(rest: bytes)
      requires ReadInvariant() && rpmsg.None? && Parse(maxsize, rest) == Bad([])
      ensures Outlook(rest) == Bad(Raw(rbufs))
    {
      assert [] + rest == rest && Raw(rbufs) + [] == Raw(rbufs);
    }

    /** if (fd != -1) close(fd) */
    method CloseFd(fd: int)
      requires fd >= -1
      modifies `closed
      ensures closed == old(closed) + FdSeq(fd)
    {
      if fd != -1 {
        closed := closed + [fd];
      }
    }

    /** ibuf_read_process(), after new bytes were appended to `rbuf`. */
    method ReadProcess(fd0: int) returns (r: int)
      requires ReadInvariant() && rbuf != [] && |rbuf| <= READ_SIZE && fd0 >= -1
      modifies `rbufs, `rpmsg, `rbuf, `closed
      ensures old(Outlook(rbuf)).Good? ==> r == 1 && ReadValid() && Good(Raw(rbufs), Tail()) == old(Outlook(rbuf))
      ensures old(Outlook(rbuf)).Bad? ==> r == -1 && ReadInvariant() && Bad(Raw(rbufs)) == old(Outlook(rbuf))
      ensures Holds() == old(Holds()) + multiset(FdSeq(fd0))
    {
      hide Parse;
      hide Raw;
      hide Fds;
      hide Imsgbuf.Outlook;
      hide Imsgbuf.RpFds;
      hide FdSeq;
      hide Imsgbuf.ReadInvariant;
      hide Imsgbuf.ReadValid;
      hide Imsgbuf.Tail;
      ghost var r0, p0, b, c := multiset(Fds(rbufs)), multiset(RpFds()), multiset(Fds(bufs)), multiset(closed);
      var ok, fd := ProcessRest(fd0);
      CloseFd(fd);
      Account(b, multiset(Fds(rbufs)), multiset(RpFds()), multiset(FdSeq(fd)), c, r0, p0, multiset(FdSeq(fd0)));
      r := if ok then 1 else -1;
    }

    /** The loop, and what is left of the input moved to the front of the buffer. */
    method ProcessRest(fd0: int) returns (ok: bool, fd: int)
      requires ReadInvariant() && rbuf != [] && |rbuf| <= READ_SIZE && fd0 >= -1
      modifies `rbufs, `rpmsg, `rbuf
      ensures fd >= -1 && ReadInvariant() && (ok <==> old(Outlook(rbuf)).Good?)
      ensures ok ==> ReadValid() && Good(Raw(rbufs), Tail()) == old(Outlook(rbuf))
      ensures !ok ==> Bad(Raw(rbufs)) == old(Outlook(rbuf))
      ensures multiset(Fds(rbufs)) + multiset(RpFds()) + multiset(FdSeq(fd))
        == old(multiset(Fds(rbufs))) + old(multiset(RpFds())) + multiset(FdSeq(fd0))
    {
      hide Parse;
      hide Raw;
      hide Fds;
      hide Imsgbuf.Outlook;
      hide Imsgbuf.RpFds;
      hide FdSeq;
      hide Imsgbuf.ReadInvariant;
      hide Imsgbuf.Tail;
      var rest;
      ok, rest, fd := ProcessAll(fd0);
      if ok {
        Settle(rest);
      }
    }

    /** What the reader holds beyond complete messages. */
    ghost function Tail(): bytes
      requires ReadInvariant()
      reads `maxsize, `rbufs, `rpmsg, `rbuf
    {
      if rpmsg.Some? then Partial() else rbuf
    }

    /** What is left of the input stays in the buffer. */
    method Settle(rest: bytes)
      requires ReadInvariant() && |rest| < HEADER_SIZE && (rpmsg.Some? ==> rest == [])
      modifies `rbuf
      ensures ReadValid() && Outlook(rest) == Good(Raw(rbufs), Tail())
    {
      hide Parse;
      hide Raw;
      hide Imsgbuf.Outlook;
      hide Imsgbuf.Tail;
      hide Imsgbuf.ReadInvariant;
      rbuf := rest;
      OutlookDone();
    }

    lemma OutlookDone()
      requires ReadValid()
      ensures Outlook(rbuf) == Good(Raw(rbufs), Tail())
    {
      var b := Partial() + rbuf;
      if rpmsg.Some? {
        assert b == Data(rpmsg.value);
      } else {
        assert b == rbuf;
      }
      assert Parse(maxsize, b) == Good([], b);
      assert Raw(rbufs) + [] == Raw(rbufs);
    }

    /** msgbuf_read() or ibuf_read(): a read delivered `chunk`, empty when the peer has closed, and
        possibly one descriptor. */
    method Read(chunk: bytes, fd: int) returns (r: int)
      requires ReadValid() && |chunk| <= READ_SIZE - |rbuf| && fd >= -1
      requires chunk == [] || !fdpass ==> fd == -1
      modifies `rbufs, `rpmsg, `rbuf, `closed
      ensures chunk == [] ==> r == 0 && unchanged(this)
      ensures chunk != [] ==> var s := old(Prepend(Raw(rbufs), Parse(maxsize, Tail() + chunk)));
        if s.Good? then r == 1 && ReadValid() && s == Good(Raw(rbufs), Tail())
        else r == -1 && ReadInvariant() && s == Bad(Raw(rbufs))
      ensures Holds() == old(Holds()) + multiset(FdSeq(fd))
    {
      hide Parse;
      hide Raw;
      hide Fds;
      hide Received;
      hide InProgress;
      hide Imsgbuf.RpFds;
      if chunk == [] {
        return 0;
      }
      assert Partial() + (rbuf + chunk) == Tail() + chunk;
      ghost var t := Tail();
      rbuf := rbuf + chunk;
      assert Outlook(rbuf) == Prepend(Raw(rbufs), Parse(maxsize, t + chunk));
      r := ReadProcess(fd);
    }

    /** imsg_get(): the oldest complete message, with its descriptor if it has one. */
    method Receive() returns (r: int, m: Option<Msg>, fd: int)
      requires ReadInvariant()
      modifies `rbufs
      ensures ReadInvariant()
      ensures old(rbufs) == [] ==> r == 0 && m == None && fd == -1 && unchanged(this)
      ensures old(rbufs) != [] ==> rbufs == old(rbufs)[1..] && m.Some? && r == HEADER_SIZE + |m.value.data|
      ensures old(rbufs) != [] ==> old(Raw(rbufs)) == [old(Data0(rbufs[0]))] + Raw(rbufs) && m.Some?
      ensures old(rbufs) != [] ==> HEADER_SIZE <= |old(Data0(rbufs[0]))| && m == Some(Decode(old(Data0(rbufs[0]))))
      ensures fd >= -1 && (fd >= 0 ==> m.Some? && m.value.marked)
      ensures old(rbufs) != [] ==> FdSeq(fd) == FdOf(old(rbufs)[0])
      ensures Holds() + multiset(FdSeq(fd)) == old(Holds())
    {
      hide Raw;
      hide MsgLen;
      hide GetHdr;
      if rbufs == [] {
        return 0, None, -1;
      }
      var b := rbufs[0];
      RawFirst(rbufs);
      rbufs := rbufs[1..];
      var hdr := Get(b, HEADER_SIZE).value;
      var h := GetHdr(hdr.1);
      assert hdr.1 == Data(b)[..HEADER_SIZE] && Data(hdr.0) == Data(b)[HEADER_SIZE..];
      m := Some(Msg(h.typ, h.peerid, h.pid, h.len >= FD_MARK, Data(hdr.0)));
      r := Size(hdr.0) + HEADER_SIZE;
      fd := if b.fd >= 0 then b.fd else -1;
    }
  }

  lemma {:induction false} RawFirst(q: seq<Ibuf>)
    requires Received(q) && q != []
    ensures Raw(q) == [Data(q[0])] + Raw(q[1..])
  {
    if |q| > 1 {
      var f := q[..|q| - 1];
      RawFirst(f);
      assert q[1..][..|q| - 2] == f[1..];
    } else {
      assert q[..0] == [] && q[1..] == [];
    }
  }

  lemma Account<X>(b: multiset<X>, r: multiset<X>, p: multiset<X>, f: multiset<X>, c: multiset<X>,
                   r0: multiset<X>, p0: multiset<X>, f0: multiset<X>)
    requires r + p + f == r0 + p0 + f0
    ensures b + r + p + (c + f) == (b + r0 + p0 + c) + f0
  {
    assert b + r + p + (c + f) == b + c + (r + p + f);
  }

  datatype Progress = More | Wait | Fail

  lemma ParseBad(max: nat, d: bytes)
    requires HEADER_SIZE <= |d| && (MsgLen(d) < HEADER_SIZE || MsgLen(d) > max)
    ensures Parse(max, d) == Bad([])
  {
  }

  lemma HdrFacts(d: bytes, hdr: bytes)
    requires HEADER_SIZE <= |d| && |hdr| == HEADER_SIZE && hdr <= d
    ensures MsgLen(hdr) == MsgLen(d) && Marked(hdr) == Marked(d) && [] + d == d
  {
    assert hdr[..HEADER_SIZE] == d[..HEADER_SIZE];
  }

  lemma InProgressGrows(b: Ibuf, d: bytes, maxsize: nat)
    requires InProgress(b, maxsize) && d != [] && HEADER_SIZE <= maxsize < FD_MARK
    ensures Growing(b, d, maxsize)
  {
    assert (Data(b) + d)[..HEADER_SIZE] == Data(b)[..HEADER_SIZE];
  }

  ghost function Data0(b: Ibuf): bytes {
    if Valid(b) then Data(b) else []
  }

  /** The message `b` can take bytes from the non-empty input `d`, which completes its header. */
  ghost predicate Growing(b: Ibuf, d: bytes, maxsize: nat) {
    Valid(b) && b.fd >= -1 && b.rpos == 0 && d != [] && HEADER_SIZE <= maxsize < FD_MARK &&
    (b.wpos == 0 ==> HEADER_SIZE <= |d|) && (b.wpos > 0 ==> HEADER_SIZE <= b.wpos) &&
    HEADER_SIZE <= b.max == MsgLen(Data(b) + d) <= maxsize && b.wpos < b.max &&
    (b.fd >= 0 ==> Marked(Data(b) + d))
  }

  lemma GrowingStep(b: Ibuf, d: bytes, sz: nat, nb: Ibuf, maxsize: nat)
    requires Growing(b, d, maxsize) && sz <= |d| && b.wpos + sz <= b.max && (sz == |d| || b.wpos + sz == b.max)
    requires Valid(nb) && nb.fd == b.fd && nb.max == b.max && nb.rpos == 0 && Data(nb) == Data(b) + d[..sz]
    ensures b.wpos + sz == b.max ==> Complete(nb)
    ensures b.wpos + sz < b.max ==> InProgress(nb, maxsize)
  {
    var p := Data(b) + d[..sz];
    assert p + d[sz..] == Data(b) + d;
    assert p[..HEADER_SIZE] == (Data(b) + d)[..HEADER_SIZE];
  }

  lemma RawAppend(q: seq<Ibuf>, b: Ibuf)
    requires Received(q) && Complete(b)
    ensures Received(q + [b]) && Raw(q + [b]) == Raw(q) + [Data(b)]
  {
    assert (q + [b])[..|q|] == q;
  }

  lemma FdsGrow(q: seq<Ibuf>, r: seq<Ibuf>)
    requires |r| == |q| + 1 && r[..|q|] == q
    ensures Fds(r) == Fds(q) + FdOf(r[|q|])
  {
    assert r == q + [r[|q|]];
    FdsAppend(q, [r[|q|]]);
    FdsOne(r[|q|]);
  }

  lemma FdsOne(b: Ibuf)
    ensures Fds([b]) == FdOf(b)
  {
    assert [b][1..] == [];
  }

  predicate Marked(raw: bytes)
    requires HEADER_SIZE <= |raw|
  {
    GetHdr(raw[..HEADER_SIZE]).len >= FD_MARK
  }

  /** A complete message: as long as its header says, with a descriptor only if it is marked. */
  ghost predicate Complete(b: Ibuf) {
    Valid(b) && b.fd >= -1 && b.rpos == 0 && HEADER_SIZE <= |Data(b)| == MsgLen(Data(b)) &&
    (b.fd >= 0 ==> Marked(Data(b)))
  }

  ghost predicate Received(q: seq<Ibuf>) {
    forall i :: 0 <= i < |q| ==> Complete(q[i])
  }

  /** A message in progress: its header is there, but not all of its bytes. */
  ghost predicate InProgress(b: Ibuf, maxsize: nat) {
    Valid(b) && b.fd >= -1 && b.rpos == 0 && HEADER_SIZE <= |Data(b)| < b.max == MsgLen(Data(b)) <= maxsize &&
    (b.fd >= 0 ==> Marked(Data(b)))
  }

  /** The raw bytes of the messages received and not yet handed out. */
  ghost function Raw(q: seq<Ibuf>): seq<bytes>
    requires Received(q)
  {
    if q == [] then [] else Raw(q[..|q| - 1]) + [Data(q[|q| - 1])]
  }

  lemma PendingOne(b: Ibuf)
    requires Valid(b) && b.fd >= -1
    ensures ValidQueue([b]) && Pending([b]) == Data(b)
  {
    assert [b][1..] == [];
  }

  /** A queue that is empty or whose write is put off stays as it is. */
  lemma Unwritten(q: seq<Ibuf>, i: nat, taken: int)
    requires ValidQueue(q) && i == BatchFrom(q, 0) && (i == 0 || taken == -1) && -1 <= taken <= |Offered(q)|
    ensures (q == [] ==> Written(q, 0) == q && Offered(q) == []) && (i == 0 ==> q == [] && taken <= 0)
  {
    if q == [] { assert q[..0] == []; }
  }

  lemma OfferedIs(q: seq<Ibuf>)
    requires ValidQueue(q)
    ensures ValidQueue(q[..BatchFrom(q, 0)]) && Pending(q[..BatchFrom(q, 0)]) == Offered(q)
  {
    PendingSplit(q, BatchFrom(q, 0));
  }

  lemma SizeSum(a: nat, b: nat)
    ensures (a % (SIZE_MAX + 1) + b) % (SIZE_MAX + 1) == (a + b) % (SIZE_MAX + 1)
  {
  }

  /** A sum that wraps is past every limit, and so is refused later if not at first. */
  lemma SizeSmall(a: nat)
    ensures HEADER_SIZE + a <= SIZE_MAX ==> (HEADER_SIZE + a % (SIZE_MAX + 1)) % (SIZE_MAX + 1) == HEADER_SIZE + a
  {
  }

  lemma PendingNone(q: seq<Ibuf>)
    ensures q == [] ==> ValidQueue(q) && Pending(q) == []
  {
  }

  lemma BarePrefix(q: seq<Ibuf>, i: nat)
    requires ValidQueue(q) && 0 < i <= |q|
    ensures var r := q[0 := q[0].(fd := -1)];
      ValidQueue(q[..i]) && ValidQueue(r[..i]) && Pending(r[..i]) == Pending(q[..i])
  {
    PendingBare(q[..i]);
    assert q[0 := q[0].(fd := -1)][..i] == q[..i][0 := q[..i][0].(fd := -1)];
  }

  lemma Assoc<X>(a: seq<X>, b: seq<X>, c: seq<X>)
    ensures a + (b + c) == (a + b) + c
  {
  }
}
