/**
 Two ends of an imsg channel joined by a byte stream: every run of composing, partial writes, partial reads and getting
 messages does what the pure machine does, and loses neither messages nor descriptors.
 */
module ImsgChannel {
  import opened Common
  import opened ImsgWire
  import opened IbufOps
  import opened Imsg
  import opened ImsgNet

  /** The sizes of a message are those of memory, and an ibuf is one that a caller can have. */
  ghost predicate Addressable(step: Step) {
    match step
    case Compose(_, _, _, _, data) => |data| <= SIZE_MAX
    case ComposeIbuf(_, _, _, b) => IbufOps.Valid(b) && b.fd >= -1
    case _ => true
  }

  lemma {:induction false} EncodeAllAppend(ms: seq<Sendable>, m: Sendable)
    ensures EncodeAll(ms + [m]) == EncodeAll(ms) + Encode(m)
  {
    hide Encode;
    if ms == [] {
      assert ms + [m] == [m] && [m][1..] == [];
    } else {
      assert (ms + [m])[1..] == ms[1..] + [m];
      EncodeAllAppend(ms[1..], m);
      assert EncodeAll(ms + [m]) == Encode(ms[0]) + (EncodeAll(ms[1..]) + Encode(m));
    }
  }

  lemma {:induction false} EncodingsAt(ms: seq<Sendable>, i: nat)
    requires i < |ms|
    ensures |Encodings(ms)| == |ms| && Encodings(ms)[i] == Encode(ms[i])
  {
    if i > 0 {
      EncodingsAt(ms[1..], i - 1);
    } else if |ms| > 1 {
      EncodingsAt(ms[1..], 0);
    }
  }

  lemma {:induction false} EncodingsLength(ms: seq<Sendable>)
    ensures |Encodings(ms)| == |ms|
  {
    if ms != [] {
      EncodingsLength(ms[1..]);
    }
  }

  /** The messages handed out so far stand for these raw messages. */
  ghost predicate Decoded(obtained: seq<Msg>, handed: seq<bytes>) {
    |obtained| == |handed| &&
    forall i :: 0 <= i < |handed| ==> HEADER_SIZE <= |handed[i]| && obtained[i] == Decode(handed[i])
  }

  /** Raw messages that are a prefix of the encodings decode to a prefix of the messages. */
  lemma DecodedPrefix(obtained: seq<Msg>, handed: seq<bytes>, rest: seq<bytes>, ms: seq<Sendable>)
    requires Decoded(obtained, handed) && handed + rest == Encodings(ms)
    ensures |obtained| <= |ms| && obtained == ms[..|obtained|]
  {
    hide Encode;
    hide Decode;
    EncodingsLength(ms);
    forall i | 0 <= i < |obtained| ensures obtained[i] == ms[i] {
      EncodingsAt(ms, i);
      DecodeEncode(ms[i]);
      assert handed[i] == (handed + rest)[i];
    }
  }

  class Channel {
    const tx: Imsgbuf
    const rx: Imsgbuf
    /** What is between the ends. */
    var wire: bytes
    var fds: seq<int>
    /** What the receiver's user has got. */
    var obtained: seq<Msg>
    var handedFds: seq<int>
    /** What was composed and has arrived. */
    ghost var sent: seq<Sendable>
    ghost var arrived: seq<int>
    ghost var delivered: bytes
    ghost var handed: seq<bytes>

    /** Everything composed is delivered, on the wire or pending, in this order. */
    ghost predicate TxPart()
      reads `sent, `delivered, `wire, tx
    {
      tx.WriteValid() && SentBare(tx.bufs, tx.partial) && AllFit(sent, tx.maxsize) &&
      EncodeAll(sent) == delivered + wire + Pending(tx.bufs)
    }

    /** Everything delivered has been handed out, is queued, or is the reader's tail. */
    ghost predicate RxPart()
      reads `delivered, `handed, rx
    {
      rx.ReadValid() && Parse(rx.maxsize, delivered) == Good(handed + Raw(rx.rbufs), rx.Tail())
    }

    ghost predicate Valid()
      reads this, tx, rx
    {
      tx != rx && tx.maxsize <= rx.maxsize && tx.maxsize < FD_MARK && TxPart() && RxPart() && Decoded(obtained, handed) &&
      forall i :: 0 <= i < |fds| ==> fds[i] >= 0
    }

    ghost function Params(): (e: Ends)
      reads tx`maxsize, tx`pid, rx`maxsize, rx`fdpass
    {
      Ends(tx.maxsize, tx.pid, rx.maxsize, rx.fdpass)
    }

    /** The state that the machine sees. */
    ghost function State(): (s: Net)
      requires Valid()
      reads this, tx, rx
    {
      Net(Items(tx.bufs), wire, fds, Raw(rx.rbufs), rx.Tail(), sent, obtained, arrived)
    }

    constructor (tx: Imsgbuf, rx: Imsgbuf)
      requires tx != rx && tx.WriteValid() && rx.ReadValid() && tx.maxsize <= rx.maxsize && !tx.partial
      requires tx.bufs == [] && rx.rbufs == [] && rx.rpmsg == None && rx.rbuf == []
      ensures Valid() && this.tx == tx && this.rx == rx && State() == Net([], [], [], [], [], [], [], []) && handedFds == []
    {
      this.tx, this.rx := tx, rx;
      wire, obtained, sent, delivered, handed := [], [], [], [], [];
      fds, handedFds, arrived := [], [], [];
    }

    /** What is handed out is a prefix of what was composed, and all of it once nothing is under way. */
    lemma Delivery()
      requires Valid()
      ensures |obtained| <= |sent| && obtained == sent[..|obtained|]
      ensures wire == [] && Pending(tx.bufs) == [] && rx.rbufs == [] ==> obtained == sent && rx.Tail() == []
    {
      hide Encode;
      hide Parse;
      hide Decoded;
      assert delivered <= EncodeAll(sent);
      var k := ParsePrefix(rx.maxsize, sent, delivered);
      DecodedPrefix(obtained, handed, Raw(rx.rbufs), sent[..k]);
      assert sent[..k][..|obtained|] == sent[..|obtained|];
      if wire == [] && Pending(tx.bufs) == [] && rx.rbufs == [] {
        assert delivered == EncodeAll(sent);
        EncodingsLength(sent[..k]);
        assert |handed| == |sent| by { assert handed + [] == handed; }
        assert Decoded(obtained, handed);
        SameLength(obtained, handed);
      }
    }

    lemma SameLength(o: seq<Msg>, h: seq<bytes>)
      requires Decoded(o, h)
      ensures |o| == |h|
    {
    }

    /** The sender composes a message, which may be too long and refused. */
    method StepCompose(step: Step)
      requires Valid() && Addressable(step) && MsgOf(Params(), step).Some?
      modifies this, tx`bufs, tx`queued, tx`closed
      ensures Valid() && State() == Next(Params(), old(State()), step)
      ensures tx.Holds() == old(tx.Holds()) + GivenBy(Params(), step)
      ensures handedFds == old(handedFds) && arrived == old(arrived) && rx.Holds() == old(rx.Holds())
    {
      hide Items;
      hide Raw;
      hide Decoded;
      hide QueuedBy;
      hide AcceptedBy;
      hide GivenBy;
      hide Channel.TxPart;
      hide Channel.RxPart;
      hide Imsgbuf.Holds;
      hide Imsgbuf.Tail;
      ComposeParts(step);
    }

    /** The same for what is queued and composed. */
    method ComposeParts(step: Step)
      requires Valid() && Addressable(step) && MsgOf(Params(), step).Some?
      modifies `sent, tx`bufs, tx`queued, tx`closed
      ensures Valid() && tx.Holds() == old(tx.Holds()) + GivenBy(Params(), step)
      ensures Items(tx.bufs) == old(Items(tx.bufs)) + QueuedBy(Params(), step)
      ensures sent == old(sent) + AcceptedBy(Params(), step)
    {
      hide Encode;
      hide EncodeAll;
      hide AllFit;
      hide Decoded;
      hide Pending;
      hide SentBare;
      hide Items;
      hide QueuedBy;
      hide GivenBy;
      hide Channel.RxPart;
      hide Imsgbuf.Holds;
      ghost var q, p := tx.bufs, Pending(tx.bufs);
      ghost var ms := AcceptedBy(Params(), step);
      Send(step);
      if ms == [] {
        NothingSent(sent);
      } else {
        SentGrows(sent, ms[0], tx.maxsize, q, tx.bufs, tx.partial);
        Assoc(delivered + wire, p, Encode(ms[0]));
        sent := sent + ms;
      }
    }

    /** The call that a composing step stands for. */
    method Send(step: Step)
      requires tx.WriteValid() && Addressable(step) && MsgOf(Params(), step).Some?
      modifies tx`bufs, tx`queued, tx`closed
      ensures tx.WriteValid() && tx.Holds() == old(tx.Holds()) + GivenBy(Params(), step)
      ensures Grew(old(tx.bufs), tx.bufs, AcceptedBy(Params(), step), QueuedBy(Params(), step))
    {
      hide Grew;
      hide GivenBy;
      hide QueuedBy;
      hide AcceptedBy;
      hide Imsgbuf.Holds;
      match step
      case Compose(_, _, _, _, _) => SendData(step);
      case ComposeV(_, _, _, _, _) => SendPieces(step);
      case ComposeIbuf(_, _, _, _) => SendIbuf(step);
    }

    method SendData(step: Step)
      requires tx.WriteValid() && Addressable(step) && step.Compose?
      modifies tx`bufs, tx`queued
      ensures tx.WriteValid() && tx.Holds() == old(tx.Holds()) + GivenBy(Params(), step)
      ensures Grew(old(tx.bufs), tx.bufs, AcceptedBy(Params(), step), QueuedBy(Params(), step))
    {
      hide Encode;
      hide Pending;
      hide Items;
      hide FdSeq;
      hide Data;
      hide Imsgbuf.Holds;
      ghost var q := tx.bufs;
      var _ := tx.Compose(step.typ, step.id, step.pid, step.fd, step.data);
      GrewItems(q, tx.bufs, AcceptedBy(Params(), step), QueuedBy(Params(), step));
    }

    method SendPieces(step: Step)
      requires tx.WriteValid() && step.ComposeV?
      modifies tx`bufs, tx`queued
      ensures tx.WriteValid() && tx.Holds() == old(tx.Holds()) + GivenBy(Params(), step)
      ensures Grew(old(tx.bufs), tx.bufs, AcceptedBy(Params(), step), QueuedBy(Params(), step))
    {
      hide Encode;
      hide Pending;
      hide Items;
      hide FdSeq;
      hide Data;
      hide Imsgbuf.Holds;
      ghost var q := tx.bufs;
      var _ := tx.ComposeV(step.typ, step.id, step.pid, step.fd, step.iov);
      GrewItems(q, tx.bufs, AcceptedBy(Params(), step), QueuedBy(Params(), step));
    }

    method SendIbuf(step: Step)
      requires tx.WriteValid() && Addressable(step) && step.ComposeIbuf?
      modifies tx`bufs, tx`queued, tx`closed
      ensures tx.WriteValid() && tx.Holds() == old(tx.Holds()) + GivenBy(Params(), step)
      ensures Grew(old(tx.bufs), tx.bufs, AcceptedBy(Params(), step), QueuedBy(Params(), step))
    {
      hide Encode;
      hide Pending;
      hide Items;
      hide Data;
      hide Sends;
      hide GivenBy;
      hide QueuedBy;
      hide AcceptedBy;
      hide Grew;
      hide Imsgbuf.Holds;
      ghost var q, m := tx.bufs, tx.Composed(step.typ, step.id, step.pid, -1, Data(step.buf));
      IbufStep(Params(), step, m);
      var _ := tx.ComposeIbuf(step.typ, step.id, step.pid, step.buf);
      GrewItems(q, tx.bufs, AcceptedBy(Params(), step), QueuedBy(Params(), step));
    }

    /** The sender's socket takes some bytes of the next batch, or none for now. */
    method StepWrite(n: int)
      requires Valid()
      modifies this, tx`bufs, tx`queued, tx`closed, tx`partial
      ensures Valid() && State() == Next(Params(), old(State()), Write(n)) && handedFds == old(handedFds)
      ensures tx.Holds() == old(tx.Holds()) && arrived == old(arrived) && rx.Holds() == old(rx.Holds())
      ensures tx.closed == old(tx.closed) + fds[|old(fds)|..] && old(fds) <= fds
    {
      hide Decoded;
      hide Pending;
      hide BatchFrom;
      hide Items;
      hide Offered;
      hide Written;
      hide EncodeAll;
      hide AllFit;
      hide Sends;
      hide Next;
      hide Channel.RxPart;
      hide Imsgbuf.Holds;
      hide Imsgbuf.Tail;
      ghost var q, p, s, f := tx.bufs, Pending(tx.bufs), State(), fds;
      var i, _ := tx.Batch();
      OfferedIs(q);
      var m := |Pending(tx.bufs[..i])|;
      var taken := if n < 0 then -1 else if n < m then n else m;
      var out, sentFd := tx.MsgbufWrite(taken);
      WriteSpec(p, delivered, wire, out, Pending(tx.bufs));
      NextWrite(Params(), s, q, n, taken, out, sentFd);
      wire := wire + out;
      fds := fds + FdSeq(sentFd);
      assert fds[|f|..] == FdSeq(sentFd);
    }

    /** The receiver reads some bytes, and with them the next descriptor if the system hands it over now. */
    method StepRead(n: nat, take: bool)
      requires Valid()
      modifies this, rx`rbufs, rx`rpmsg, rx`rbuf, rx`closed
      ensures Valid() && State() == Next(Params(), old(State()), Read(n, take)) && handedFds == old(handedFds)
      ensures old(arrived) <= arrived && rx.Holds() == old(rx.Holds()) + multiset(arrived[|old(arrived)|..])
      ensures tx.Holds() == old(tx.Holds())
    {
      hide Parse;
      hide Decoded;
      hide Next;
      hide FdSeq;
      hide Channel.TxPart;
      hide Channel.RxPart;
      hide Imsgbuf.Holds;
      RoomHere();
      ghost var s := State();
      var k := Min(n, Min(|wire|, READ_SIZE - |rx.rbuf|));
      var f := if take && rx.fdpass && fds != [] then fds[0] else -1;
      NextRead(Params(), s, n, take, k, f);
      hide Channel.State;
      if k == 0 {
        NoneNew(arrived);
        return;
      }
      Arrive(k, f);
    }

    /** The same for the bytes and the descriptor that it takes. */
    method Arrive(k: nat, f: int)
      requires Valid() && 0 < k <= |wire| && k <= READ_SIZE - |rx.rbuf| && f >= -1 && (!rx.fdpass ==> f == -1)
      requires f >= 0 ==> fds != [] && f == fds[0]
      modifies this, rx`rbufs, rx`rpmsg, rx`rbuf, rx`closed
      ensures Valid() && |FdSeq(f)| <= |old(fds)| && handedFds == old(handedFds)
      ensures var s, p := old(State()), Parse(rx.maxsize, old(rx.Tail()) + old(wire)[..k]);
        p.Good? && State() == s.(wire := s.wire[k..], fds := s.fds[|FdSeq(f)|..], raw := s.raw + p.msgs, tail := p.tail,
          arrived := s.arrived + FdSeq(f))
      ensures old(arrived) <= arrived && rx.Holds() == old(rx.Holds()) + multiset(arrived[|old(arrived)|..])
      ensures tx.Holds() == old(tx.Holds())
    {
      hide Parse;
      hide Decoded;
      hide Items;
      hide Raw;
      hide FdSeq;
      hide Channel.TxPart;
      hide Channel.RxPart;
      hide Imsgbuf.Tail;
      hide Imsgbuf.Holds;
      OneFd(f, fds);
      FewerFds(fds, |FdSeq(f)|);
      ReadChunk(k, f);
      assert (arrived + FdSeq(f))[|arrived|..] == FdSeq(f);
      arrived := arrived + FdSeq(f);
      fds := fds[|FdSeq(f)|..];
    }

    lemma RoomHere()
      requires Valid()
      ensures Room(State().tail) == READ_SIZE - |rx.rbuf| >= 0
    {
      RoomIs(rx);
    }

    /** The same for the bytes. */
    method ReadChunk(k: nat, f: int)
      requires Valid() && 0 < k <= |wire| && k <= READ_SIZE - |rx.rbuf| && f >= -1 && (!rx.fdpass ==> f == -1)
      modifies `delivered, `wire, rx`rbufs, rx`rpmsg, rx`rbuf, rx`closed
      ensures Valid() && wire == old(wire)[k..]
      ensures var p := Parse(rx.maxsize, old(rx.Tail()) + old(wire)[..k]);
        p.Good? && Raw(rx.rbufs) == old(Raw(rx.rbufs)) + p.msgs && rx.Tail() == p.tail
      ensures rx.Holds() == old(rx.Holds()) + multiset(FdSeq(f))
    {
      hide EncodeAll;
      hide AllFit;
      hide Parse;
      hide Decoded;
      hide Pending;
      hide Raw;
      hide FdSeq;
      hide SentBare;
      hide Imsgbuf.Holds;
      AllFitMore(sent, tx.maxsize, rx.maxsize);
      var chunk := wire[..k];
      ReadSpec(rx.maxsize, delivered, chunk, sent, wire, Pending(tx.bufs), handed, Raw(rx.rbufs), rx.Tail());
      var _ := rx.Read(chunk, f);
      delivered := delivered + chunk;
      wire := wire[k..];
    }

    /** The receiver takes the oldest complete message, if there is one, and its descriptor. */
    method StepReceive()
      requires Valid()
      modifies this, rx`rbufs
      ensures Valid() && State() == Next(Params(), old(State()), Step.Receive) && arrived == old(arrived)
      ensures tx.Holds() == old(tx.Holds())
      ensures handedFds == old(handedFds) + if old(rx.rbufs) == [] then [] else FdOf(old(rx.rbufs)[0])
      ensures rx.Holds() + multiset(handedFds) == old(rx.Holds()) + multiset(old(handedFds))
    {
      hide Parse;
      hide Decode;
      hide Raw;
      hide Items;
      hide FdSeq;
      hide FdOf;
      hide Channel.TxPart;
      hide Imsgbuf.Holds;
      hide MsgLen;
      ghost var raw := if rx.rbufs == [] then [] else Data(rx.rbufs[0]);
      ghost var h, q, a := handed, Raw(rx.rbufs), handedFds;
      RawNone(rx.rbufs);
      var r, m, fd := rx.Receive();
      if m.Some? {
        obtained := obtained + [m.value];
        handed := handed + [raw];
        Assoc(h, [raw], Raw(rx.rbufs));
        handedFds := handedFds + FdSeq(fd);
        Taken(rx.Holds(), multiset(a), multiset(FdSeq(fd)));
      }
    }

    /** Every step is a step of the machine; the sender holds what it was given, and the receiver what arrived and was
        not handed out. */
    method Perform(step: Step)
      requires Valid() && Addressable(step)
      modifies this, tx`bufs, tx`queued, tx`closed, tx`partial, rx`rbufs, rx`rpmsg, rx`rbuf, rx`closed
      ensures Valid() && State() == Next(Params(), old(State()), step) && old(arrived) <= arrived
      ensures tx.Holds() == old(tx.Holds()) + GivenBy(Params(), step)
      ensures rx.Holds() + multiset(handedFds)
        == old(rx.Holds()) + multiset(old(handedFds)) + multiset(arrived[|old(arrived)|..])
    {
      hide Next;
      hide GivenBy;
      hide Decoded;
      hide Addressable;
      hide Channel.State;
      hide Channel.RxPart;
      hide Channel.TxPart;
      hide Imsgbuf.Holds;
      ghost var a := arrived;
      GivenNone(Params(), step);
      match step {
        case Write(n) => StepWrite(n);
        case Read(n, take) => StepRead(n, take);
        case Receive => StepReceive();
        case _ => StepCompose(step);
      }
      if arrived == a { NoneNew(a); }
    }

    /** After every run the channel is where the machine is: the messages composed are those of the steps that fit; the
        messages obtained are a prefix of them, and all of them once nothing is under way; and every descriptor that
        was handed to the sender is held or closed by it, and every one that arrived at the receiver is held, closed or
        handed out by it, exactly once. */
    method Run(steps: seq<Step>)
      requires Valid() && forall i :: 0 <= i < |steps| ==> Addressable(steps[i])
      modifies this, tx`bufs, tx`queued, tx`closed, tx`partial, rx`rbufs, rx`rpmsg, rx`rbuf, rx`closed
      ensures Valid() && State() == RunNet(Params(), old(State()), steps)
      ensures sent == old(sent) + Accepted(Params(), steps)
      ensures |obtained| <= |sent| && obtained == sent[..|obtained|]
      ensures wire == [] && Pending(tx.bufs) == [] && rx.rbufs == [] ==> obtained == sent
      ensures tx.Holds() == old(tx.Holds()) + Given(Params(), steps)
      ensures old(arrived) <= arrived
      ensures rx.Holds() + multiset(handedFds)
        == old(rx.Holds()) + multiset(old(handedFds)) + multiset(arrived[|old(arrived)|..])
    {
      hide Next;
      hide Items;
      hide Raw;
      hide Parse;
      hide Pending;
      hide RunNet;
      hide Given;
      hide Accepted;
      hide Imsgbuf.Holds;
      hide Imsgbuf.Tail;
      hide Channel.RxPart;
      hide Channel.TxPart;
      RunSent(Params(), State(), steps);
      RunSteps(steps);
      Delivery();
    }

    /** The loop over the steps. */
    method RunSteps(steps: seq<Step>)
      requires Valid() && forall i :: 0 <= i < |steps| ==> Addressable(steps[i])
      modifies this, tx`bufs, tx`queued, tx`closed, tx`partial, rx`rbufs, rx`rpmsg, rx`rbuf, rx`closed
      ensures Valid() && State() == RunNet(Params(), old(State()), steps)
      ensures tx.Holds() == old(tx.Holds()) + Given(Params(), steps)
      ensures old(arrived) <= arrived
      ensures rx.Holds() + multiset(handedFds)
        == old(rx.Holds()) + multiset(old(handedFds)) + multiset(arrived[|old(arrived)|..])
    {
      hide Next;
      hide RunNet;
      hide Given;
      hide GivenBy;
      hide Addressable;
      hide Imsgbuf.Holds;
      hide Channel.State;
      hide Channel.RxPart;
      hide Channel.TxPart;
      hide Decoded;
      ghost var e, s, a, t0, r0 := Params(), State(), arrived, tx.Holds(), rx.Holds() + multiset(handedFds);
      assert arrived[|a|..] == [];
      RunNone(e, s, steps[..0]);
      for i := 0 to |steps|
        invariant Valid() && Params() == e && State() == RunNet(e, s, steps[..i]) && a <= arrived
        invariant tx.Holds() == t0 + Given(e, steps[..i])
        invariant rx.Holds() + multiset(handedFds) == r0 + multiset(arrived[|a|..])
      {
        ghost var b := arrived;
        RunMore(e, s, steps, i);
        Plus(t0, Given(e, steps[..i]), GivenBy(e, steps[i]));
        Perform(steps[i]);
        assert arrived[|a|..] == b[|a|..] + arrived[|b|..];
        Plus(r0, multiset(b[|a|..]), multiset(arrived[|b|..]));
      }
      assert steps[..|steps|] == steps;
    }
  }

  lemma RunNone(e: Ends, s: Net, steps: seq<Step>)
    requires e.txMax < FD_MARK && steps == []
    ensures RunNet(e, s, steps) == s && Given(e, steps) == multiset{}
  {
  }

  lemma RunMore(e: Ends, s: Net, steps: seq<Step>, i: nat)
    requires e.txMax < FD_MARK && i < |steps|
    ensures RunNet(e, s, steps[..i + 1]) == Next(e, RunNet(e, s, steps[..i]), steps[i])
    ensures Given(e, steps[..i + 1]) == Given(e, steps[..i]) + GivenBy(e, steps[i])
  {
    assert steps[..i + 1][..i] == steps[..i];
  }

  lemma GivenNone(e: Ends, step: Step)
    requires e.txMax < FD_MARK
    ensures step.Write? || step.Read? || step.Receive? ==> forall m: multiset<int> :: m + GivenBy(e, step) == m
    ensures step.Compose? || step.ComposeV? || step.ComposeIbuf? <==> MsgOf(e, step).Some?
  {
  }

  lemma NoneNew(a: seq<int>)
    ensures forall m: multiset<int> :: m + multiset(a[|a|..]) == m
  {
    assert a[|a|..] == [];
  }

  lemma Plus(a: multiset<int>, b: multiset<int>, c: multiset<int>)
    ensures a + (b + c) == a + b + c
  {
  }

  /** What is left over of a header is what the receiver's buffer holds. */
  lemma RoomIs(rx: Imsgbuf)
    requires rx.ReadValid()
    ensures Room(rx.Tail()) == READ_SIZE - |rx.rbuf|
  {
  }

  lemma FewerFds(fds: seq<int>, k: nat)
    requires k <= |fds| && forall i :: 0 <= i < |fds| ==> fds[i] >= 0
    ensures forall i :: 0 <= i < |fds[k..]| ==> fds[k..][i] >= 0
  {
  }

  lemma OneFd(f: int, fds: seq<int>)
    requires f >= 0 ==> fds != [] && f == fds[0]
    ensures |FdSeq(f)| <= |fds| && FdSeq(f) == fds[..|FdSeq(f)|]
  {
  }

  lemma RawNone(q: seq<Ibuf>)
    requires Received(q)
    ensures Raw(q) == [] <==> q == []
  {
  }

  /** What a read does to the state, in terms of the bytes and the descriptor that it takes. */
  lemma NextRead(e: Ends, s: Net, n: nat, take: bool, k: nat, f: int)
    requires e.txMax < FD_MARK && k == Min(n, Min(|s.wire|, Room(s.tail)))
    requires (forall i :: 0 <= i < |s.fds| ==> s.fds[i] >= 0) && f == if take && e.fdpass && s.fds != [] then s.fds[0] else -1
    ensures k == 0 ==> Next(e, s, Read(n, take)) == s
    ensures k > 0 ==> var p := Parse(e.rxMax, s.tail + s.wire[..k]);
      p.Good? ==> Next(e, s, Read(n, take)) == s.(wire := s.wire[k..], fds := s.fds[|FdSeq(f)|..],
        raw := s.raw + p.msgs, tail := p.tail, arrived := s.arrived + FdSeq(f))
  {
    hide Parse;
  }

  /** What a step with an ibuf adds and hands over. */
  lemma IbufStep(e: Ends, step: Step, m: Msg)
    requires e.txMax < FD_MARK && step.ComposeIbuf? && IbufOps.Valid(step.buf)
    requires m == Msg(step.typ, step.id, if step.pid == 0 then e.pid else step.pid, false, Data(step.buf))
    ensures GivenBy(e, step) == multiset(FdOf(step.buf))
    ensures !Fits(m, e.txMax) ==> AcceptedBy(e, step) == [] && QueuedBy(e, step) == []
    ensures Fits(m, e.txMax) ==> AcceptedBy(e, step) == [m] && |Encode(m)| >= HEADER_SIZE
    ensures Fits(m, e.txMax) ==> QueuedBy(e, step) == [Item(Encode(m)[..HEADER_SIZE], -1), Item(Data(step.buf), step.buf.fd)]
    ensures |Data(step.buf)| == Size(step.buf)
  {
    hide Encode;
    if Fits(m, e.txMax) { DecodeEncode(m); }
  }

  /** A queue that took on the items of an accepted message. */
  ghost predicate Grew(q: seq<Ibuf>, r: seq<Ibuf>, ms: seq<Sendable>, more: seq<Item>) {
    ValidQueue(q) && ValidQueue(r) && Items(r) == Items(q) + more &&
    (ms == [] ==> r == q) &&
    (ms != [] ==> |r| > |q| && r[..|q|] == q && Pending(r) == Pending(q) + Encode(ms[0]))
  }

  lemma GrewItems(q: seq<Ibuf>, r: seq<Ibuf>, ms: seq<Sendable>, more: seq<Item>)
    requires ValidQueue(q) && ValidQueue(r) && |r| == |q| + |more| && (more == [] <==> ms == []) && r[..|q|] == q
    requires forall i :: 0 <= i < |more| ==> more[i] == Item(Data(r[|q| + i]), r[|q| + i].fd)
    requires ms != [] ==> Pending(r) == Pending(q) + Encode(ms[0])
    ensures Grew(q, r, ms, more)
  {
    ItemsGrown(q, r, more);
    assert ms == [] ==> r == r[..|q|];
  }

  lemma WriteSpec(p: bytes, delivered: bytes, wire: bytes, out: bytes, rest: bytes)
    requires p == out + rest
    ensures delivered + wire + p == delivered + (wire + out) + rest
  {
  }

  /** What a write does to the state, in terms of ibufs. */
  lemma NextWrite(e: Ends, s: Net, q: seq<Ibuf>, n: int, taken: int, out: bytes, sentFd: int)
    requires e.txMax < FD_MARK && ValidQueue(q) && s.queue == Items(q)
    requires taken == if n < 0 then -1 else if n < |Offered(q)| then n else |Offered(q)|
    requires out <= Pending(q) && |out| == if taken == -1 then 0 else taken
    requires sentFd == if taken == -1 || q == [] then -1 else q[0].fd
    ensures Next(e, s, Write(n)) == s.(queue := Items(if taken == -1 then q else Written(q, taken)),
                                       wire := s.wire + out, fds := s.fds + FdSeq(sentFd))
  {
    hide Drained;
    ItemsOffered(q);
    PendingSplit(q, BatchFrom(q, 0));
    assert s.wire + [] == s.wire && s.fds + [] == s.fds;
    if taken >= 0 {
      ItemsWritten(q, taken);
      assert out == Offered(q)[..taken];
    }
    if q == [] { Unwritten(q, 0, -1); }
  }

  lemma NothingSent(ms: seq<Sendable>)
    ensures ms + [] == ms
  {
  }

  lemma Taken(a: multiset<int>, b: multiset<int>, c: multiset<int>)
    ensures a + (b + c) == (a + c) + b
  {
  }

  lemma AllFitMore(ms: seq<Sendable>, m: nat, n: nat)
    requires AllFit(ms, m) && m <= n
    ensures AllFit(ms, n)
  {
  }

  lemma SentGrows(ms: seq<Sendable>, m: Sendable, max: nat, q: seq<Ibuf>, r: seq<Ibuf>, partial: bool)
    requires AllFit(ms, max) && Fits(m, max) && SentBare(q, partial) && |r| > |q| && r[..|q|] == q
    ensures AllFit(ms + [m], max) && EncodeAll(ms + [m]) == EncodeAll(ms) + Encode(m) && SentBare(r, partial)
  {
    EncodeAllAppend(ms, m);
    assert q != [] ==> r[0] == r[..|q|][0];
  }

  lemma Regroup(d: bytes, c: bytes, w: bytes, p: bytes)
    ensures d + (c + w) + p == (d + c) + w + p && d + c <= (d + c) + w + p
  {
  }

  /** Reading the next chunk of a stream of messages that fit continues the parse, and well. */
  lemma ReadSpec(max: nat, delivered: bytes, chunk: bytes, sent: seq<Sendable>, wire: bytes, pending: bytes,
                 handed: seq<bytes>, got: seq<bytes>, tail: bytes)
    requires AllFit(sent, max) && EncodeAll(sent) == delivered + wire + pending && chunk <= wire
    requires Parse(max, delivered) == Good(handed + got, tail)
    ensures Prepend(got, Parse(max, tail + chunk)).Good?
    ensures Parse(max, delivered + chunk) == Prepend(handed, Prepend(got, Parse(max, tail + chunk)))
    ensures delivered + wire + pending == (delivered + chunk) + wire[|chunk|..] + pending
  {
    hide Encode;
    hide EncodeAll;
    hide Parse;
    ParseContinue(max, delivered, chunk);
    assert wire == chunk + wire[|chunk|..];
    Regroup(delivered, chunk, wire[|chunk|..], pending);
    var k := ParsePrefix(max, sent, delivered + chunk);
    Assoc(handed, got, Parse(max, tail + chunk).msgs);
  }
}
