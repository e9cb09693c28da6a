/**
 The byte stream of the imsg protocol (compat/imsg.c, compat/imsg-buffer.c): message framing,
 and what a receiver must make of any prefix of a stream.
 */
module ImsgWire {
  import opened Common

  type byte = x: int | 0 <= x < 0x100
  type uint32 = x: int | 0 <= x < 0x1_0000_0000
  type bytes = seq<byte>

  const HEADER_SIZE: nat := 16
  const FD_MARK: nat := 0x8000_0000
  const READ_SIZE: nat := 65535
  const DEFAULT_MAXSIZE: nat := 16384

  // ---------- 32-bit fields in host order (little endian) ----------

  function Put32(x: uint32): (b: bytes)
    ensures |b| == 4
  {
    [x % 0x100, x / 0x100 % 0x100, x / 0x1_0000 % 0x100, x / 0x100_0000]
  }

  function Get32(b: bytes): (x: uint32)
    requires |b| == 4
  {
    b[0] as int + 0x100 * (b[1] as int) + 0x1_0000 * (b[2] as int) + 0x100_0000 * (b[3] as int)
  }

  lemma PutGet32(x: uint32)
    ensures Get32(Put32(x)) == x
  {
    assert x / 0x100 / 0x100 == x / 0x1_0000 && x / 0x1_0000 / 0x100 == x / 0x100_0000;
  }

  lemma GetPut32(b: bytes)
    requires |b| == 4
    ensures Put32(Get32(b)) == b
  {
    var x := Get32(b);
    assert x / 0x100 == b[1] as int + 0x100 * (b[2] as int) + 0x1_0000 * (b[3] as int);
    assert x / 0x1_0000 == b[2] as int + 0x100 * (b[3] as int);
  }

  // ---------- messages ----------

  /** struct imsg_hdr */
  datatype Hdr = Hdr(typ: uint32, len: uint32, peerid: uint32, pid: uint32)

  function PutHdr(h: Hdr): (b: bytes)
    ensures |b| == HEADER_SIZE
  {
    Put32(h.typ) + Put32(h.len) + Put32(h.peerid) + Put32(h.pid)
  }

  function GetHdr(b: bytes): Hdr
    requires |b| == HEADER_SIZE
  {
    Hdr(Get32(b[0..4]), Get32(b[4..8]), Get32(b[8..12]), Get32(b[12..16]))
  }

  lemma PutGetHdr(h: Hdr)
    ensures GetHdr(PutHdr(h)) == h
  {
    var b := PutHdr(h);
    assert b[0..4] == Put32(h.typ) && b[4..8] == Put32(h.len) && b[8..12] == Put32(h.peerid) && b[12..16] == Put32(h.pid);
    PutGet32(h.typ);
    PutGet32(h.len);
    PutGet32(h.peerid);
    PutGet32(h.pid);
  }

  lemma GetPutHdr(b: bytes)
    requires |b| == HEADER_SIZE
    ensures PutHdr(GetHdr(b)) == b
  {
    GetPut32(b[0..4]);
    GetPut32(b[4..8]);
    GetPut32(b[8..12]);
    GetPut32(b[12..16]);
    assert b == b[0..4] + b[4..8] + b[8..12] + b[12..16];
  }

  /** What a sender composes and a receiver obtains. */
  datatype Msg = Msg(typ: uint32, id: uint32, pid: uint32, marked: bool, data: bytes)

  predicate Fits(m: Msg, maxsize: nat) {
    HEADER_SIZE + |m.data| <= maxsize
  }

  /** A message whose length leaves the descriptor mark free. */
  type Sendable = m: Msg | Fits(m, FD_MARK - 1) witness Msg(0, 0, 0, false, [])

  ghost predicate AllFit(ms: seq<Sendable>, maxsize: nat) {
    forall i :: 0 <= i < |ms| ==> Fits(ms[i], maxsize)
  }

  function LenField(size: nat, marked: bool): uint32
    requires size < FD_MARK
  {
    if marked then size + FD_MARK else size
  }

  function Encode(m: Sendable): bytes {
    PutHdr(Hdr(m.typ, LenField(HEADER_SIZE + |m.data|, m.marked), m.id, m.pid)) + m.data
  }

  /** What imsg_get() makes of a complete message. */
  function Decode(raw: bytes): Msg
    requires HEADER_SIZE <= |raw|
  {
    var h := GetHdr(raw[..HEADER_SIZE]);
    Msg(h.typ, h.peerid, h.pid, h.len >= FD_MARK, raw[HEADER_SIZE..])
  }

  lemma DecodeEncode(m: Sendable)
    ensures |Encode(m)| == HEADER_SIZE + |m.data| && Decode(Encode(m)) == m
    ensures GetHdr(Encode(m)[..HEADER_SIZE]).len % FD_MARK == |Encode(m)|
  {
    var h := Hdr(m.typ, LenField(HEADER_SIZE + |m.data|, m.marked), m.id, m.pid);
    PutGetHdr(h);
    assert Encode(m)[..HEADER_SIZE] == PutHdr(h) && Encode(m)[HEADER_SIZE..] == m.data;
  }

  /** The little-endian number in four bytes. */
  function Field(b: bytes, i: nat): (x: int)
    requires i + 4 <= |b|
  {
    var b0: int, b1: int, b2: int, b3: int := b[i], b[i + 1], b[i + 2], b[i + 3];
    b0 + 256 * (b1 + 256 * (b2 + 256 * b3))
  }

  lemma FieldIs(b: bytes, i: nat)
    requires i + 4 <= |b|
    ensures Field(b, i) == Get32(b[i..i + 4])
  {
  }

  /** A message on the wire: type, length with the mark in its top bit, id and pid, four bytes each, then the data. */
  lemma EncodeLayout(m: Sendable)
    ensures |Encode(m)| == HEADER_SIZE + |m.data| && Encode(m)[HEADER_SIZE..] == m.data
    ensures Field(Encode(m), 0) == m.typ && Field(Encode(m), 8) == m.id && Field(Encode(m), 12) == m.pid
    ensures Field(Encode(m), 4) == 16 + |m.data| + if m.marked then 0x8000_0000 else 0
  {
    hide Put32;
    hide Get32;
    hide Field;
    var len := LenField(HEADER_SIZE + |m.data|, m.marked);
    var b := Encode(m);
    assert b[0..4] == Put32(m.typ) && b[4..8] == Put32(len) && b[8..12] == Put32(m.id) && b[12..16] == Put32(m.pid);
    PutGet32(m.typ);
    PutGet32(len);
    PutGet32(m.id);
    PutGet32(m.pid);
    FieldIs(b, 0);
    FieldIs(b, 4);
    FieldIs(b, 8);
    FieldIs(b, 12);
  }

  /** What is read from these places. */
  lemma DecodeLayout(raw: bytes)
    requires HEADER_SIZE <= |raw|
    ensures Decode(raw).typ == Field(raw, 0) && Decode(raw).id == Field(raw, 8) && Decode(raw).pid == Field(raw, 12)
    ensures (Decode(raw).marked <==> Field(raw, 4) >= 0x8000_0000) && Decode(raw).data == raw[HEADER_SIZE..]
  {
    hide Get32;
    hide Field;
    var h := raw[..HEADER_SIZE];
    assert h[0..4] == raw[0..4] && h[4..8] == raw[4..8] && h[8..12] == raw[8..12] && h[12..16] == raw[12..16];
    FieldIs(raw, 0);
    FieldIs(raw, 4);
    FieldIs(raw, 8);
    FieldIs(raw, 12);
  }

  // ---------- framing ----------

  /** The length a header announces, with the descriptor mark removed. */
  function MsgLen(b: bytes): nat
    requires HEADER_SIZE <= |b|
  {
    GetHdr(b[..HEADER_SIZE]).len % FD_MARK
  }

  lemma MsgLenIs(b: bytes)
    requires HEADER_SIZE <= |b|
    ensures MsgLen(b) == if Field(b, 4) >= 0x8000_0000 then Field(b, 4) - 0x8000_0000 else Field(b, 4)
  {
    hide Field;
    assert b[..HEADER_SIZE][4..8] == b[4..8];
    FieldIs(b, 4);
  }

  /** What a stream of bytes amounts to: complete messages, then a tail that is not yet one; or
      complete messages up to a header announcing an impossible length. */
  datatype Stream = Good(msgs: seq<bytes>, tail: bytes) | Bad(msgs: seq<bytes>)

  function After(raw: bytes, s: Stream): Stream {
    match s
    case Good(msgs, tail) => Good([raw] + msgs, tail)
    case Bad(msgs) => Bad([raw] + msgs)
  }

  function Parse(max: nat, b: bytes): Stream
    decreases |b|
  {
    if |b| < HEADER_SIZE then Good([], b)
    else
      var len := MsgLen(b);
      if len < HEADER_SIZE || len > max then Bad([])
      else if |b| < len then Good([], b)
      else After(b[..len], Parse(max, b[len..]))
  }

  /** Going on with more bytes from where a stream stands. */
  function Continue(max: nat, s: Stream, more: bytes): Stream {
    match s
    case Bad(_) => s
    case Good(msgs, tail) =>
      match Parse(max, tail + more)
      case Good(msgs', tail') => Good(msgs + msgs', tail')
      case Bad(msgs') => Bad(msgs + msgs')
  }

  /** Reading on is the same as having read everything at once. */
  lemma {:induction false} ParseContinue(max: nat, a: bytes, b: bytes)
    ensures Parse(max, a + b) == Continue(max, Parse(max, a), b)
    decreases |a|
  {
    if |a| >= HEADER_SIZE {
      assert (a + b)[..HEADER_SIZE] == a[..HEADER_SIZE];
      var len := MsgLen(a);
      if HEADER_SIZE <= len <= max && len <= |a| {
        assert (a + b)[..len] == a[..len] && (a + b)[len..] == a[len..] + b;
        ParseContinue(max, a[len..], b);
        ContinueAfter(max, a[..len], Parse(max, a[len..]), b);
      }
    }
    match Parse(max, a)
    case Good(msgs, tail) => NoPrefix(msgs, Parse(max, tail + b).msgs);
    case Bad(msgs) =>
  }

  lemma NoPrefix<X>(a: seq<X>, b: seq<X>)
    ensures a == [] ==> a + b == b
  {
  }

  lemma ContinueAfter(max: nat, raw: bytes, s: Stream, b: bytes)
    ensures Continue(max, After(raw, s), b) == After(raw, Continue(max, s, b))
  {
    match s
    case Bad(_) =>
    case Good(msgs, tail) =>
      assert ([raw] + msgs) + Parse(max, tail + b).msgs == [raw] + (msgs + Parse(max, tail + b).msgs);
  }

  lemma {:induction false} ConcatPrefix(chunks: seq<bytes>, k: nat)
    requires k <= |chunks|
    ensures |Concat(chunks[..k])| <= |Concat(chunks)|
    decreases |chunks|
  {
    if k == |chunks| {
      assert chunks[..k] == chunks;
    } else {
      var front := chunks[..|chunks| - 1];
      assert front[..k] == chunks[..k];
      ConcatPrefix(front, k);
    }
  }

  ghost function ReadChunks(max: nat, chunks: seq<bytes>): Stream {
    if chunks == [] then Good([], [])
    else Continue(max, ReadChunks(max, chunks[..|chunks| - 1]), chunks[|chunks| - 1])
  }

  /** However the bytes are cut into reads, the outcome depends on their concatenation only. */
  lemma {:induction false} ChunkingIndependent(max: nat, chunks: seq<bytes>)
    ensures ReadChunks(max, chunks) == Parse(max, Concat(chunks))
  {
    if chunks != [] {
      var front, last := chunks[..|chunks| - 1], chunks[|chunks| - 1];
      ChunkingIndependent(max, front);
      ParseContinue(max, Concat(front), last);
    }
  }

  // ---------- streams of composed messages ----------

  ghost function EncodeAll(ms: seq<Sendable>): bytes {
    if ms == [] then [] else Encode(ms[0]) + EncodeAll(ms[1..])
  }

  ghost function Encodings(ms: seq<Sendable>): seq<bytes> {
    if ms == [] then [] else [Encode(ms[0])] + Encodings(ms[1..])
  }

  lemma ParseMessage(max: nat, m: Sendable, rest: bytes)
    ensures Parse(max, Encode(m) + rest) ==
      if Fits(m, max) then After(Encode(m), Parse(max, rest)) else Bad([])
  {
    DecodeEncode(m);
    var b := Encode(m) + rest;
    assert b[..HEADER_SIZE] == Encode(m)[..HEADER_SIZE];
    assert b[..|Encode(m)|] == Encode(m) && b[|Encode(m)|..] == rest;
  }

  lemma ParseShort(max: nat, b: bytes)
    requires |b| < HEADER_SIZE
    ensures Parse(max, b) == Good([], b)
  {
  }

  /** Part of a message is not yet a message. */
  lemma ParsePart(max: nat, m: Sendable, b: bytes)
    requires Fits(m, max) && b <= Encode(m) && |b| < |Encode(m)|
    ensures Parse(max, b) == Good([], b)
  {
    DecodeEncode(m);
    assert |b| >= HEADER_SIZE ==> b[..HEADER_SIZE] == Encode(m)[..HEADER_SIZE];
  }

  /** A stream is understood as exactly the messages composed if and only if the receiver's
      limit admits all of them. */
  lemma {:induction false} ParseAll(max: nat, ms: seq<Sendable>)
    ensures Parse(max, EncodeAll(ms)) == Good(Encodings(ms), []) <==> AllFit(ms, max)
  {
    hide Encode;
    hide Parse;
    if ms == [] {
      ParseShort(max, []);
    } else {
      ParseAll(max, ms[1..]);
      ParseMessage(max, ms[0], EncodeAll(ms[1..]));
      var e, p := Encode(ms[0]), Parse(max, EncodeAll(ms[1..]));
      assert ([e] + p.msgs)[1..] == p.msgs && ([e] + Encodings(ms[1..]))[1..] == Encodings(ms[1..]);
      assert AllFit(ms, max) <==> Fits(ms[0], max) && AllFit(ms[1..], max);
    }
  }

  /** Any prefix of a stream of messages that fit is understood as a prefix of the messages, and
      the tail is shorter than the next one. */
  lemma {:induction false} ParsePrefix(max: nat, ms: seq<Sendable>, b: bytes) returns (k: nat)
    requires AllFit(ms, max) && b <= EncodeAll(ms)
    ensures k <= |ms| && Parse(max, b).Good? && Parse(max, b).msgs == Encodings(ms[..k])
    ensures EncodeAll(ms[..k]) + Parse(max, b).tail == b
    ensures b == EncodeAll(ms) ==> k == |ms| && Parse(max, b).tail == []
    decreases |ms|
  {
    hide Encode;
    hide Parse;
    if ms == [] {
      k := 0;
      ParseShort(max, b);
    } else {
      var e, r := Encode(ms[0]), EncodeAll(ms[1..]);
      assert e + r == EncodeAll(ms);
      if |b| < |e| {
        k := 0;
        assert b == (e + r)[..|b|] == e[..|b|];
        ParsePart(max, ms[0], b);
      } else {
        var c := b[|e|..];
        assert b == e + c && c <= r;
        k := ParsePrefix(max, ms[1..], c);
        ParseMessage(max, ms[0], c);
        k := k + 1;
        assert ms[..k][1..] == ms[1..][..k - 1];
        assert e + EncodeAll(ms[1..][..k - 1]) + Parse(max, c).tail == e + (EncodeAll(ms[1..][..k - 1]) + Parse(max, c).tail);
      }
    }
  }

  /** Patching the length field of an encoded header in place. */
  lemma PatchLen(h: Hdr, len: uint32, data: bytes)
    ensures var b := PutHdr(h) + data;
      b[..4] + Put32(len) + b[8..] == PutHdr(h.(len := len)) + data
  {
    var b := PutHdr(h) + data;
    assert b[..4] == Put32(h.typ) && b[8..] == Put32(h.peerid) + Put32(h.pid) + data;
  }

  /** Messages obtained earlier, followed by what a stream still gives. */
  function Prepend(got: seq<bytes>, s: Stream): Stream {
    match s
    case Good(msgs, tail) => Good(got + msgs, tail)
    case Bad(msgs) => Bad(got + msgs)
  }

  lemma PrependAfter(got: seq<bytes>, raw: bytes, s: Stream)
    ensures Prepend(got, After(raw, s)) == Prepend(got + [raw], s)
    ensures Prepend([], s) == s
  {
    assert got + ([raw] + s.msgs) == (got + [raw]) + s.msgs;
    assert [] + s.msgs == s.msgs;
  }

  /** Moving bytes from the input `d` to the partial message `p` changes nothing until `p` is
      complete; then it is the next message. */
  lemma ParseStep(max: nat, p: bytes, d: bytes, sz: nat)
    requires HEADER_SIZE <= |p + d| && HEADER_SIZE <= MsgLen(p + d) <= max && |p| < MsgLen(p + d)
    requires sz <= |d| && |p| + sz <= MsgLen(p + d)
    ensures (p + d[..sz]) + d[sz..] == p + d
    ensures |p| + sz == MsgLen(p + d) ==> Parse(max, p + d) == After(p + d[..sz], Parse(max, d[sz..]))
  {
    var b := p + d;
    assert b[..|p| + sz] == p + d[..sz] && b[|p| + sz..] == d[sz..];
  }
}
