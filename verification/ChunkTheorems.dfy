/**
 Theorems about the RTMP chunk layer: a reader fed by any interleaving of the
 chunks of any messages delivers exactly those messages; what `Conn.Write`
 sends is what `Conn.Read` delivers; what any input at all does to the state.
 */
module ChunkTheorems {
  import opened Bytes
  import opened ChunkSpec

  // ---- Fields and headers ------------------------------------------------

  lemma ReadBEOf(v: nat, n: nat, rest: seq<byte>)
    requires v < Pow256(n)
    ensures In(BE(v, n) + rest, false).ReadBE(n) == (v, In(rest, false))
  {
    var s := BE(v, n) + rest;
    assert s[..n] == BE(v, n) && s[n..] == rest;
    BERoundTrip(v, n);
  }

  lemma ReadLEOf(v: nat, n: nat, rest: seq<byte>)
    requires v < Pow256(n)
    ensures In(LE(v, n) + rest, false).ReadLE(n) == (v, In(rest, false))
  {
    var s := LE(v, n) + rest;
    assert s[..n] == LE(v, n) && s[n..] == rest;
    LERoundTrip(v, n);
  }

  /** The six id bits of the basic header: chunk streams from 64 on share keys 0 and 1. */
  function Key(csid: nat): (k: nat)
    ensures k < 64
  {
    if csid < 64 then csid else if csid < 320 then 0 else 1
  }

  predicate GoodCsid(csid: nat) { 2 <= csid <= 65599 }

  lemma BasicHeaderRead(fmt: nat, csid: nat, rest: seq<byte>)
    requires fmt < 4 && GoodCsid(csid)
    ensures var (h, i1) := In(BasicHeader(fmt, csid) + rest, false).ReadBE(1);
            h / 64 == fmt && h % 64 == Key(csid) && ReadCsid(Key(csid), i1) == (csid, In(rest, false))
  {
    Pow256Values();
    if csid < 64 {
      ReadBEOf(fmt * 64 + csid, 1, rest);
    } else if csid < 320 {
      var tail := LE(csid - 64, 1) + rest;
      assert BasicHeader(fmt, csid) + rest == BE(fmt * 64, 1) + tail;
      ReadBEOf(fmt * 64, 1, tail);
      ReadLEOf(csid - 64, 1, rest);
    } else {
      var tail := LE(csid - 64, 2) + rest;
      assert BasicHeader(fmt, csid) + rest == BE(fmt * 64 + 1, 1) + tail;
      ReadBEOf(fmt * 64 + 1, 1, tail);
      ReadLEOf(csid - 64, 2, rest);
    }
  }

  /** Exactly the messages that survive the chunk layer. */
  predicate Representable(m: Msg) {
    && GoodCsid(m.csid)
    && m.timestamp < 0x1_0000_0000
    && m.typeID < 256
    && m.streamID < 0x1_0000_0000
    && 1 <= |m.data| <= 512000
    && (m.typeID == 1 || m.typeID == 5 ==> |m.data| >= 4)
  }

  function ToMsg(c: Chunk): Msg {
    Msg(c.csid, c.timestamp, c.typeID, c.streamID, c.data)
  }

  /** `cs` has received the first `sent` bytes of `m`. */
  ghost predicate Holds(cs: Chunk, m: Msg, sent: nat) {
    && sent <= |m.data|
    && cs.format == 0
    && cs.csid == m.csid
    && cs.timestamp == m.timestamp
    && cs.length == |m.data|
    && cs.typeID == m.typeID
    && cs.streamID == m.streamID
    && cs.exted == (m.timestamp >= EXTENDED)
    && cs.remain == |m.data| - sent
    && cs.got == (sent == |m.data|)
    && cs.data == m.data[..sent]
  }

  lemma FirstHeaderRead(cs: Chunk, m: Msg, rest: seq<byte>)
    requires Representable(m) && cs.csid == m.csid
    ensures var body := BE(Min(m.timestamp, EXTENDED), 3) + (BE(|m.data|, 3) + (BE(m.typeID, 1)
                        + (LE(m.streamID, 4) + (ExtendedField(m) + rest))));
            var s := ReadHeader(cs, 0, In(body, false));
            s.Step? && s.inp == In(rest, false) && Holds(s.cs, m, 0)
  {
    Pow256Values();
    var t4 := ExtendedField(m) + rest;
    var t3 := LE(m.streamID, 4) + t4;
    var t2 := BE(m.typeID, 1) + t3;
    var t1 := BE(|m.data|, 3) + t2;
    ReadBEOf(Min(m.timestamp, EXTENDED), 3, t1);
    ReadBEOf(|m.data|, 3, t2);
    ReadBEOf(m.typeID, 1, t3);
    ReadLEOf(m.streamID, 4, t4);
    if m.timestamp >= EXTENDED {
      ReadBEOf(m.timestamp, 4, rest);
    } else {
      assert t4 == rest;
    }
  }

  lemma NextHeaderRead(cs: Chunk, m: Msg, sent: nat, rest: seq<byte>)
    requires Representable(m) && 0 < sent < |m.data| && Holds(cs, m, sent)
    ensures ReadHeader(cs, 3, In(ExtendedField(m) + rest, false)) == Step(cs, In(rest, false))
  {
    if m.timestamp >= EXTENDED {
      Pow256Values();
      ReadBEOf(m.timestamp, 4, rest);
    } else {
      assert ExtendedField(m) + rest == rest;
    }
  }

  lemma PayloadRead(cs: Chunk, m: Msg, sent: nat, size: nat, rest: seq<byte>)
    requires sent < |m.data| && size > 0
    requires Holds(cs, m, sent)
    ensures var n := PieceLength(m, sent, size);
            var s := ReadPayload(cs, size, In(m.data[sent..sent + n] + rest, false));
            s.Step? && s.inp == In(rest, false) && Holds(s.cs, m, sent + n)
  {
    var n := PieceLength(m, sent, size);
    var input := m.data[sent..sent + n] + rest;
    assert input[..n] == m.data[sent..sent + n] && input[n..] == rest;
    assert m.data[..sent] + m.data[sent..sent + n] == m.data[..sent + n];
  }

  ghost predicate Ready(cs: Chunk, m: Msg, sent: nat) {
    if sent == 0 then cs.remain == 0 else Holds(cs, m, sent)
  }

  lemma HeaderParts(fmt: nat, m: Msg, rest: seq<byte>)
    requires fmt == 0 || fmt == 3
    ensures Header(fmt, m) + rest == BasicHeader(fmt, m.csid) + (
              if fmt == 3 then ExtendedField(m) + rest
              else BE(Min(m.timestamp, EXTENDED), 3) + (BE(|m.data|, 3)
                   + (BE(m.typeID, 1) + (LE(m.streamID, 4) + (ExtendedField(m) + rest)))))
  {
  }

  /** One chunk of a representable message, read by a reader that is ready for it. */
  lemma ChunkRead(r: Reader, m: Msg, sent: nat, rest: seq<byte>)
    requires Representable(m) && sent < |m.data| && r.chunkSize > 0
    requires Ready(r.Get(Key(m.csid)), m, sent)
    ensures var (key, s) := NextChunk(r, In(ChunkBytes(m, sent, r.chunkSize) + rest, false));
            && key == Key(m.csid)
            && s.Step? && s.inp == In(rest, false)
            && Holds(s.cs, m, sent + PieceLength(m, sent, r.chunkSize))
  {
    hide BasicHeader, ExtendedField, Header, ReadHeader, ReadPayload, ReadCsid, BE, LE, FromBE, Consistent;
    var n := PieceLength(m, sent, r.chunkSize);
    var fmt := if sent == 0 then 0 else 3;
    var tail := m.data[sent..sent + n] + rest;
    var bytes := ChunkBytes(m, sent, r.chunkSize) + rest;
    assert bytes == Header(fmt, m) + tail;
    HeaderParts(fmt, m, tail);
    var cs := r.Get(Key(m.csid)).(csid := m.csid);
    if sent == 0 {
      var body := BE(Min(m.timestamp, EXTENDED), 3) + (BE(|m.data|, 3)
                  + (BE(m.typeID, 1) + (LE(m.streamID, 4) + (ExtendedField(m) + tail))));
      BasicHeaderRead(0, m.csid, body);
      FirstHeaderRead(cs, m, tail);
      PayloadRead(ReadHeader(cs, 0, In(body, false)).cs, m, 0, r.chunkSize, rest);
    } else {
      BasicHeaderRead(3, m.csid, ExtendedField(m) + tail);
      NextHeaderRead(cs, m, sent, tail);
      PayloadRead(cs, m, sent, r.chunkSize, rest);
    }
  }

  // ---- Many messages -----------------------------------------------------

  ghost predicate Sendable(m: Msg) {
    Representable(m) && Writable(m)
  }

  lemma FinishOf(r: Reader, c: Chunk, m: Msg, inp: In)
    requires Sendable(m) && ToMsg(c) == m
    ensures var res := Finish(r, c, inp);
            && res.Message? && res.c == c && res.inp == inp
            && res.r.chunks == r.chunks && res.r.chunkSize == SizeAfter(m, r.chunkSize)
  {
  }

  lemma HeldWhole(c: Chunk, m: Msg)
    requires Holds(c, m, |m.data|)
    ensures ToMsg(c) == m
  {
    assert m.data[..|m.data|] == m.data;
  }

  /** Reading messages one after the other, at most `n` of them. */
  datatype Run = Run(chunks: seq<Chunk>, acks: seq<nat>, r: Reader, inp: In)

  function ReadMsgs(r: Reader, inp: In, n: nat): Run
    decreases n
  {
    if n == 0 then Run([], [], r, inp)
    else
      match ReadMsg(r, inp)
      case Failed(_, r1, i1) => Run([], [], r1, i1)
      case Message(c, r1, i1, ack) =>
        var more := ReadMsgs(r1, i1, n - 1);
        Run([c] + more.chunks, (if ack.Some? then [ack.value] else []) + more.acks, more.r, more.inp)
  }

  function ToMsgs(cs: seq<Chunk>): (ms: seq<Msg>)
    ensures |ms| == |cs|
  {
    if cs == [] then [] else [ToMsg(cs[0])] + ToMsgs(cs[1..])
  }

  lemma ReadMsgsUnfold(r: Reader, inp: In, n: nat) returns (c: Chunk, r1: Reader, i1: In)
    requires n > 0 && ReadMsg(r, inp).Message?
    ensures c == ReadMsg(r, inp).c && r1 == ReadMsg(r, inp).r && i1 == ReadMsg(r, inp).inp
    ensures var run, more := ReadMsgs(r, inp, n), ReadMsgs(r1, i1, n - 1);
            && run.inp == more.inp && run.r == more.r
            && ToMsgs(run.chunks) == [ToMsg(c)] + ToMsgs(more.chunks)
  {
    var res := ReadMsg(r, inp);
    c, r1, i1 := res.c, res.r, res.inp;
    var more := ReadMsgs(r1, i1, n - 1);
    assert ([c] + more.chunks)[1..] == more.chunks;
  }

  // ---- Conn.Write, then Conn.Read ----------------------------------------

  ghost predicate Idle(r: Reader) {
    forall k | true :: r.Get(k).remain == 0
  }

  /** Reading the rest of a message of which `sent` bytes have been read. */
  lemma {:induction false} RestRead(r: Reader, m: Msg, sent: nat, rest: seq<byte>)
    requires Representable(m) && sent < |m.data| && r.chunkSize > 0
    requires Ready(r.Get(Key(m.csid)), m, sent)
    ensures exists c: Chunk ::
              && Holds(c, m, |m.data|)
              && ReadMsg(r, In(ChunksFrom(m, sent, r.chunkSize) + rest, false))
                 == Finish(r.Put(Key(m.csid), c), c, In(rest, false))
    decreases |m.data| - sent
  {
    hide NextChunk, Finish, Holds, Representable;
    var next := sent + PieceLength(m, sent, r.chunkSize);
    var tail := ChunksFrom(m, next, r.chunkSize) + rest;
    var inp := In(ChunksFrom(m, sent, r.chunkSize) + rest, false);
    assert inp.rest == ChunkBytes(m, sent, r.chunkSize) + tail;
    ChunkRead(r, m, sent, tail);
    var (key, st) := NextChunk(r, inp);
    GotWhenWhole(st.cs, m, next);
    if next == |m.data| {
      assert tail == rest;
    } else {
      var r1 := r.Put(key, st.cs);
      RestRead(r1, m, next, rest);
      var c: Chunk :| Holds(c, m, |m.data|)
        && ReadMsg(r1, In(ChunksFrom(m, next, r.chunkSize) + rest, false))
           == Finish(r1.Put(Key(m.csid), c), c, In(rest, false));
      assert r1.Put(Key(m.csid), c) == r.Put(Key(m.csid), c);
    }
  }

  lemma GotWhenWhole(c: Chunk, m: Msg, sent: nat)
    requires Holds(c, m, sent)
    ensures c.got == (sent == |m.data|)
    ensures sent > 0 && sent < |m.data| ==> c.remain > 0
  {
  }

  ghost predicate Returns(res: MsgResult, m: Msg) {
    res.Message? && ToMsg(res.c) == m
  }

  /** A written message is delivered, the reader is idle again and stands behind it. */
  lemma MessageRoundTrip(r: Reader, m: Msg, size: nat, rest: seq<byte>)
    requires Idle(r) && Sendable(m) && size > 0 && r.chunkSize > 0
    requires r.chunkSize == size || |m.data| <= Min(r.chunkSize, size)
    ensures var res := ReadMsg(r, In(ChunksFrom(m, 0, size) + rest, false));
            && Returns(res, m) && res.inp == In(rest, false)
            && Idle(res.r) && res.r.chunkSize == SizeAfter(m, r.chunkSize)
  {
    hide ReadMsg, Finish;
    SingleChunk(m, size, r.chunkSize);
    RestRead(r, m, 0, rest);
    var c: Chunk :| Holds(c, m, |m.data|)
      && ReadMsg(r, In(ChunksFrom(m, 0, size) + rest, false))
         == Finish(r.Put(Key(m.csid), c), c, In(rest, false));
    HeldWhole(c, m);
    FinishOf(r.Put(Key(m.csid), c), c, m, In(rest, false));
    PutIdle(r, c, ReadMsg(r, In(ChunksFrom(m, 0, size) + rest, false)).r);
  }

  lemma PutIdle(r: Reader, c: Chunk, r1: Reader)
    requires Idle(r) && c.remain == 0 && r1.chunks == r.Put(Key(c.csid), c).chunks
    ensures Idle(r1)
  {
    assert forall k | k != Key(c.csid) :: r1.Get(k) == r.Get(k);
  }

  lemma RouteKeeps(m: Msg)
    ensures Route(m).data == m.data && Route(m).typeID == m.typeID && Writable(Route(m)) == Writable(m)
    ensures Writable(m) ==> forall n: nat :: SizeAfter(Route(m), n) == SizeAfter(m, n)
  {
  }

  /** A message no longer than either chunk size is cut the same way by both. */
  lemma SingleChunk(m: Msg, a: nat, b: nat)
    requires a > 0 && b > 0 && |m.data| > 0
    requires a == b || |m.data| <= Min(a, b)
    ensures ChunksFrom(m, 0, a) == ChunksFrom(m, 0, b)
  {
  }

  /** Whatever arrives, a delivered message is representable, or empty. */
  ghost predicate WireOk(c: Chunk) {
    && Consistent(c) && c.timestamp < 0x1_0000_0000 && c.timeDelta < 0x1_0000_0000
    && c.typeID < 256 && c.streamID < 0x1_0000_0000
    && c.length < 0x100_0000
    && (c.remain > 0 ==> c.length <= MAX_POOL_SIZE)
  }

  ghost predicate StoreOk(r: Reader) {
    ReaderOk(r) && forall k :: k in r.chunks ==> WireOk(r.chunks[k])
  }

  ghost predicate DeliveredOk(c: Chunk) {
    && GoodCsid(c.csid) && c.timestamp < 0x1_0000_0000
    && c.typeID < 256 && c.streamID < 0x1_0000_0000
    && |c.data| == c.length <= 512000 && c.remain == 0
  }

  predicate Control(c: Chunk) {
    c.typeID == SET_CHUNK_SIZE || c.typeID == WINDOW_ACK_SIZE
  }

  lemma ReadBEBound(inp: In, n: nat)
    requires n <= 4
    ensures inp.ReadBE(n).0 < Pow256(n) <= 0x1_0000_0000
  {
    Pow256Values();
    if !inp.failed && |inp.rest| >= n { FromBEBound(inp.rest[..n]); }
  }

  lemma ReadLEBound(inp: In, n: nat)
    requires n <= 4
    ensures inp.ReadLE(n).0 < Pow256(n) <= 0x1_0000_0000
  {
    Pow256Values();
    if !inp.failed && |inp.rest| >= n { FromLEBound(inp.rest[..n]); }
  }

  lemma CsidBound(key: nat, inp: In)
    requires key < 64
    ensures GoodCsid(ReadCsid(key, inp).0)
  {
    Pow256Values();
    ReadLEBound(inp, 1);
    ReadLEBound(inp, 2);
  }

  /** Everything a header can leave behind. */
  ghost predicate HeaderOk(c: Chunk) {
    && GoodCsid(c.csid) && c.format < 3 && c.timestamp < 0x1_0000_0000 && c.timeDelta < 0x1_0000_0000
    && c.typeID < 256 && c.streamID < 0x1_0000_0000
    && |c.data| + c.remain == c.length <= MAX_POOL_SIZE && !c.got
  }

  ghost predicate FieldsOk(c: Chunk) {
    && c.format < 3 && c.timestamp < 0x1_0000_0000 && c.timeDelta < 0x1_0000_0000
    && c.typeID < 256 && c.streamID < 0x1_0000_0000
  }

  lemma ExtendBound(ts: nat, inp: In)
    requires ts < 0x100_0000
    ensures Extend(ts, inp).0 < 0x1_0000_0000
  {
    ReadBEBound(inp, 4);
  }

  lemma Fields0Bounds(cs: Chunk, inp: In)
    requires FieldsOk(cs)
    ensures var c := ReadFields0(cs, inp).0; FieldsOk(c) && c == SameStream(cs, c)
  {
    hide In.ReadBE, In.ReadLE, Extend;
    Pow256Values();
    var (ts, i1) := inp.ReadBE(3);
    var (len, i2) := i1.ReadBE(3);
    var (ty, i3) := i2.ReadBE(1);
    var (sid, i4) := i3.ReadLE(4);
    ReadBEBound(inp, 3);
    ReadBEBound(i2, 1);
    ReadLEBound(i3, 4);
    ExtendBound(ts, i4);
  }

  /** Reading a header leaves these fields alone. */
  ghost function SameStream(cs: Chunk, c: Chunk): Chunk {
    c.(csid := cs.csid, remain := cs.remain, got := cs.got, data := cs.data)
  }

  lemma Fields12Bounds(cs: Chunk, inp: In)
    requires FieldsOk(cs)
    ensures var c := ReadFields1(cs, inp).0; FieldsOk(c) && c == SameStream(cs, c)
    ensures var c := ReadFields2(cs, inp).0; FieldsOk(c) && c == SameStream(cs, c)
  {
    hide In.ReadBE, Extend;
    Pow256Values();
    var (ts, i1) := inp.ReadBE(3);
    var (len, i2) := i1.ReadBE(3);
    var (ty, i3) := i2.ReadBE(1);
    ReadBEBound(inp, 3);
    ReadBEBound(i2, 1);
    ExtendBound(ts, i3);
    ExtendBound(ts, i1);
  }

  lemma FieldsBounds(cs: Chunk, fmt: nat, inp: In)
    requires FieldsOk(cs) && fmt < 4
    ensures var c := ReadFields(cs, fmt, inp).0; FieldsOk(c) && c == SameStream(cs, c)
  {
    hide In.ReadBE, ReadFields0, ReadFields1, ReadFields2;
    ReadBEBound(inp, 4);
    Fields0Bounds(cs, inp);
    Fields12Bounds(cs, inp);
  }

  lemma HeaderBounds(cs: Chunk, fmt: nat, inp: In)
    requires WireOk(cs.(csid := 2)) && GoodCsid(cs.csid) && fmt < 4 && (cs.remain > 0 ==> fmt == 3)
    ensures ReadHeader(cs, fmt, inp).Step? ==> HeaderOk(ReadHeader(cs, fmt, inp).cs)
  {
    hide ReadFields;
    FieldsBounds(cs, fmt, inp);
  }

  lemma ChunkBounds(r: Reader, inp: In)
    requires StoreOk(r)
    ensures var (key, s) := NextChunk(r, inp);
            && key < 64
            && (s.Step? ==>
                 && WireOk(if s.cs.remain == 0 then s.cs.(data := []) else s.cs)
                 && s.cs.got == (s.cs.remain == 0)
                 && (s.cs.got ==> DeliveredOk(s.cs)))
  {
    hide ReadHeader, ReadCsid, FromBE, Pow256;
    Pow256Values();
    ReadBEBound(inp, 1);
    var (h, i1) := inp.ReadBE(1);
    var key, fmt, cs := h % 64, h / 64, r.Get(h % 64);
    if cs.remain == 0 || fmt == 3 {
      CsidBound(key, i1);
      var (csid, i2) := ReadCsid(key, i1);
      HeaderBounds(cs.(csid := csid), fmt, i2);
    }
  }

  lemma FinishBounds(r: Reader, c: Chunk, inp: In)
    requires StoreOk(r) && DeliveredOk(c)
    ensures StoreOk(Finish(r, c, inp).r)
    ensures var res := Finish(r, c, inp);
            res.Message? ==> res.c == c && (Control(c) ==> |c.data| >= 4)
  {
    hide FromBE, Pow256;
    Pow256Values();
    if |c.data| >= 4 { FromBEBound(c.data[..4]); }
  }

  /**
   For every input, well formed or not: the invariant of the stored chunk
   streams is kept (received plus missing bytes make the announced length), and
   a delivered message is whole.
   */
  lemma {:induction false} ReadMsgInvariant(r: Reader, inp: In)
    requires StoreOk(r)
    ensures var res := ReadMsg(r, inp);
            && StoreOk(res.r)
            && (res.Message? ==> DeliveredOk(res.c) && (Control(res.c) ==> |res.c.data| >= 4))
    decreases |inp.rest|
  {
    hide NextChunk, Finish, DeliveredOk, WireOk;
    ChunkBounds(r, inp);
    var (key, s) := NextChunk(r, inp);
    if s.Fail? {
      ZeroOk();
    } else {
      var r1 := r.Put(key, s.cs);
      WireConsistent(if s.cs.remain == 0 then s.cs.(data := []) else s.cs);
      if s.cs.got {
        FinishBounds(r1, s.cs, s.inp);
      } else {
        ReadMsgInvariant(r1, s.inp);
      }
    }
  }

  lemma ZeroOk()
    ensures WireOk(ZERO_CHUNK)
  {
  }

  lemma WireConsistent(c: Chunk)
    requires WireOk(c)
    ensures Consistent(c)
  {
  }

  /**
   The exact condition for a message other than Set Chunk Size to come back as
   it was written (the writer refuses more than 0xffffff bytes by itself).
   */
  lemma RoundTripExact(r: Reader, m: Msg)
    requires Idle(r) && StoreOk(r) && r.chunkSize > 0
    requires m.typeID != SET_CHUNK_SIZE
    ensures Returns(ReadMsg(r, In(Encode(m, r.chunkSize), false)), Route(m)) <==> Representable(Route(m))
  {
    hide Finish, NextChunk;
    var input := Encode(m, r.chunkSize);
    if Representable(Route(m)) {
      assert input + [] == input;
      MessageRoundTrip(r, Route(m), r.chunkSize, []);
    } else if Returns(ReadMsg(r, In(input, false)), Route(m)) {
      ReadMsgInvariant(r, In(input, false));
      if m.data == [] {
        EmptyFails(r);
      }
    }
  }

  lemma EmptyFails(r: Reader)
    ensures ReadMsg(r, In([], false)).Failed?
  {
  }

  // ---- Sessions ----------------------------------------------------------

  /** Each message with the chunk size in force when it is cut. */
  function SessionBytes(size: nat, ms: seq<Msg>): seq<byte>
    requires size > 0 && forall m <- ms :: Writable(m)
    decreases |ms|
  {
    if ms == [] then []
    else
      var size' := SizeAfter(ms[0], size);
      Encode(ms[0], size') + SessionBytes(size', ms[1..])
  }

  function SizeAfterAll(size: nat, ms: seq<Msg>): (n: nat)
    requires size > 0 && forall m <- ms :: Writable(m)
    ensures n > 0
    decreases |ms|
  {
    if ms == [] then size else SizeAfterAll(SizeAfter(ms[0], size), ms[1..])
  }

  /** Empty messages leave no trace on the wire. */
  function Sent(ms: seq<Msg>): seq<Msg> {
    if ms == [] then []
    else (if ms[0].data == [] then [] else [Route(ms[0])]) + Sent(ms[1..])
  }

  /**
   The writer cuts a Set Chunk Size message at the size it announces, the reader
   at the old one; they agree if these are the same, or if the message fits into
   one chunk of either size.
   */
  predicate InStep(size: nat, ms: seq<Msg>)
    requires size > 0 && forall m <- ms :: Writable(m)
    decreases |ms|
  {
    ms != [] ==>
      && Writable(ms[0])
      && (ms[0].typeID == SET_CHUNK_SIZE ==> Announced(ms[0]) == size || |ms[0].data| <= Min(size, Announced(ms[0])))
      && InStep(SizeAfter(ms[0], size), ms[1..])
  }

  /**
   A whole session: reading delivers the written messages in order, and after
   each prefix reader and writer use the same chunk size.
   */
  lemma {:induction false} SessionRoundTrip(r: Reader, ms: seq<Msg>, rest: seq<byte>)
    requires Idle(r) && r.chunkSize > 0
    requires forall m <- ms :: Writable(m) && (m.data != [] ==> Representable(Route(m)))
    requires InStep(r.chunkSize, ms)
    ensures var run := ReadMsgs(r, In(SessionBytes(r.chunkSize, ms) + rest, false), |Sent(ms)|);
            && ToMsgs(run.chunks) == Sent(ms) && run.inp == In(rest, false)
            && Idle(run.r) && run.r.chunkSize == SizeAfterAll(r.chunkSize, ms)
    decreases |ms|
  {
    hide ReadMsg, Idle, Representable, ReadMsgs, Route, FromBE, ToMsg, ChunkBytes;
    if ms == [] {
      assert SessionBytes(r.chunkSize, ms) + rest == rest;
      ReadNone(r, In(rest, false));
    } else {
      var m, size := ms[0], SizeAfter(ms[0], r.chunkSize);
      RouteKeeps(m);
      var tail := SessionBytes(size, ms[1..]) + rest;
      var inp := In(SessionBytes(r.chunkSize, ms) + rest, false);
      assert inp.rest == Encode(m, size) + tail;
      if m.data == [] {
        assert inp.rest == tail;
        SessionRoundTrip(r, ms[1..], rest);
      } else {
        MessageRoundTrip(r, Route(m), size, tail);
        var c, r1, i1 := ReadMsgsUnfold(r, inp, |Sent(ms)|);
        SessionRoundTrip(r1, ms[1..], rest);
      }
    }
  }

  lemma ReadNone(r: Reader, inp: In)
    ensures ReadMsgs(r, inp, 0) == Run([], [], r, inp)
  {
  }

  /**
   It comes back if and only if it announces the size in force, or both sizes are
   at least 4; otherwise a chunk boundary falls inside the announcement.
   */
  lemma SetChunkSizeExact(r: Reader, value: nat)
    requires Idle(r) && r.chunkSize > 0 && 0 < value < 0x1_0000_0000
    ensures var m := SetChunkSizeMsg(value);
            Returns(ReadMsg(r, In(Encode(m, value), false)), m)
            <==> value == r.chunkSize || (value >= 4 && r.chunkSize >= 4)
  {
    AnnouncementIs(value);
    AnnouncedIs(value);
    hide ReadMsg, Idle, Returns, Header, BE, FromBE, Encode, Representable, Announced, Behind;
    var m := SetChunkSizeMsg(value);
    assert Encode(m, value) + [] == Encode(m, value);
    if value == r.chunkSize || (value >= 4 && r.chunkSize >= 4) {
      AnnouncementRead(r, value);
    } else if r.chunkSize >= 4 {
      SmallSizeFails(r, m, []);
    } else {
      SmallReaderFails(r, value);
    }
  }

  lemma AnnouncedIs(value: nat)
    requires 0 < value < 0x1_0000_0000
    ensures var m := SetChunkSizeMsg(value); Announced(m) == value && |m.data| == 4
  {
    hide BE, FromBE, Pow256;
    Pow256Values();
    BERoundTrip(value, 4);
    assert SetChunkSizeMsg(value).data[..4] == SetChunkSizeMsg(value).data;
  }

  lemma AnnouncementRead(r: Reader, value: nat)
    requires Idle(r) && r.chunkSize > 0 && 0 < value < 0x1_0000_0000
    requires value == r.chunkSize || (value >= 4 && r.chunkSize >= 4)
    ensures var m := SetChunkSizeMsg(value);
            Returns(ReadMsg(r, In(Encode(m, value), false)), m)
  {
    AnnouncementIs(value);
    AnnouncedIs(value);
    hide ReadMsg, Idle, Header, BE, FromBE, ChunksFrom, Representable, Announced, Behind;
    var m := SetChunkSizeMsg(value);
    assert Encode(m, value) == ChunksFrom(m, 0, value);
    MessageRoundTrip(r, m, value, []);
    assert ChunksFrom(m, 0, value) + [] == ChunksFrom(m, 0, value);
  }

  lemma SmallData(value: nat)
    requires 0 < value < 4
    ensures BE(value, 4) == [0, 0, 0, value]
  {
    assert BE(value, 4) == BE(0, 3) + [value] && BE(0, 3) == BE(0, 2) + [0] && BE(0, 2) == BE(0, 1) + [0];
  }

  /** Four bytes that announce less than 4. */
  lemma SmallAnnounced(m: Msg)
    requires |m.data| == 4 && 0 < Announced(m) < 4
    ensures m.data == [0, 0, 0, Announced(m)]
  {
    assert m.data[..4] == m.data;
    BEOf(m.data);
    SmallData(Announced(m));
  }

  lemma LongHeaderStarts(csid: nat)
    requires 64 <= csid <= 65599
    ensures BasicHeader(3, csid) != [] && BasicHeader(3, csid)[0] >= 192
  {
    assert BE(192, 1) == BE(0, 0) + [192] && BE(193, 1) == BE(0, 0) + [193];
  }

  /** A continuation starts with a byte of at least 0xc0; on chunk stream 2 it is 0xc2. */
  lemma NextChunkStarts(m: Msg, sent: nat, size: nat)
    requires GoodCsid(m.csid) && 0 < sent < |m.data| && size > 0
    ensures ChunksFrom(m, sent, size) != [] && ChunksFrom(m, sent, size)[0] >= 192
    ensures m.csid == 2 ==> ChunksFrom(m, sent, size)[0] == 194
  {
    if m.csid < 64 {
      assert BasicHeader(3, m.csid) == [192 + m.csid] by { assert BE(192 + m.csid, 1) == BE(0, 0) + [192 + m.csid]; }
    } else {
      LongHeaderStarts(m.csid);
    }
    hide BasicHeader, MessageHeader;
    assert Header(3, m)[0] == BasicHeader(3, m.csid)[0];
  }

  lemma {:induction false} TailLength(m: Msg, sent: nat, size: nat)
    requires sent <= |m.data| && size > 0
    ensures |ChunksFrom(m, sent, size)| >= |m.data| - sent
    decreases |m.data| - sent
  {
    hide Header;
    if sent < |m.data| {
      TailLength(m, sent + PieceLength(m, sent, size), size);
    }
  }

  /** The first chunk of a message, and the rest. */
  lemma FirstChunkIs(m: Msg, size: nat)
    requires |m.data| > 0 && size > 0
    ensures var n := PieceLength(m, 0, size);
            ChunksFrom(m, 0, size) == Header(0, m) + (m.data[..n] + ChunksFrom(m, n, size))
  {
    hide Header;
    var n := PieceLength(m, 0, size);
    assert m.data[0..n] == m.data[..n];
    Assoc(Header(0, m), m.data[..n], ChunksFrom(m, n, size));
  }

  /** A reader at 4 or more takes a header for part of an announcement below 4, whatever follows. */
  lemma SmallSizeFails(r: Reader, m: Msg, rest: seq<byte>)
    requires Idle(r) && r.chunkSize >= 4 && Representable(m)
    requires m.typeID == SET_CHUNK_SIZE && |m.data| == 4 && 0 < Announced(m) < 4
    ensures !Returns(ReadMsg(r, In(Encode(m, Announced(m)) + rest, false)), m)
  {
    hide ReadMsg, Header, BE, FromBE;
    var value := Announced(m);
    SmallAnnounced(m);
    FirstChunkIs(m, value);
    NextChunkStarts(m, value, value);
    TailLength(m, value, value);
    var tail := ChunksFrom(m, value, value);
    var received := m.data[..value] + tail + rest;
    Assoc(Header(0, m), m.data[..value] + tail, rest);
    assert received[value] == tail[0];
    assert received[..4][value] != m.data[value];
    WrongFour(r, m, received);
  }

  /** Four bytes are read behind the header, whatever they are. */
  lemma WrongFour(r: Reader, m: Msg, received: seq<byte>)
    requires Idle(r) && r.chunkSize >= 4 && Representable(m) && |m.data| == 4 && m.typeID == SET_CHUNK_SIZE
    requires |received| >= 4 && received[..4] != m.data
    ensures !Returns(ReadMsg(r, In(Header(0, m) + received, false)), m)
  {
    HeaderParts(0, m, received);
    var body := BE(Min(m.timestamp, EXTENDED), 3) + (BE(|m.data|, 3)
                + (BE(m.typeID, 1) + (LE(m.streamID, 4) + (ExtendedField(m) + received))));
    BasicHeaderRead(0, m.csid, body);
    FirstHeaderRead(r.Get(Key(m.csid)).(csid := m.csid), m, received);
  }

  // ---- A reader with a chunk size below 4 --------------------------------

  /** Chunk stream 2 has received `data` and waits for `n` more bytes. */
  ghost predicate Waiting(r: Reader, data: seq<byte>, n: nat) {
    var cs := r.Get(2);
    cs.remain == n > 0 && cs.data == data
  }

  /** How many bytes the missing part takes up at least, one header for each chunk. */
  function Needed(n: nat, size: nat): nat
    requires size > 0
  {
    n + (n + size - 1) / size
  }

  lemma NeededNext(n: nat, size: nat)
    requires size in {1, 2, 3} && n > 0
    ensures n > size ==> Needed(n, size) == 1 + size + Needed(n - size, size)
    ensures n <= size ==> Needed(n, size) == 1 + n
  {
  }

  lemma NextOnOther(r: Reader, inp: In)
    requires NextChunk(r, inp).0 != 2 && NextChunk(r, inp).1.Step?
    ensures NextChunk(r, inp).1.cs.csid != 2
  {
    var (h, i1) := inp.ReadBE(1);
    var key, cs := h % 64, r.Get(h % 64);
    hide ReadFields, ContinueHeader;
    var (csid, i2) := ReadCsid(key, i1);
    assert csid != 2 by { OtherCsid(key, i1); }
    HeaderKeepsCsid(cs.(csid := csid), h / 64, i2);
  }

  lemma OtherCsid(key: nat, inp: In)
    requires key != 2
    ensures ReadCsid(key, inp).0 != 2
  {
  }

  lemma HeaderKeepsCsid(cs: Chunk, fmt: nat, inp: In)
    ensures ReadHeader(cs, fmt, inp).Step? ==> ReadHeader(cs, fmt, inp).cs.csid == cs.csid
  {
  }

  lemma NextOnTwo(r: Reader, inp: In, data: seq<byte>, n: nat)
    requires Waiting(r, data, n) && NextChunk(r, inp).0 == 2 && NextChunk(r, inp).1.Step?
    ensures var s := NextChunk(r, inp).1;
            && |s.inp.rest| + 1 + Min(n, r.chunkSize) <= |inp.rest|
            && s.cs.remain == n - Min(n, r.chunkSize) && data <= s.cs.data
            && (s.cs.remain > 0 ==> !s.cs.got || r.Get(2).got)
  {
  }

  /** A message of chunk stream 2 starts with what it has received, and takes its bytes and headers. */
  lemma {:induction false} NeedsBytes(r: Reader, inp: In, data: seq<byte>, n: nat)
    requires Waiting(r, data, n) && r.chunkSize in {1, 2, 3} && !r.Get(2).got
    ensures var res := ReadMsg(r, inp);
            res.Message? && res.c.csid == 2 ==> data <= res.c.data && |inp.rest| >= Needed(n, r.chunkSize)
    decreases |inp.rest|
  {
    hide NextChunk, Finish, Needed;
    var (key, s) := NextChunk(r, inp);
    if s.Step? {
      NeededNext(n, r.chunkSize);
      if key != 2 {
        NextOnOther(r, inp);
        if !s.cs.got {
          NeedsBytes(r.Put(key, s.cs), s.inp, data, n);
        } else {
          FinishSame(r.Put(key, s.cs), s.cs, s.inp);
        }
      } else {
        NextOnTwo(r, inp, data, n);
        if !s.cs.got {
          GotNothing(r, inp, data, n);
          NeedsBytes(r.Put(key, s.cs), s.inp, s.cs.data, s.cs.remain);
        } else {
          FinishSame(r.Put(key, s.cs), s.cs, s.inp);
          GotNothing(r, inp, data, n);
        }
      }
    }
  }

  lemma FinishSame(r: Reader, c: Chunk, inp: In)
    ensures Finish(r, c, inp).Message? ==> Finish(r, c, inp).c == c
  {
  }

  lemma GotNothing(r: Reader, inp: In, data: seq<byte>, n: nat)
    requires Waiting(r, data, n) && !r.Get(2).got && NextChunk(r, inp).0 == 2 && NextChunk(r, inp).1.Step?
    ensures NextChunk(r, inp).1.cs.got <==> NextChunk(r, inp).1.cs.remain == 0
  {
  }

  /** A first header on chunk stream 2 and one chunk of the four bytes behind it. */
  lemma FirstStep(r: Reader, m: Msg, received: seq<byte>)
    requires Idle(r) && r.chunkSize in {1, 2, 3} && Representable(m) && m.csid == 2 && |m.data| == 4 && |received| >= 4
    ensures var n := r.chunkSize;
            var (key, s) := NextChunk(r, In(Header(0, m) + received, false));
            && key == 2 && s.Step? && s.inp == In(received[n..], false)
            && s.cs.data == received[..n] && s.cs.remain == 4 - n && !s.cs.got
  {
    HeaderParts(0, m, received);
    var body := BE(Min(m.timestamp, EXTENDED), 3) + (BE(|m.data|, 3)
                + (BE(m.typeID, 1) + (LE(m.streamID, 4) + (ExtendedField(m) + received))));
    BasicHeaderRead(0, m.csid, body);
    FirstHeaderRead(r.Get(2).(csid := 2), m, received);
  }

  lemma FirstPiece(r: Reader, m: Msg, received: seq<byte>) returns (r1: Reader)
    requires Idle(r) && r.chunkSize in {1, 2, 3} && Representable(m) && m.csid == 2 && |m.data| == 4 && |received| >= 4
    ensures var n := r.chunkSize;
            && ReadMsg(r, In(Header(0, m) + received, false)) == ReadMsg(r1, In(received[n..], false))
            && Waiting(r1, received[..n], 4 - n) && !r1.Get(2).got && r1.chunkSize == n
            && forall k | k != 2 :: r1.Get(k) == r.Get(k)
  {
    FirstStep(r, m, received);
    hide NextChunk, Header, Idle, Representable;
    var (key, s) := NextChunk(r, In(Header(0, m) + received, false));
    r1 := r.Put(2, s.cs);
  }

  /** The bytes behind the header of an announcement. */
  function Behind(m: Msg, size: nat): seq<byte>
    requires m.data != [] && size > 0
  {
    m.data[..PieceLength(m, 0, size)] + ChunksFrom(m, PieceLength(m, 0, size), size)
  }

  /** The announcement as bytes, and that there are at least four of them behind the header. */
  lemma AnnouncementIs(value: nat)
    requires 0 < value < 0x1_0000_0000
    ensures var m := SetChunkSizeMsg(value);
            && Representable(m) && Encode(m, value) == Header(0, m) + Behind(m, value) && |Behind(m, value)| >= 4
            && Behind(m, value)[..PieceLength(m, 0, value)] == m.data[..PieceLength(m, 0, value)]
  {
    hide Header, BE, FromBE, Pow256;
    var m := SetChunkSizeMsg(value);
    assert m.data[..4] == m.data;
    Pow256Values();
    BERoundTrip(value, 4);
    FirstChunkIs(m, value);
    TailLength(m, PieceLength(m, 0, value), value);
  }

  /** A reader at a larger size than announced takes the header of the second chunk, 0xc2, for a byte of the value. */
  lemma HeaderInside(value: nat, n: nat)
    requires 0 < value < n < 4
    ensures var m := SetChunkSizeMsg(value); |Behind(m, value)| >= 4 && !(Behind(m, value)[..n] <= m.data)
  {
    AnnouncementIs(value);
    hide Header, BE, FromBE;
    var m := SetChunkSizeMsg(value);
    SmallData(value);
    NextChunkStarts(m, value, value);
    assert Behind(m, value)[..n][value] == 194 && m.data[value] == 0;
  }

  /** A reader below 4 fails on bytes that start otherwise, or that are too few for its chunks. */
  lemma ShortBytesFail(r: Reader, m: Msg, received: seq<byte>)
    requires Idle(r) && r.chunkSize in {1, 2, 3} && Representable(m) && m.csid == 2 && |m.data| == 4 && |received| >= 4
    requires !(received[..r.chunkSize] <= m.data) || |received| < r.chunkSize + Needed(4 - r.chunkSize, r.chunkSize)
    ensures !Returns(ReadMsg(r, In(Header(0, m) + received, false)), m)
  {
    hide ReadMsg, Header, Needed, Idle, Representable, Waiting, GoodCsid;
    var n := r.chunkSize;
    var r1 := FirstPiece(r, m, received);
    NeedsBytes(r1, In(received[n..], false), received[..n], 4 - n);
  }

  lemma SmallReaderFails(r: Reader, value: nat)
    requires Idle(r) && r.chunkSize in {1, 2, 3} && 0 < value < 0x1_0000_0000 && value != r.chunkSize
    ensures var m := SetChunkSizeMsg(value);
            !Returns(ReadMsg(r, In(Encode(m, value), false)), m)
  {
    assert r.Get(0).remain == 0;
    AnnouncementIs(value);
    hide ReadMsg, Header, BE, FromBE, Needed, Idle, Waiting, Behind, ChunksFrom, Representable, Encode;
    var m, n := SetChunkSizeMsg(value), r.chunkSize;
    if value < n {
      HeaderInside(value, n);
      ShortBytesFail(r, m, Behind(m, value));
    } else if n == 2 && value == 3 {
      var r1 := FirstPiece(r, m, Behind(m, value));
      TwoOfThree(r1, m, Behind(m, value));
    } else {
      ReceivedLength(m, value);
      NeededHere(n);
      ShortBytesFail(r, m, Behind(m, value));
    }
  }

  lemma NeededHere(n: nat)
    requires n in {1, 2, 3}
    ensures Needed(4 - n, n) == if n == 1 then 6 else if n == 2 then 3 else 2
  {
  }

  /** What follows the header of an announcement: four bytes, and a byte for each chunk after the first. */
  lemma ReceivedLength(m: Msg, size: nat)
    requires m.csid == 2 && |m.data| == 4 && m.timestamp == 0 && size > 1
    ensures |Behind(m, size)| == if size >= 4 then 4 else 5
  {
    assert BasicHeader(3, 2) == [194] by { assert BE(194, 1) == BE(0, 0) + [194]; }
    assert Header(3, m) == [194];
    var k := PieceLength(m, 0, size);
    if k < 4 {
      assert ChunkBytes(m, k, size) == [194] + m.data[k..4];
      assert ChunksFrom(m, 4, size) == [];
    }
  }

  /** A reader at 2 takes the third zero byte for the header of a new message, which the bytes do not hold. */
  lemma TwoOfThree(r: Reader, m: Msg, received: seq<byte>)
    requires r.Get(0).remain == 0 && m == SetChunkSizeMsg(3)
    requires received == Behind(m, 3)
    ensures ReadMsg(r, In(received[2..], false)).Failed?
  {
    SmallData(3);
    ReceivedLength(m, 3);
    var s := received[2..];
    assert s[0] == 0 && |s| == 3;
    assert FromBE(s[..1]) == 0 by { assert s[..1] == [0] && [0][..0] == []; }
    var (h, i1) := In(s, false).ReadBE(1);
    assert h == 0 && |i1.rest| == 2;
    TooShort(r.Get(0), i1);
  }

  lemma TooShort(cs: Chunk, inp: In)
    requires cs.remain == 0 && |inp.rest| == 2
    ensures forall size: nat :: ReadChunk(cs, 0, 0, size, inp).Fail?
  {
  }

  // ---- Sessions whose Set Chunk Size messages are four bytes long --------

  ghost predicate ShortAnnouncements(ms: seq<Msg>) {
    forall m <- ms :: m.typeID == 1 ==> |m.data| == 4
  }

  /** No size below 4 is announced. */
  ghost predicate NoneSmall(ms: seq<Msg>) {
    forall m <- ms :: m.typeID == 1 ==> |m.data| >= 4 && Announced(m) >= 4
  }

  lemma NoneSmallCons(ms: seq<Msg>)
    requires ms != []
    ensures NoneSmall(ms)
       <==> (ms[0].typeID == SET_CHUNK_SIZE ==> |ms[0].data| >= 4 && Announced(ms[0]) >= 4) && NoneSmall(ms[1..])
  {
    hide Announced;
    assert ms == [ms[0]] + ms[1..];
  }

  lemma NothingSmall()
    ensures NoneSmall([])
  {
  }

  /** For four-byte announcements, being in step comes to that. */
  lemma {:induction false} InStepExact(size: nat, ms: seq<Msg>)
    requires size >= 4 && (forall m <- ms :: Writable(m)) && ShortAnnouncements(ms)
    ensures InStep(size, ms) <==> NoneSmall(ms)
    decreases |ms|
  {
    hide Announced;
    if ms != [] {
      NoneSmallCons(ms);
      if SizeAfter(ms[0], size) >= 4 { InStepExact(SizeAfter(ms[0], size), ms[1..]); }
    }
  }

  /**
   A session that starts at a chunk size of at least 4, as every connection does,
   and announces sizes in four bytes is delivered message by message exactly when
   no size below 4 is announced.
   */
  lemma {:induction false} SessionExact(r: Reader, ms: seq<Msg>, rest: seq<byte>)
    requires Idle(r) && r.chunkSize >= 4
    requires forall m <- ms :: Writable(m) && (m.data != [] ==> Representable(Route(m)))
    requires ShortAnnouncements(ms)
    ensures ToMsgs(ReadMsgs(r, In(SessionBytes(r.chunkSize, ms) + rest, false), |Sent(ms)|).chunks) == Sent(ms)
       <==> NoneSmall(ms)
    decreases |ms|
  {
    hide ReadMsg, Idle, Representable, ReadMsgs, Route, FromBE, ToMsg, ChunkBytes, Announced, NoneSmall;
    if ms == [] {
      ReadNone(r, In(SessionBytes(r.chunkSize, ms) + rest, false));
      assert NoneSmall(ms) by { NothingSmall(); }
    } else {
      var m, size := ms[0], SizeAfter(ms[0], r.chunkSize);
      NoneSmallCons(ms);
      RouteKeeps(m);
      var tail := SessionBytes(size, ms[1..]) + rest;
      var inp := In(SessionBytes(r.chunkSize, ms) + rest, false);
      assert inp.rest == Encode(m, size) + tail;
      if m.data == [] {
        assert inp.rest == tail;
        SessionExact(r, ms[1..], rest);
      } else if m.typeID == SET_CHUNK_SIZE && size < 4 {
        ControlRoute(m);
        SmallSizeFails(r, m, tail);
        FirstDelivered(r, inp, ms);
      } else {
        MessageRoundTrip(r, Route(m), size, tail);
        var c, r1, i1 := ReadMsgsUnfold(r, inp, |Sent(ms)|);
        SessionExact(r1, ms[1..], rest);
        ConsEqual(ToMsg(c), ToMsgs(ReadMsgs(r1, i1, |Sent(ms)| - 1).chunks), ToMsg(c), Sent(ms[1..]));
      }
    }
  }

  lemma ControlRoute(m: Msg)
    requires m.typeID == SET_CHUNK_SIZE
    ensures Route(m) == m
  {
  }

  /** What a reader delivers first. */
  lemma FirstDelivered(r: Reader, inp: In, ms: seq<Msg>)
    requires ms != [] && ms[0].data != [] && !Returns(ReadMsg(r, inp), Route(ms[0]))
    ensures ToMsgs(ReadMsgs(r, inp, |Sent(ms)|).chunks) != Sent(ms)
  {
    hide ReadMsg, Route;
    assert Sent(ms)[0] == Route(ms[0]);
  }

  // ---- Acknowledgements --------------------------------------------------

  function Sum(ns: seq<nat>): nat {
    if ns == [] then 0 else ns[0] + Sum(ns[1..])
  }

  function Lengths(cs: seq<Chunk>): nat {
    if cs == [] then 0 else cs[0].length + Lengths(cs[1..])
  }

  /** How often in a run the 32-bit counter wraps around. */
  function Wraps(r: Reader, inp: In, n: nat): nat
    decreases n
  {
    if n == 0 then 0
    else
      match ReadMsg(r, inp)
      case Failed(_, _, _) => 0
      case Message(c, r1, i1, _) =>
        (if r.ackReceived + c.length >= 0x1_0000_0000 then 1 else 0) + Wraps(r1, i1, n - 1)
  }

  /** No window of the run is so close to 2^32 that the counter could wrap. */
  ghost predicate WindowsBounded(r: Reader, inp: In, n: nat)
    decreases n
  {
    && r.window <= 0x1_0000_0000 - 0x100_0000
    && (n > 0 && ReadMsg(r, inp).Message? ==>
          WindowsBounded(ReadMsg(r, inp).r, ReadMsg(r, inp).inp, n - 1))
  }

  /**
   What a message does to the counters. An acknowledgement is sent exactly when
   the bytes counted, modulo 2^32, reach the window, which the message itself may
   have changed; it says how many, and they count no more.
   */
  ghost predicate Acknowledges(r: Reader, c: Chunk, r1: Reader, ack: Option<nat>) {
    var counted := (r.ackReceived + c.length) % 0x1_0000_0000;
    && (c.typeID == 5 ==> |c.data| >= 4) && (c.typeID == 1 ==> |c.data| >= 4)
    && r1.window == (if c.typeID == 5 then FromBE(c.data[..4]) else r.window)
    && r1.chunkSize == (if c.typeID == 1 then FromBE(c.data[..4]) else r.chunkSize)
    && (ack.Some? <==> counted >= r1.window)
    && (if ack.Some? then ack.value == counted && r1.ackReceived == 0 else r1.ackReceived == counted)
    && var received := (r.received + c.length) % 0x1_0000_0000;
       r1.received == if received >= 0xf000_0000 then 0 else received
  }

  lemma AckStep(r: Reader, inp: In)
    requires StoreOk(r)
    ensures var res := ReadMsg(r, inp);
            match res
            case Failed(_, r1, _) => r1.ackReceived == r.ackReceived && r1.window == r.window && r1.chunkSize == r.chunkSize
            case Message(c, r1, _, ack) => Acknowledges(r, c, r1, ack)
    decreases |inp.rest|
  {
    hide NextChunk, WireOk, FromBE, Acknowledges;
    ChunkBounds(r, inp);
    var (key, s) := NextChunk(r, inp);
    if s.Step? {
      WireConsistent(if s.cs.remain == 0 then s.cs.(data := []) else s.cs);
      if s.cs.got {
        FinishCounts(r, key, s.cs, s.inp);
      } else {
        AckStep(r.Put(key, s.cs), s.inp);
        SameCounters(r, key, s.cs);
      }
    }
  }

  lemma SameCounters(r: Reader, key: nat, cs: Chunk)
    ensures forall c, r1, ack :: Acknowledges(r.Put(key, cs), c, r1, ack) ==> Acknowledges(r, c, r1, ack)
  {
  }

  lemma FinishCounts(r: Reader, key: nat, c: Chunk, inp: In)
    ensures var res := Finish(r.Put(key, c), c, inp);
            if res.Failed? then res.r == r.Put(key, c) else res.c == c && Acknowledges(r, c, res.r, res.ack)
  {
    hide FromBE;
  }

  /** What is acknowledged and counted grows by the length of the message, but for a wrap-around of the counter. */
  lemma AckSum(r: Reader, c: Chunk, r1: Reader, ack: Option<nat>)
    requires Acknowledges(r, c, r1, ack) && r.ackReceived < 0x1_0000_0000 && c.length <= MAX_POOL_SIZE
    ensures (if ack.Some? then ack.value else 0) + r1.ackReceived
         == r.ackReceived + c.length - (if r.ackReceived + c.length >= 0x1_0000_0000 then 0x1_0000_0000 else 0)
  {
  }

  lemma NoSums()
    ensures Sum([]) == 0 && Lengths([]) == 0
  {
  }

  lemma SumsCons(c: Chunk, ack: Option<nat>, more: Run)
    ensures Lengths([c] + more.chunks) == c.length + Lengths(more.chunks)
    ensures Sum((if ack.Some? then [ack.value] else []) + more.acks) == (if ack.Some? then ack.value else 0) + Sum(more.acks)
  {
    assert ([c] + more.chunks)[1..] == more.chunks;
    assert ack.Some? ==> ([ack.value] + more.acks)[1..] == more.acks;
    assert [] + more.acks == more.acks;
  }

  /**
   Over any run on any input every byte received is acknowledged or still
   counted, but for 2^32 each time the counter wraps around, which it never does
   while windows stay 2^24 below 2^32.
   */
  lemma {:induction false} AckAccounting(r: Reader, inp: In, n: nat)
    requires StoreOk(r)
    ensures var run := ReadMsgs(r, inp, n);
            && Sum(run.acks) + run.r.ackReceived + 0x1_0000_0000 * Wraps(r, inp, n) == r.ackReceived + Lengths(run.chunks)
            && StoreOk(run.r)
    ensures WindowsBounded(r, inp, n) ==> Wraps(r, inp, n) == 0
    decreases n
  {
    hide ReadMsg, StoreOk, Acknowledges, Sum, Lengths;
    assert Sum([]) == 0 && Lengths([]) == 0 by { NoSums(); }
    if n > 0 {
      ReadMsgInvariant(r, inp);
      CountBounds(r, inp);
      AckStep(r, inp);
      if r.window <= 0x1_0000_0000 - 0x100_0000 { NoWrap(r, inp); }
      match ReadMsg(r, inp)
      case Failed(_, _, _) =>
      case Message(c, r1, i1, ack) =>
        AckSum(r, c, r1, ack);
        AckAccounting(r1, i1, n - 1);
        SumsCons(c, ack, ReadMsgs(r1, i1, n - 1));
    }
  }

  lemma CountBounds(r: Reader, inp: In)
    requires StoreOk(r)
    ensures r.ackReceived < 0x1_0000_0000
    ensures ReadMsg(r, inp).Message? ==> ReadMsg(r, inp).c.length <= MAX_POOL_SIZE
  {
    hide ReadMsg;
    ReadMsgInvariant(r, inp);
  }

  lemma NoWrap(r: Reader, inp: In)
    requires StoreOk(r) && r.window <= 0x1_0000_0000 - 0x100_0000
    ensures ReadMsg(r, inp).Message? ==> r.ackReceived + ReadMsg(r, inp).c.length < 0x1_0000_0000
  {
    hide ReadMsg;
    ReadMsgInvariant(r, inp);
  }
}
