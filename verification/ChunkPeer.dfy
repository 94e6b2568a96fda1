/**
 What any peer may send, byte by byte as sections 5.3.1 and 5.4.1 of Adobe's
 RTMP 1.0 lay it out: chunks of several messages interleaved, with each of the
 four header formats. A reader delivers exactly the messages it completed.
 */
module ChunkPeers {
  import opened Bytes
  import opened ChunkSpec
  import opened ChunkTheorems

  // ---- Headers as bytes --------------------------------------------------

  /** The basic header: format and chunk stream id in one, two or three bytes. */
  function Basic(fmt: nat, csid: nat): seq<byte>
    requires fmt < 4 && GoodCsid(csid)
  {
    if csid < 64 then [fmt * 64 + csid]
    else if csid < 320 then [fmt * 64, csid - 64]
    else [fmt * 64 + 1, (csid - 64) % 256, (csid - 64) / 256]
  }

  /**
   A message and its time stamp field: the time stamp itself if `absolute`, else
   the difference to the message before it on the same chunk stream.
   */
  datatype Head = Head(m: Msg, field: nat, absolute: bool)

  ghost predicate GoodHead(h: Head) {
    && Representable(h.m) && h.field < 0x1_0000_0000
    && (h.absolute ==> h.field == h.m.timestamp)
  }

  /** The four bytes behind the header when the field does not fit into three. */
  function Extension(field: nat): seq<byte> {
    if field >= 0xffffff then BE(field, 4) else []
  }

  /** The message header in each format. */
  function Fields(fmt: nat, h: Head): seq<byte>
    requires GoodHead(h)
  {
    match fmt
    case 0 =>
      BE(Min(h.field, 0xffffff), 3) + (BE(|h.m.data|, 3) + ([h.m.typeID] + (LE(h.m.streamID, 4) + Extension(h.field))))
    case 1 => BE(Min(h.field, 0xffffff), 3) + (BE(|h.m.data|, 3) + ([h.m.typeID] + Extension(h.field)))
    case 2 => BE(Min(h.field, 0xffffff), 3) + Extension(h.field)
    case _ => Extension(h.field)
  }

  /**
   What a header in format `fmt` may leave out: format 1 the stream id of the last
   message on the chunk stream, format 2 also length and type, format 3 also the
   field. Time goes on by the difference; format 3 behind format 0 stands for
   the same time again.
   */
  ghost predicate Follows(fmt: nat, last: Head, h: Head) {
    && h.m.csid == last.m.csid && h.m.streamID == last.m.streamID
    && (fmt >= 2 ==> |h.m.data| == |last.m.data| && h.m.typeID == last.m.typeID)
    && (if fmt == 3 then h.field == last.field && h.absolute == last.absolute else !h.absolute)
    && h.m.timestamp == if h.absolute then last.m.timestamp else (last.m.timestamp + h.field) % 0x1_0000_0000
  }

  // ---- Reading them ------------------------------------------------------

  /** A chunk stream after a message with this head. */
  ghost predicate Remembers(cs: Chunk, h: Head) {
    && cs.timestamp == h.m.timestamp && cs.length == |h.m.data|
    && cs.typeID == h.m.typeID && cs.streamID == h.m.streamID
    && cs.exted == (h.field >= 0xffffff)
    && cs.format < 3 && (cs.format == 0) == h.absolute
    && (!h.absolute ==> cs.timeDelta == h.field)
  }

  /** It has received the first `sent` bytes of the message. */
  ghost predicate Carries(cs: Chunk, h: Head, sent: nat) {
    && Remembers(cs, h) && cs.csid == h.m.csid && sent <= |h.m.data|
    && cs.remain == |h.m.data| - sent && cs.got == (sent == |h.m.data|)
    && cs.data == h.m.data[..sent]
  }

  lemma BasicIs(fmt: nat, csid: nat)
    requires fmt < 4 && GoodCsid(csid)
    ensures Basic(fmt, csid) == BasicHeader(fmt, csid)
  {
    if csid < 64 {
      OneByte(fmt * 64 + csid);
    } else if csid < 320 {
      OneByte(fmt * 64);
      OneByte(csid - 64);
    } else {
      OneByte(fmt * 64 + 1);
      TwoBytes(csid - 64);
    }
  }

  lemma OneByte(v: nat)
    requires v < 256
    ensures BE(v, 1) == [v] == LE(v, 1)
  {
    assert BE(v / 256, 0) == [] && LE(v / 256, 0) == [];
  }

  lemma TwoBytes(v: nat)
    requires v < 0x1_0000
    ensures LE(v, 2) == [v % 256, v / 256]
  {
    OneByte(v / 256);
    assert LE(v, 2) == [v % 256] + LE(v / 256, 1);
  }

  lemma ExtendRead(field: nat, rest: seq<byte>)
    requires field < 0x1_0000_0000
    ensures Extend(Min(field, 0xffffff), In(Extension(field) + rest, false)) == (field, field >= 0xffffff, In(rest, false))
  {
    hide BE, FromBE;
    Pow256Values();
    if field >= 0xffffff {
      ReadBEOf(field, 4, rest);
    } else {
      assert Extension(field) + rest == rest;
    }
  }

  lemma Read0(cs: Chunk, h: Head, rest: seq<byte>)
    requires GoodHead(h) && h.absolute && cs.csid == h.m.csid
    ensures var (c, i) := ReadFields(cs, 0, In(Fields(0, h) + rest, false)); i == In(rest, false) && Remembers(c, h)
    ensures ReadFields(cs, 0, In(Fields(0, h) + rest, false)).0.csid == cs.csid
  {
    hide BE, FromBE, LE, FromLE, Extension, Extend;
    Pow256Values();
    var m, e := h.m, Extension(h.field);
    var t3 := LE(m.streamID, 4) + (e + rest);
    var t2 := [m.typeID] + t3;
    var t1 := BE(|m.data|, 3) + t2;
    assert Fields(0, h) + rest == BE(Min(h.field, 0xffffff), 3) + t1;
    ReadBEOf(Min(h.field, 0xffffff), 3, t1);
    ReadBEOf(|m.data|, 3, t2);
    OneByte(m.typeID);
    ReadBEOf(m.typeID, 1, t3);
    ReadLEOf(m.streamID, 4, e + rest);
    ExtendRead(h.field, rest);
  }

  lemma Read1(cs: Chunk, last: Head, h: Head, rest: seq<byte>)
    requires GoodHead(h) && Follows(1, last, h) && Remembers(cs, last)
    ensures var (c, i) := ReadFields(cs, 1, In(Fields(1, h) + rest, false)); i == In(rest, false) && Remembers(c, h)
    ensures ReadFields(cs, 1, In(Fields(1, h) + rest, false)).0.csid == cs.csid
  {
    hide BE, FromBE, Extension, Extend;
    Pow256Values();
    var m, e := h.m, Extension(h.field);
    var t2 := [m.typeID] + (e + rest);
    var t1 := BE(|m.data|, 3) + t2;
    assert Fields(1, h) + rest == BE(Min(h.field, 0xffffff), 3) + t1;
    ReadBEOf(Min(h.field, 0xffffff), 3, t1);
    ReadBEOf(|m.data|, 3, t2);
    OneByte(m.typeID);
    ReadBEOf(m.typeID, 1, e + rest);
    ExtendRead(h.field, rest);
  }

  lemma Read2(cs: Chunk, last: Head, h: Head, rest: seq<byte>)
    requires GoodHead(h) && Follows(2, last, h) && Remembers(cs, last)
    ensures var (c, i) := ReadFields(cs, 2, In(Fields(2, h) + rest, false)); i == In(rest, false) && Remembers(c, h)
    ensures ReadFields(cs, 2, In(Fields(2, h) + rest, false)).0.csid == cs.csid
  {
    hide BE, FromBE, Extension, Extend;
    Pow256Values();
    var e := Extension(h.field);
    Assoc(BE(Min(h.field, 0xffffff), 3), e, rest);
    ReadBEOf(Min(h.field, 0xffffff), 3, e + rest);
    ExtendRead(h.field, rest);
  }

  lemma Read3(cs: Chunk, last: Head, h: Head, rest: seq<byte>)
    requires GoodHead(h) && Follows(3, last, h) && Remembers(cs, last)
    ensures var (c, i) := ReadFields(cs, 3, In(Fields(3, h) + rest, false)); i == In(rest, false) && Remembers(c, h)
    ensures ReadFields(cs, 3, In(Fields(3, h) + rest, false)).0.csid == cs.csid
  {
    hide BE, FromBE;
    Pow256Values();
    if h.field >= 0xffffff {
      ReadBEOf(h.field, 4, rest);
    } else {
      assert Fields(3, h) + rest == rest;
    }
  }

  /** The header of a new message, in any format that may be used. */
  ghost predicate Startable(fmt: nat, cs: Chunk, h: Head) {
    && fmt < 4 && GoodHead(h)
    && if fmt == 0 then h.absolute else exists last :: Remembers(cs, last) && Follows(fmt, last, h)
  }

  lemma StartRead(cs: Chunk, fmt: nat, h: Head, rest: seq<byte>)
    requires Startable(fmt, cs, h) && cs.remain == 0 && cs.csid == h.m.csid
    ensures var s := ReadHeader(cs, fmt, In(Fields(fmt, h) + rest, false));
            s.Step? && s.inp == In(rest, false) && Carries(s.cs, h, 0)
  {
    hide Remembers, Follows, ReadFields, Fields;
    if fmt == 0 {
      Read0(cs, h, rest);
    } else {
      var last :| Remembers(cs, last) && Follows(fmt, last, h);
      match fmt
      case 1 => Read1(cs, last, h, rest);
      case 2 => Read2(cs, last, h, rest);
      case _ => Read3(cs, last, h, rest);
    }
    var c := ReadFields(cs, fmt, In(Fields(fmt, h) + rest, false)).0;
    LengthIs(c, h);
    assert h.m.data[..0] == [];
  }

  lemma LengthIs(c: Chunk, h: Head)
    requires Remembers(c, h)
    ensures c.length == |h.m.data|
    ensures forall n: nat, g: bool, d: seq<byte> :: Remembers(c.(remain := n, got := g, data := d), h)
  {
  }

  lemma PieceRead(cs: Chunk, h: Head, sent: nat, size: nat, rest: seq<byte>)
    requires Carries(cs, h, sent) && sent < |h.m.data| && size > 0
    ensures var n := Min(|h.m.data| - sent, size);
            var s := ReadPayload(cs, size, In(h.m.data[sent..sent + n] + rest, false));
            s.Step? && s.inp == In(rest, false) && Carries(s.cs, h, sent + n)
  {
    hide Remembers;
    var n := Min(|h.m.data| - sent, size);
    var input := h.m.data[sent..sent + n] + rest;
    LengthIs(cs, h);
    assert input[..n] == h.m.data[sent..sent + n] && input[n..] == rest;
    assert h.m.data[..sent] + h.m.data[sent..sent + n] == h.m.data[..sent + n];
  }

  // ---- Any interleaving --------------------------------------------------

  /** A message whose first `sent` bytes are on the wire. */
  datatype Flight = Flight(h: Head, sent: nat)

  /**
   A peer that follows the protocol: the messages in progress and the last head,
   each by key, and its chunk size.
   */
  datatype Sender = Sender(active: map<nat, Flight>, last: map<nat, Head>, size: nat)

  /** Send the first chunk of a new message with a header in some format, or the next chunk of the flight with this key. */
  datatype Action = Start(fmt: nat, h: Head) | Continue(key: nat)

  /** A field that is repeated in every chunk is compared with the time stamp. */
  ghost predicate Repeatable(h: Head) {
    h.field >= 0xffffff ==> h.field == h.m.timestamp
  }

  ghost predicate SenderOk(s: Sender) {
    && s.size > 0
    && forall k :: k in s.active ==>
         var f := s.active[k];
         && GoodHead(f.h) && Writable(f.h.m) && Repeatable(f.h)
         && Key(f.h.m.csid) == k && 0 < f.sent < |f.h.m.data|
  }

  /** A message may start when no flight uses its key, and with what its header leaves out as before. */
  ghost predicate Enabled(s: Sender, a: Action) {
    match a
    case Start(fmt, h) =>
      && fmt < 4 && GoodHead(h) && Writable(h.m) && Key(h.m.csid) !in s.active
      && (if fmt == 0 then h.absolute else Key(h.m.csid) in s.last && Follows(fmt, s.last[Key(h.m.csid)], h))
      && (|h.m.data| > s.size ==> Repeatable(h))
    case Continue(k) => k in s.active
  }

  ghost function Current(s: Sender, a: Action): (f: Flight)
    requires SenderOk(s) && Enabled(s, a)
    ensures GoodHead(f.h) && Writable(f.h.m) && f.sent < |f.h.m.data|
  {
    match a
    case Start(fmt, h) => Flight(h, 0)
    case Continue(k) => s.active[k]
  }

  /** One chunk: its header, and as much of the message as fits. */
  ghost function Emitted(s: Sender, a: Action): seq<byte>
    requires SenderOk(s) && Enabled(s, a)
  {
    var f := Current(s, a);
    var piece := f.h.m.data[f.sent..f.sent + Min(|f.h.m.data| - f.sent, s.size)];
    match a
    case Start(fmt, h) => Basic(fmt, h.m.csid) + (Fields(fmt, h) + piece)
    case Continue(_) => Basic(3, f.h.m.csid) + (Extension(f.h.field) + piece)
  }

  ghost function Advance(s: Sender, a: Action): Flight
    requires SenderOk(s) && Enabled(s, a)
  {
    var f := Current(s, a);
    f.(sent := f.sent + Min(|f.h.m.data| - f.sent, s.size))
  }

  ghost predicate Completes(s: Sender, a: Action)
    requires SenderOk(s) && Enabled(s, a)
  {
    Advance(s, a).sent == |Advance(s, a).h.m.data|
  }

  /** A Set Chunk Size message takes effect with its last chunk. */
  ghost function After(s: Sender, a: Action): (s': Sender)
    requires SenderOk(s) && Enabled(s, a)
    ensures SenderOk(s')
  {
    var f := Advance(s, a);
    var key := Key(f.h.m.csid);
    var last := s.last[key := f.h];
    if Completes(s, a) then Sender(s.active - {key}, last, SizeAfter(f.h.m, s.size))
    else Sender(s.active[key := f], last, s.size)
  }

  ghost predicate EnabledAll(s: Sender, trace: seq<Action>)
    requires SenderOk(s)
    decreases |trace|
  {
    trace != [] ==> Enabled(s, trace[0]) && EnabledAll(After(s, trace[0]), trace[1..])
  }

  ghost function EmittedAll(s: Sender, trace: seq<Action>): seq<byte>
    requires SenderOk(s) && EnabledAll(s, trace)
    decreases |trace|
  {
    if trace == [] then [] else Emitted(s, trace[0]) + EmittedAll(After(s, trace[0]), trace[1..])
  }

  /** The messages in the order of their last chunks. */
  ghost function CompletedAll(s: Sender, trace: seq<Action>): seq<Msg>
    requires SenderOk(s) && EnabledAll(s, trace)
    decreases |trace|
  {
    if trace == [] then []
    else
      (if Completes(s, trace[0]) then [Current(s, trace[0]).h.m] else [])
      + CompletedAll(After(s, trace[0]), trace[1..])
  }

  ghost function AfterAll(s: Sender, trace: seq<Action>): (s': Sender)
    requires SenderOk(s) && EnabledAll(s, trace)
    ensures SenderOk(s')
    decreases |trace|
  {
    if trace == [] then s else AfterAll(After(s, trace[0]), trace[1..])
  }

  /**
   The reader holds exactly what the sender has sent of every flight and remembers
   the last head of every key, and both cut at the same size.
   */
  ghost predicate Sync(s: Sender, r: Reader) {
    && r.chunkSize == s.size
    && (forall k :: k in s.active ==> Carries(r.Get(k), s.active[k].h, s.active[k].sent))
    && (forall k :: k in s.last ==> Remembers(r.Get(k), s.last[k]))
    && (forall k | k !in s.active :: r.Get(k).remain == 0)
  }

  lemma PutSync(s: Sender, a: Action, r: Reader, cs: Chunk)
    requires SenderOk(s) && Enabled(s, a) && Sync(s, r)
    requires Carries(cs, Advance(s, a).h, Advance(s, a).sent)
    ensures var r1 := r.Put(Key(cs.csid), cs);
            && (forall k | k != Key(cs.csid) :: r1.Get(k) == r.Get(k))
            && Remembers(r1.Get(Key(cs.csid)), Advance(s, a).h)
  {
    LengthIs(cs, Advance(s, a).h);
    hide Remembers;
    var r1 := r.Put(Key(cs.csid), cs);
    assert forall k | k != Key(cs.csid) :: r1.Get(k) == r.Get(k);
  }

  lemma ContinueSync(s: Sender, a: Action, r: Reader, cs: Chunk)
    requires SenderOk(s) && Enabled(s, a) && Sync(s, r) && !Completes(s, a)
    requires Carries(cs, Advance(s, a).h, Advance(s, a).sent)
    ensures Sync(After(s, a), r.Put(Key(cs.csid), cs)) && !cs.got
  {
    PutSync(s, a, r, cs);
    hide Remembers, GoodHead, Writable, Repeatable, Follows;
  }

  lemma CarriedWhole(cs: Chunk, h: Head)
    requires Carries(cs, h, |h.m.data|)
    ensures ToMsg(cs) == h.m
  {
    assert h.m.data[..|h.m.data|] == h.m.data;
  }

  lemma CompleteSync(s: Sender, a: Action, r: Reader, cs: Chunk, inp: In)
    requires SenderOk(s) && Enabled(s, a) && Sync(s, r) && Completes(s, a)
    requires Carries(cs, Advance(s, a).h, Advance(s, a).sent)
    ensures var res := Finish(r.Put(Key(cs.csid), cs), cs, inp);
            && res.Message? && res.c == cs && res.inp == inp
            && ToMsg(cs) == Current(s, a).h.m && Sync(After(s, a), res.r) && cs.got
  {
    var r1 := r.Put(Key(cs.csid), cs);
    CarriedWhole(cs, Current(s, a).h);
    FinishOf(r1, cs, Current(s, a).h.m, inp);
    PutSync(s, a, r, cs);
    hide Finish, Carries, Remembers, Enabled, SenderOk;
    DoneSync(s, a, r, cs, Finish(r1, cs, inp).r);
  }

  lemma DoneSync(s: Sender, a: Action, r: Reader, cs: Chunk, r2: Reader)
    requires SenderOk(s) && Enabled(s, a) && Sync(s, r) && Completes(s, a)
    requires Carries(cs, Advance(s, a).h, Advance(s, a).sent)
    requires var r1 := r.Put(Key(cs.csid), cs);
             r2.chunks == r1.chunks && r2.chunkSize == SizeAfter(Current(s, a).h.m, r.chunkSize)
    ensures Sync(After(s, a), r2)
  {
    PutSync(s, a, r, cs);
    CarriesCsid(cs, Advance(s, a).h, Advance(s, a).sent);
    AfterDone(s, a);
    hide After, Advance, Current, Enabled, Completes, SenderOk, Carries, Remembers, SizeAfter, Sync;
    SameSize(s, r);
    SyncWithout(s, After(s, a), Advance(s, a).h, r, r.Put(Key(cs.csid), cs), r2);
  }

  lemma SameSize(s: Sender, r: Reader)
    requires Sync(s, r)
    ensures r.chunkSize == s.size
  {
  }

  /** A message is over: its key is free, and its head the last one there. */
  lemma SyncWithout(s: Sender, s2: Sender, h: Head, r: Reader, r1: Reader, r2: Reader)
    requires Sync(s, r) && r2.chunks == r1.chunks
    requires var key := Key(h.m.csid);
             && s2 == Sender(s.active - {key}, s.last[key := h], r2.chunkSize)
             && (forall k | k != key :: r1.Get(k) == r.Get(k))
             && Remembers(r1.Get(key), h) && r1.Get(key).remain == 0
    ensures Sync(s2, r2)
  {
    hide Carries, Remembers;
    assert forall k :: r2.Get(k) == r1.Get(k);
  }

  lemma CarriesCsid(cs: Chunk, h: Head, sent: nat)
    requires Carries(cs, h, sent)
    ensures cs.csid == h.m.csid && cs.remain == |h.m.data| - sent
  {
  }

  lemma AfterDone(s: Sender, a: Action)
    requires SenderOk(s) && Enabled(s, a) && Completes(s, a)
    ensures var h, key := Advance(s, a).h, Key(Advance(s, a).h.m.csid);
            && h == Current(s, a).h && Advance(s, a).sent == |h.m.data|
            && After(s, a) == Sender(s.active - {key}, s.last[key := h], SizeAfter(h.m, s.size))
  {
  }

  /** One action of the sender is one turn of the reader's loop. */
  lemma ActionRead(s: Sender, a: Action, r: Reader, rest: seq<byte>)
    requires SenderOk(s) && Enabled(s, a) && Sync(s, r)
    ensures var (key, st) := NextChunk(r, In(Emitted(s, a) + rest, false));
            && st.Step? && st.inp == In(rest, false) && key == Key(st.cs.csid)
            && Carries(st.cs, Advance(s, a).h, Advance(s, a).sent)
  {
    match a
    case Start(fmt, h) => StartAction(s, fmt, h, r, rest);
    case Continue(k) => ContinueAction(s, k, r, rest);
  }

  lemma StartAction(s: Sender, fmt: nat, h: Head, r: Reader, rest: seq<byte>)
    requires SenderOk(s) && Enabled(s, Start(fmt, h)) && Sync(s, r)
    ensures var (key, st) := NextChunk(r, In(Emitted(s, Start(fmt, h)) + rest, false));
            && st.Step? && st.inp == In(rest, false) && key == Key(st.cs.csid)
            && Carries(st.cs, h, Advance(s, Start(fmt, h)).sent)
  {
    hide Remembers, Follows, Fields, Basic, BasicHeader, ReadHeader, ReadPayload, ReadCsid, FromBE, Representable;
    var m := h.m;
    var piece := m.data[0..0 + Min(|m.data| - 0, s.size)];
    var cs := r.Get(Key(m.csid)).(csid := m.csid);
    CsidOf(h);
    var body := Fields(fmt, h) + (piece + rest);
    assert Emitted(s, Start(fmt, h)) + rest == Basic(fmt, m.csid) + body;
    BasicIs(fmt, m.csid);
    BasicHeaderRead(fmt, m.csid, body);
    SameHeadAs(r.Get(Key(m.csid)), m.csid);
    assert Startable(fmt, cs, h);
    StartRead(cs, fmt, h, piece + rest);
    PieceRead(ReadHeader(cs, fmt, In(body, false)).cs, h, 0, s.size, rest);
  }

  lemma ContinueAction(s: Sender, k: nat, r: Reader, rest: seq<byte>)
    requires SenderOk(s) && Enabled(s, Continue(k)) && Sync(s, r)
    ensures var (key, st) := NextChunk(r, In(Emitted(s, Continue(k)) + rest, false));
            && st.Step? && st.inp == In(rest, false) && key == Key(st.cs.csid)
            && Carries(st.cs, s.active[k].h, Advance(s, Continue(k)).sent)
  {
    hide Remembers, Basic, BasicHeader, ReadHeader, ReadPayload, ReadCsid, FromBE, Representable;
    var f := s.active[k];
    var m := f.h.m;
    var piece := m.data[f.sent..f.sent + Min(|m.data| - f.sent, s.size)];
    var cs := r.Get(Key(m.csid)).(csid := m.csid);
    CsidOf(f.h);
    var body := Extension(f.h.field) + (piece + rest);
    assert Emitted(s, Continue(k)) + rest == Basic(3, m.csid) + body;
    BasicIs(3, m.csid);
    BasicHeaderRead(3, m.csid, body);
    NextRead(cs, f.h, f.sent, piece + rest);
    PieceRead(cs, f.h, f.sent, s.size, rest);
  }

  lemma CsidOf(h: Head)
    requires GoodHead(h)
    ensures GoodCsid(h.m.csid)
  {
  }

  lemma SameHeadAs(cs: Chunk, csid: nat)
    ensures forall h :: Remembers(cs, h) ==> Remembers(cs.(csid := csid), h)
  {
  }

  /** The header of a further chunk repeats the field. */
  lemma NextRead(cs: Chunk, h: Head, sent: nat, rest: seq<byte>)
    requires GoodHead(h) && Repeatable(h) && Carries(cs, h, sent) && sent < |h.m.data|
    ensures ReadHeader(cs, 3, In(Extension(h.field) + rest, false)) == Step(cs, In(rest, false))
  {
    hide BE, FromBE;
    Pow256Values();
    if h.field >= 0xffffff {
      ReadBEOf(h.field, 4, rest);
    } else {
      assert Extension(h.field) + rest == rest;
    }
  }

  /** The actions after the `n`th completion, and the sender's state there. */
  ghost function Drop(s: Sender, trace: seq<Action>, n: nat): (r: (Sender, seq<Action>))
    requires SenderOk(s) && EnabledAll(s, trace)
    ensures SenderOk(r.0) && EnabledAll(r.0, r.1)
    ensures AfterAll(r.0, r.1) == AfterAll(s, trace)
    decreases |trace|
  {
    if n == 0 || trace == [] then (s, trace)
    else Drop(After(s, trace[0]), trace[1..], if Completes(s, trace[0]) then n - 1 else n)
  }

  lemma {:induction false} FirstMessage(s: Sender, trace: seq<Action>, r: Reader, rest: seq<byte>)
    requires SenderOk(s) && EnabledAll(s, trace) && Sync(s, r)
    requires CompletedAll(s, trace) != []
    ensures var res := ReadMsg(r, In(EmittedAll(s, trace) + rest, false));
            var (s1, t1) := Drop(s, trace, 1);
            && res.Message? && ToMsg(res.c) == CompletedAll(s, trace)[0]
            && res.inp == In(EmittedAll(s1, t1) + rest, false) && Sync(s1, res.r)
            && CompletedAll(s1, t1) == CompletedAll(s, trace)[1..]
    decreases |trace|
  {
    hide NextChunk, Finish, Carries, Sync, SenderOk, Emitted, ToMsg;
    var a, tail := trace[0], trace[1..];
    var after := EmittedAll(After(s, a), tail) + rest;
    assert EmittedAll(s, trace) + rest == Emitted(s, a) + after;
    ActionRead(s, a, r, after);
    var (key, st) := NextChunk(r, In(Emitted(s, a) + after, false));
    if Completes(s, a) {
      CompleteSync(s, a, r, st.cs, st.inp);
      assert Drop(After(s, a), tail, 0) == (After(s, a), tail);
    } else {
      ContinueSync(s, a, r, st.cs);
      assert CompletedAll(s, trace) == CompletedAll(After(s, a), tail);
      FirstMessage(After(s, a), tail, r.Put(key, st.cs), rest);
    }
  }

  lemma {:induction false} DropDrop(s: Sender, trace: seq<Action>, n: nat)
    requires SenderOk(s) && EnabledAll(s, trace)
    requires n < |CompletedAll(s, trace)|
    ensures var (s1, t1) := Drop(s, trace, 1); Drop(s, trace, n + 1) == Drop(s1, t1, n)
    decreases |trace|
  {
    var a, tail := trace[0], trace[1..];
    if Completes(s, a) {
      assert Drop(After(s, a), tail, 0) == (After(s, a), tail);
    } else {
      assert CompletedAll(s, trace) == CompletedAll(After(s, a), tail);
      DropDrop(After(s, a), tail, n);
    }
  }

  /** Reading `n` messages is reading the first completed one and then `n - 1` more. */
  lemma ReadFirst(s: Sender, trace: seq<Action>, r: Reader, rest: seq<byte>, n: nat) returns (r1: Reader)
    requires SenderOk(s) && EnabledAll(s, trace) && Sync(s, r)
    requires 0 < n <= |CompletedAll(s, trace)|
    ensures var (s1, t1) := Drop(s, trace, 1);
            var run := ReadMsgs(r, In(EmittedAll(s, trace) + rest, false), n);
            var more := ReadMsgs(r1, In(EmittedAll(s1, t1) + rest, false), n - 1);
            && Sync(s1, r1) && Drop(s, trace, n) == Drop(s1, t1, n - 1)
            && CompletedAll(s, trace) == CompletedAll(s, trace)[..1] + CompletedAll(s1, t1)
            && run.inp == more.inp && run.r == more.r
            && ToMsgs(run.chunks) == CompletedAll(s, trace)[..1] + ToMsgs(more.chunks)
  {
    hide *;
    FirstMessage(s, trace, r, rest);
    DropDrop(s, trace, n - 1);
    var c, r', i' := ReadMsgsUnfold(r, In(EmittedAll(s, trace) + rest, false), n);
    r1 := r';
    assert CompletedAll(s, trace)[..1] == [ToMsg(c)];
  }

  ghost predicate Delivers(run: Run, done: seq<Msg>, s1: Sender, t1: seq<Action>, rest: seq<byte>)
    requires SenderOk(s1) && EnabledAll(s1, t1)
  {
    ToMsgs(run.chunks) == done && run.inp == In(EmittedAll(s1, t1) + rest, false) && Sync(s1, run.r)
  }

  lemma DeliversNone(s: Sender, trace: seq<Action>, r: Reader, rest: seq<byte>)
    requires SenderOk(s) && EnabledAll(s, trace) && Sync(s, r)
    ensures Delivers(ReadMsgs(r, In(EmittedAll(s, trace) + rest, false), 0), [], s, trace, rest)
    ensures Drop(s, trace, 0) == (s, trace)
  {
  }

  lemma {:induction false} ReadCompleted(s: Sender, trace: seq<Action>, r: Reader, rest: seq<byte>, n: nat)
    requires SenderOk(s) && EnabledAll(s, trace) && Sync(s, r)
    requires n <= |CompletedAll(s, trace)|
    ensures Delivers(ReadMsgs(r, In(EmittedAll(s, trace) + rest, false), n), CompletedAll(s, trace)[..n],
                     Drop(s, trace, n).0, Drop(s, trace, n).1, rest)
    decreases n
  {
    hide ReadMsg, ReadMsgs, EmittedAll, CompletedAll, EnabledAll, AfterAll, Drop, Sync, SenderOk;
    if n == 0 {
      DeliversNone(s, trace, r, rest);
    } else {
      var (s1, t1) := Drop(s, trace, 1);
      var r1 := ReadFirst(s, trace, r, rest, n);
      ReadCompleted(s1, t1, r1, rest, n - 1);
      assert CompletedAll(s, trace)[..n] == CompletedAll(s, trace)[..1] + CompletedAll(s1, t1)[..n - 1];
    }
  }

  /** Without completions every action leaves its flight active. */
  lemma {:induction false} UnfinishedStaysActive(s: Sender, trace: seq<Action>, k: nat)
    requires SenderOk(s) && EnabledAll(s, trace) && CompletedAll(s, trace) == []
    requires k in s.active
    ensures k in AfterAll(s, trace).active
    decreases |trace|
  {
    if trace != [] {
      UnfinishedStaysActive(After(s, trace[0]), trace[1..], k);
    }
  }

  lemma {:induction false} DropAll(s: Sender, trace: seq<Action>, n: nat)
    requires SenderOk(s) && EnabledAll(s, trace)
    requires n == |CompletedAll(s, trace)|
    ensures var (s1, t1) := Drop(s, trace, n); CompletedAll(s1, t1) == []
    decreases |trace|
  {
    if n > 0 {
      DropAll(After(s, trace[0]), trace[1..], if Completes(s, trace[0]) then n - 1 else n);
    }
  }

  /**
   Whatever the order in which a peer sends the chunks of its messages, and
   however it changes the chunk size on the way, reading delivers exactly the
   messages it completed, in the order of their last chunks. When no message is
   left unfinished the reader stands behind the last byte, and reader and sender
   agree on the chunk size.
   */
  lemma InterleavedRoundTrip(s: Sender, trace: seq<Action>, r: Reader, rest: seq<byte>)
    requires SenderOk(s) && EnabledAll(s, trace) && Sync(s, r)
    ensures var done := CompletedAll(s, trace);
            var run := ReadMsgs(r, In(EmittedAll(s, trace) + rest, false), |done|);
            && ToMsgs(run.chunks) == done
            && (AfterAll(s, trace).active == map[] ==>
                  run.inp == In(rest, false) && Sync(AfterAll(s, trace), run.r))
  {
    var done := CompletedAll(s, trace);
    ReadCompleted(s, trace, r, rest, |done|);
    assert done[..|done|] == done;
    if AfterAll(s, trace).active == map[] {
      var (s1, t1) := Drop(s, trace, |done|);
      DropAll(s, trace, |done|);
      if t1 != [] {
        var key := Key(Current(s1, t1[0]).h.m.csid);
        assert !Completes(s1, t1[0]) && key in After(s1, t1[0]).active;
        UnfinishedStaysActive(After(s1, t1[0]), t1[1..], key);
        assert false;
      }
      assert EmittedAll(s1, t1) + rest == rest;
    }
  }

  /** The header of a new message on a key in use is an error, whatever follows it. */
  lemma BusyKeyRefused(s: Sender, fmt: nat, csid: nat, r: Reader, rest: seq<byte>)
    requires SenderOk(s) && Sync(s, r) && fmt < 3 && GoodCsid(csid) && Key(csid) in s.active
    ensures var res := ReadMsg(r, In(Basic(fmt, csid) + rest, false));
            res.Failed? && res.error == InvalidRemain
  {
    BasicIs(fmt, csid);
    BasicHeaderRead(fmt, csid, rest);
  }

  /** No message is read from these bytes. */
  ghost predicate Refuses(r: Reader, bad: seq<byte>, error: Option<Error>) {
    var res := ReadMsg(r, In(bad, false));
    res.Failed? && (error.Some? ==> res.error == error.value)
  }

  /** It is so behind any chunks that complete no message. */
  lemma {:induction false} RefusedBehind(s: Sender, trace: seq<Action>, bad: seq<byte>, r: Reader, error: Option<Error>)
    requires SenderOk(s) && EnabledAll(s, trace) && Sync(s, r) && CompletedAll(s, trace) == []
    requires forall r1 | Sync(AfterAll(s, trace), r1) :: Refuses(r1, bad, error)
    ensures Refuses(r, EmittedAll(s, trace) + bad, error)
    decreases |trace|
  {
    hide NextChunk, Finish, Carries, Sync, SenderOk, Emitted;
    if trace == [] {
      assert EmittedAll(s, trace) + bad == bad;
    } else {
      var a, tail := trace[0], trace[1..];
      var after := EmittedAll(After(s, a), tail) + bad;
      assert EmittedAll(s, trace) + bad == Emitted(s, a) + after;
      ActionRead(s, a, r, after);
      var (key, st) := NextChunk(r, In(Emitted(s, a) + after, false));
      assert !Completes(s, a);
      ContinueSync(s, a, r, st.cs);
      RefusedBehind(After(s, a), tail, bad, r.Put(key, st.cs), error);
    }
  }

  /** Everything completed is delivered, and then nothing more. */
  lemma ThenRefused(s: Sender, trace: seq<Action>, bad: seq<byte>, r: Reader, error: Option<Error>)
    requires SenderOk(s) && EnabledAll(s, trace) && Sync(s, r)
    requires forall r1 | Sync(AfterAll(s, trace), r1) :: Refuses(r1, bad, error)
    ensures var done := CompletedAll(s, trace);
            var run := ReadMsgs(r, In(EmittedAll(s, trace) + bad, false), |done|);
            ToMsgs(run.chunks) == done && run.inp == In(run.inp.rest, false) && Refuses(run.r, run.inp.rest, error)
  {
    hide ReadMsg, ReadMsgs, EmittedAll, CompletedAll, EnabledAll, Drop, Sync, Refuses;
    var done := CompletedAll(s, trace);
    ReadCompleted(s, trace, r, bad, |done|);
    DropAll(s, trace, |done|);
    assert done[..|done|] == done;
    var (s1, t1) := Drop(s, trace, |done|);
    var run := ReadMsgs(r, In(EmittedAll(s, trace) + bad, false), |done|);
    RefusedBehind(s1, t1, bad, run.r, error);
  }

  /**
   Two messages whose chunk streams share a key cannot overlap. After any chunks
   a peer may send, the header of a new message on a key in use is an error, and
   everything completed before is delivered. So the condition on `Start` is exact.
   */
  lemma SharedKeyFails(s: Sender, trace: seq<Action>, fmt: nat, csid: nat, r: Reader, rest: seq<byte>)
    requires SenderOk(s) && EnabledAll(s, trace) && Sync(s, r)
    requires fmt < 3 && GoodCsid(csid) && Key(csid) in AfterAll(s, trace).active
    ensures var bad := Basic(fmt, csid) + rest;
            var done := CompletedAll(s, trace);
            var run := ReadMsgs(r, In(EmittedAll(s, trace) + bad, false), |done|);
            var next := ReadMsg(run.r, run.inp);
            ToMsgs(run.chunks) == done && next.Failed? && next.error == InvalidRemain
  {
    hide ReadMsg, ReadMsgs, EmittedAll, CompletedAll, EnabledAll, Sync, Basic, Key;
    var bad := Basic(fmt, csid) + rest;
    forall r1 | Sync(AfterAll(s, trace), r1)
      ensures Refuses(r1, bad, Some(InvalidRemain))
    {
      BusyKeyRefused(AfterAll(s, trace), fmt, csid, r1, rest);
    }
    ThenRefused(s, trace, bad, r, Some(InvalidRemain));
  }

  // ---- What the program itself sends -------------------------------------

  /** A written chunk is what a peer sends that uses formats 0 and 3 only. */
  lemma WrittenChunk(m: Msg, sent: nat, size: nat)
    requires Representable(m) && sent < |m.data| && size > 0
    ensures var h, piece := Head(m, m.timestamp, true), m.data[sent..sent + Min(|m.data| - sent, size)];
            ChunkBytes(m, sent, size)
            == if sent == 0 then Basic(0, m.csid) + (Fields(0, h) + piece)
               else Basic(3, m.csid) + (Extension(m.timestamp) + piece)
  {
    hide BasicHeader, Basic, BE, LE;
    var fmt := if sent == 0 then 0 else 3;
    BasicIs(fmt, m.csid);
    OneByte(m.typeID);
    var piece := m.data[sent..sent + Min(|m.data| - sent, size)];
    HeaderParts(fmt, m, piece);
  }

  /** An acknowledgement and an announcement as bytes: type 3 and type 1 on chunk stream 2, and four bytes of value. */
  lemma ControlBytes(value: nat, size: nat)
    requires value < 0x1_0000_0000 && size >= 4
    ensures Encode(AckMessage(value), size) == [0x02, 0, 0, 0, 0, 0, 4, 3, 0, 0, 0, 0] + BE(value, 4)
    ensures Encode(SetChunkSizeMsg(value), size) == [0x02, 0, 0, 0, 0, 0, 4, 1, 0, 0, 0, 0] + BE(value, 4)
  {
    hide BE;
    FourBytes(AckMessage(value), size);
    FourBytes(SetChunkSizeMsg(value), size);
  }

  lemma FourBytes(m: Msg, size: nat)
    requires size >= 4 && m.csid == 2 && m.timestamp == 0 && m.typeID in {1, 3} && m.streamID == 0 && |m.data| == 4
    ensures Encode(m, size) == [0x02, 0, 0, 0, 0, 0, 4, m.typeID, 0, 0, 0, 0] + m.data
  {
    hide BE, LE, ChunkBytes, Extension;
    WrittenChunk(m, 0, size);
    SmallFields();
    var h := Head(m, 0, true);
    assert Basic(0, 2) == [0x02] && Extension(0) == [] by { NoExtension(); }
    assert Fields(0, h) == [0, 0, 0, 0, 0, 4, m.typeID, 0, 0, 0, 0];
    assert m.data[0..4] == m.data;
    assert ChunksFrom(m, 4, size) == [];
    NothingMore<byte, byte>(ChunkBytes(m, 0, size), []);
  }

  lemma NoExtension()
    ensures Extension(0) == []
  {
  }

  lemma SmallFields()
    ensures BE(0, 3) == [0, 0, 0] && BE(4, 3) == [0, 0, 4] && LE(0, 4) == [0, 0, 0, 0]
  {
    OneByte(0);
    OneByte(4);
    assert BE(0, 2) == BE(0, 1) + [0];
    assert BE(0, 3) == BE(0, 2) + [0] && BE(4, 3) == BE(0, 2) + [4];
    assert LE(0, 2) == [0] + LE(0, 1);
    assert LE(0, 3) == [0] + LE(0, 2);
    assert LE(0, 4) == [0] + LE(0, 3);
  }

  /** Media goes out on fixed chunk streams, everything else where it was put. */
  lemma RouteIs(m: Msg)
    ensures Route(m) == m.(csid := if m.typeID == 8 then 4 else if m.typeID in {9, 15, 18} then 6 else m.csid)
  {
  }

  // ---- Where the reader departs from the standard ------------------------

  /**
   Format 3 behind format 0: section 5.3.1.2.4 takes the time stamp for the
   difference, the reader keeps the time. The two agree only at time 0.
   */
  lemma SameTimeAgain(cs: Chunk, last: Head, h: Head, rest: seq<byte>)
    requires GoodHead(h) && Remembers(cs, last) && last.absolute && Follows(3, last, h)
    requires cs.remain == 0 && cs.csid == h.m.csid
    ensures var s := ReadHeader(cs, 3, In(Fields(3, h) + rest, false));
            && s.Step? && s.cs.timestamp == last.m.timestamp
            && (s.cs.timestamp == (last.m.timestamp + last.m.timestamp) % 0x1_0000_0000 <==> last.m.timestamp == 0)
  {
    hide ReadHeader, Fields, FromBE, BE;
    assert Startable(3, cs, h);
    StartRead(cs, 3, h, rest);
    hide Follows, Startable, Representable;
  }

  /**
   Inside a message the reader compares a repeated field with the time stamp. A
   difference of 0xffffff or more that is another number is taken for payload.
   */
  lemma RepeatedTaken(r: Reader, h: Head, sent: nat, rest: seq<byte>)
    requires GoodHead(h) && h.field >= 0xffffff && h.field != h.m.timestamp && r.chunkSize > 0
    requires Carries(r.Get(Key(h.m.csid)), h, sent) && 0 < sent < |h.m.data|
    requires |rest| >= r.chunkSize
    ensures var n := Min(|h.m.data| - sent, r.chunkSize);
            var s := NextChunk(r, In(Basic(3, h.m.csid) + (BE(h.field, 4) + rest), false)).1;
            s.Step? && s.cs.data == h.m.data[..sent] + (BE(h.field, 4) + rest)[..n]
  {
    hide Basic, BasicHeader, BE, FromBE, ReadCsid, Remembers;
    var csid, body := h.m.csid, BE(h.field, 4) + rest;
    BasicIs(3, csid);
    BasicHeaderRead(3, csid, body);
    ExtedIs(r.Get(Key(csid)), h);
    Pow256Values();
    BERoundTrip(h.field, 4);
    assert body[..4] == BE(h.field, 4);
  }

  lemma ExtedIs(cs: Chunk, h: Head)
    requires Remembers(cs, h)
    ensures cs.exted == (h.field >= 0xffffff) && cs.timestamp == h.m.timestamp
  {
  }

  // ---- A stream that is cut short ----------------------------------------

  /** More bytes behind the input. */
  function More(i: In, q: seq<byte>): In {
    i.(rest := i.rest + q)
  }

  lemma MoreBE(i: In, n: nat, q: seq<byte>)
    requires !i.ReadBE(n).1.failed
    ensures !i.failed && More(i, q).ReadBE(n) == (i.ReadBE(n).0, More(i.ReadBE(n).1, q))
  {
    hide FromBE;
    assert (i.rest + q)[..n] == i.rest[..n] && (i.rest + q)[n..] == i.rest[n..] + q;
  }

  lemma MoreLE(i: In, n: nat, q: seq<byte>)
    requires !i.ReadLE(n).1.failed
    ensures !i.failed && More(i, q).ReadLE(n) == (i.ReadLE(n).0, More(i.ReadLE(n).1, q))
  {
    hide FromLE;
    assert (i.rest + q)[..n] == i.rest[..n] && (i.rest + q)[n..] == i.rest[n..] + q;
  }

  lemma MoreExtend(ts: nat, i: In, q: seq<byte>)
    requires !Extend(ts, i).2.failed
    ensures !i.failed && Extend(ts, More(i, q)) == (Extend(ts, i).0, Extend(ts, i).1, More(Extend(ts, i).2, q))
  {
    hide In.ReadBE;
    if ts == EXTENDED { MoreBE(i, 4, q); }
  }

  lemma MoreFields0(cs: Chunk, i: In, q: seq<byte>)
    requires !ReadFields0(cs, i).1.failed
    ensures !i.failed && ReadFields0(cs, More(i, q)) == (ReadFields0(cs, i).0, More(ReadFields0(cs, i).1, q))
  {
    hide In.ReadBE, In.ReadLE, Extend;
    var (ts, i1) := i.ReadBE(3);
    var (len, i2) := i1.ReadBE(3);
    var (ty, i3) := i2.ReadBE(1);
    var (sid, i4) := i3.ReadLE(4);
    MoreExtend(ts, i4, q);
    MoreLE(i3, 4, q);
    MoreBE(i2, 1, q);
    MoreBE(i1, 3, q);
    MoreBE(i, 3, q);
  }

  lemma MoreFields1(cs: Chunk, i: In, q: seq<byte>)
    requires !ReadFields1(cs, i).1.failed
    ensures !i.failed && ReadFields1(cs, More(i, q)) == (ReadFields1(cs, i).0, More(ReadFields1(cs, i).1, q))
  {
    hide In.ReadBE, Extend, AddDelta;
    var (ts, i1) := i.ReadBE(3);
    var (len, i2) := i1.ReadBE(3);
    var (ty, i3) := i2.ReadBE(1);
    MoreExtend(ts, i3, q);
    MoreBE(i2, 1, q);
    MoreBE(i1, 3, q);
    MoreBE(i, 3, q);
  }

  lemma MoreFields2(cs: Chunk, i: In, q: seq<byte>)
    requires !ReadFields2(cs, i).1.failed
    ensures !i.failed && ReadFields2(cs, More(i, q)) == (ReadFields2(cs, i).0, More(ReadFields2(cs, i).1, q))
  {
    hide In.ReadBE, Extend, AddDelta;
    MoreExtend(i.ReadBE(3).0, i.ReadBE(3).1, q);
    MoreBE(i, 3, q);
  }

  lemma MoreFields3(cs: Chunk, i: In, q: seq<byte>)
    requires !ReadFields3(cs, i).1.failed
    ensures !i.failed && ReadFields3(cs, More(i, q)) == (ReadFields3(cs, i).0, More(ReadFields3(cs, i).1, q))
  {
    hide In.ReadBE, AddDelta;
    if cs.exted { MoreBE(i, 4, q); }
  }

  lemma MoreHeader(cs: Chunk, fmt: nat, i: In, q: seq<byte>)
    requires var s := ReadHeader(cs, fmt, i); s.Step? && !s.inp.failed
    ensures var s := ReadHeader(cs, fmt, i); !i.failed && ReadHeader(cs, fmt, More(i, q)) == Step(s.cs, More(s.inp, q))
  {
    hide FromBE, ReadFields0, ReadFields1, ReadFields2, ReadFields3;
    if fmt == 3 && cs.remain != 0 {
      if cs.exted && |i.rest| >= 4 {
        assert (i.rest + q)[..4] == i.rest[..4] && (i.rest + q)[4..] == i.rest[4..] + q;
      }
    } else {
      match fmt
      case 0 => MoreFields0(cs, i, q);
      case 1 => MoreFields1(cs, i, q);
      case 2 => MoreFields2(cs, i, q);
      case _ => MoreFields3(cs, i, q);
    }
  }

  lemma MoreBody(cs: Chunk, fmt: nat, size: nat, i: In, q: seq<byte>)
    requires ReadBody(cs, fmt, size, i).Step?
    ensures var s := ReadBody(cs, fmt, size, i); !i.failed && ReadBody(cs, fmt, size, More(i, q)) == Step(s.cs, More(s.inp, q))
  {
    hide ReadHeader;
    MoreHeader(cs, fmt, i, q);
    var h := ReadHeader(cs, fmt, i);
    var n := Min(h.cs.remain, size);
    assert (h.inp.rest + q)[..n] == h.inp.rest[..n] && (h.inp.rest + q)[n..] == h.inp.rest[n..] + q;
  }

  /** A chunk that is read is read the same with more behind it. */
  lemma MoreChunk(r: Reader, i: In, q: seq<byte>)
    requires NextChunk(r, i).1.Step?
    ensures var (key, s) := NextChunk(r, i); NextChunk(r, More(i, q)) == (key, Step(s.cs, More(s.inp, q)))
  {
    hide ReadBody, In.ReadBE, In.ReadLE;
    var (h, i1) := i.ReadBE(1);
    var cs, key := r.Get(h % 64), h % 64;
    var (csid, i2) := ReadCsid(key, i1);
    MoreBody(cs.(csid := csid), h / 64, r.chunkSize, i2, q);
    if key == 0 { MoreLE(i1, 1, q); } else if key == 1 { MoreLE(i1, 2, q); }
    MoreBE(i, 1, q);
  }

  /** Part of a chunk is no chunk. */
  lemma PartRefused(s: Sender, a: Action, r: Reader, n: nat)
    requires SenderOk(s) && Enabled(s, a) && Sync(s, r) && n < |Emitted(s, a)|
    ensures ReadMsg(r, In(Emitted(s, a)[..n], false)).Failed?
  {
    hide NextChunk, Emitted, Carries, Sync, SenderOk, Enabled;
    var all := Emitted(s, a);
    var front, back := In(all[..n], false), all[n..];
    if NextChunk(r, front).1.Step? {
      MoreChunk(r, front, back);
      assert all[..n] + back == all == all + [];
      ActionRead(s, a, r, []);
      assert false;
    }
  }

  /**
   Wherever a stream ends inside a chunk, the reader delivers the messages that
   were completed before and then fails: never a part of a message.
   */
  lemma CutShort(s: Sender, trace: seq<Action>, a: Action, r: Reader, n: nat)
    requires SenderOk(s) && EnabledAll(s, trace) && Sync(s, r) && Enabled(AfterAll(s, trace), a)
    requires n < |Emitted(AfterAll(s, trace), a)|
    ensures var part := Emitted(AfterAll(s, trace), a)[..n];
            var done := CompletedAll(s, trace);
            var run := ReadMsgs(r, In(EmittedAll(s, trace) + part, false), |done|);
            ToMsgs(run.chunks) == done && ReadMsg(run.r, run.inp).Failed?
  {
    hide ReadMsg, ReadMsgs, EmittedAll, CompletedAll, EnabledAll, Sync, Emitted;
    var s1 := AfterAll(s, trace);
    var part := Emitted(s1, a)[..n];
    forall r1 | Sync(s1, r1)
      ensures Refuses(r1, part, None)
    {
      PartRefused(s1, a, r1, n);
    }
    ThenRefused(s, trace, part, r, None);
  }
}
