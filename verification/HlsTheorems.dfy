/** What a player finds in a stored segment: the bytes, demultiplexed and split again. */
module HlsTheorems {
  import opened Bytes
  import opened TsSpec
  import opened TsStream
  import opened Psi
  import opened HlsSpec

  /** The frames the batches of a segment are muxed as. */
  function SoundFrames(cs: seq<Chunk>): seq<Frame> {
    if cs == [] then []
    else
      var c := cs[|cs| - 1];
      SoundFrames(cs[..|cs| - 1]) + (if c.Sound? then [SoundFrame(c.pts, c.frames)] else [])
  }

  lemma {:induction false} FramesOnConcat(a: seq<Op>, b: seq<Op>, pid: nat)
    ensures FramesOn(a + b, pid) == FramesOn(a, pid) + FramesOn(b, pid)
  {
    if a == [] {
      assert a + b == b;
    } else {
      FramesOnConcat(a[1..], b, pid);
      assert (a + b)[0] == a[0] && (a + b)[1..] == a[1..] + b;
      var one := if a[0].MuxOp? && (if a[0].f.isVideo then 0x100 else 0x101) == pid then [a[0].f] else [];
      Assoc(one, FramesOn(a[1..], pid), FramesOn(b, pid));
    }
  }

  lemma {:induction false} FramesOfChunks(cs: seq<Chunk>)
    requires Batches(cs)
    ensures FramesOn(OpsOf(cs), 0x100) == Pics(cs) && FramesOn(OpsOf(cs), 0x101) == SoundFrames(cs)
  {
    hide Batch;
    if cs != [] {
      var init, c := cs[..|cs| - 1], cs[|cs| - 1];
      FramesOfChunks(init);
      assert if c.Pic? then c.f.isVideo else Batch(c.pts, c.frames);
      FramesOnConcat(OpsOf(init), [OpOf(c)], 0x100);
      FramesOnConcat(OpsOf(init), [OpOf(c)], 0x101);
      assert [OpOf(c)][1..] == [];
    }
  }

  lemma TablesSilent(ops: seq<Op>, pid: nat)
    ensures FramesOn(TABLES + ops, pid) == FramesOn(ops, pid)
  {
    FramesOnConcat(TABLES, ops, pid);
    assert TABLES[1..] == [PmtOp(Program(true, false))] && TABLES[1..][1..] == [];
  }

  /**
   From the bytes of a segment a receiver gets one PES packet for each batch of
   audio, and one unit for each accepted video frame, in order, which is its PES
   packet exactly when the muxer has not mangled it.
   */
  lemma SegmentReceived(seg: Segment, pending: seq<Accepted>)
    requires Whole(seg, pending)
    ensures Receive(seg.Bytes(), 0x101) == Some(PesList(SoundFrames(seg.chunks)))
    ensures var units := Receive(seg.Bytes(), 0x100);
            units.Some? && EachExact(units.value, Videos(seg.taken))
  {
    hide Receive, RunPackets, FramesOn, EachExact, Batches, OpsOf, PesList, SoundFrames;
    FramesOfChunks(seg.chunks);
    TablesSilent(OpsOf(seg.chunks), 0x100);
    TablesSilent(OpsOf(seg.chunks), 0x101);
    ReceiveRun(seg.start, seg.Ops(), 0x100);
    AudioReceived(seg.start, seg.Ops());
  }

  lemma {:induction false} OpsOfFirst(cs: seq<Chunk>)
    requires cs != []
    ensures OpsOf(cs) != [] && OpsOf(cs)[0] == OpOf(cs[0])
  {
    if |cs| > 1 {
      OpsOfFirst(cs[..|cs| - 1]);
    }
  }

  /** The packets of a segment: two tables, its key frame, and the rest. */
  lemma SegmentShape(seg: Segment, pending: seq<Accepted>) returns (rest: seq<seq<byte>>)
    requires Whole(seg, pending)
    ensures var c := seg.start;
            RunPackets(c, seg.Ops())
            == [Octets(PatPacket(NextCc(c.pat) as bv8))] + ([Octets(PmtPacket(Program(true, false), NextCc(c.pmt) as bv8))]
               + (FramePackets(seg.taken[0].f, c.video) + rest))
  {
    hide PatPacket, PmtPacket, FramePackets, OpsOf, Batches, Octets, RunPackets;
    var c := seg.start;
    OpsOfFirst(seg.chunks);
    KeyIsVideo(seg, pending);
    var key, more := OpOf(seg.chunks[0]), OpsOf(seg.chunks)[1..];
    assert seg.Ops() == [TABLES[0]] + ([TABLES[1]] + ([key] + more));
    var c1 := Advance(c, TABLES[0]);
    var c2 := Advance(c1, TABLES[1]);
    RunCons(c, TABLES[0], [TABLES[1]] + ([key] + more));
    RunCons(c1, TABLES[1], [key] + more);
    RunCons(c2, key, more);
    rest := RunPackets(Advance(c2, key), more);
  }

  /** A segment is a whole number of packets: the two tables, then those of its key frame. */
  lemma SegmentStarts(seg: Segment, pending: seq<Accepted>)
    requires Whole(seg, pending)
    ensures |seg.Bytes()| % PACKET_LEN == 0
    ensures var c := seg.start;
            var head := [Octets(PatPacket(NextCc(c.pat) as bv8)), Octets(PmtPacket(Program(true, false), NextCc(c.pmt) as bv8))];
            && TsStream.Cut(seg.Bytes()).Some?
            && head + FramePackets(seg.taken[0].f, c.video) <= TsStream.Cut(seg.Bytes()).value
  {
    hide IsPacket, PatPacket, PmtPacket, FramePackets, Octets, RunPackets, Segment.Ops, TsStream.Cut, Batches, Batch;
    var rest := SegmentShape(seg, pending);
    var c := seg.start;
    Continuity(c, seg.Ops(), VIDEO_PID);
    assert |seg.Bytes()| % PACKET_LEN == 0 by { FlattenLength(RunPackets(c, seg.Ops())); }
    CutFlatten(RunPackets(c, seg.Ops()));
    Grouped([Octets(PatPacket(NextCc(c.pat) as bv8))],
            [Octets(PmtPacket(Program(true, false), NextCc(c.pmt) as bv8))], FramePackets(seg.taken[0].f, c.video), rest);
  }

  lemma KeyIsVideo(seg: Segment, pending: seq<Accepted>)
    requires Whole(seg, pending)
    ensures seg.taken[0].f.isVideo
  {
    hide Batch;
    assert Batches(seg.chunks);
    assert seg.chunks[0].Pic?;
  }

  lemma Grouped<T>(a: seq<T>, b: seq<T>, c: seq<T>, d: seq<T>)
    requires |a| == |b| == 1
    ensures [a[0], b[0]] + c <= a + (b + (c + d))
  {
    assert a + (b + (c + d)) == [a[0], b[0]] + c + d;
  }

  // ---- All segments ------------------------------------------------------

  function VideosOf(items: seq<Item>): seq<Frame> {
    if items == [] then [] else VideosOf(items[..|items| - 1]) + Pics(items[|items| - 1].segment.chunks)
  }

  function SoundsOf(items: seq<Item>): seq<Accepted> {
    if items == [] then [] else SoundsOf(items[..|items| - 1]) + Sounds(items[|items| - 1].segment.chunks)
  }

  /** Everything muxed into these segments. */
  function AllChunks(items: seq<Item>): seq<Chunk> {
    if items == [] then [] else AllChunks(items[..|items| - 1]) + items[|items| - 1].segment.chunks
  }

  lemma {:induction false} ChunksConcat(a: seq<Chunk>, b: seq<Chunk>)
    ensures Sounds(a + b) == Sounds(a) + Sounds(b) && Pics(a + b) == Pics(a) + Pics(b)
    decreases |b|
  {
    if b == [] {
      assert a + b == a;
      assert Sounds(a) + [] == Sounds(a) && Pics(a) + [] == Pics(a);
    } else {
      var init, c := b[..|b| - 1], b[|b| - 1];
      ChunksConcat(a, init);
      assert b == init + [c];
      Assoc(a, init, [c]);
      ChunkSnoc(a + init, c);
      ChunkSnoc(init, c);
      hide Sounds, Pics;
      Assoc(Sounds(a), Sounds(init), if c.Sound? then c.frames else []);
      Assoc(Pics(a), Pics(init), if c.Pic? then [c.f] else []);
    }
  }

  lemma {:induction false} SoundsOfAll(items: seq<Item>)
    ensures Sounds(AllChunks(items)) == SoundsOf(items)
  {
    if items != [] {
      SoundsOfAll(items[..|items| - 1]);
      ChunksConcat(AllChunks(items[..|items| - 1]), items[|items| - 1].segment.chunks);
    }
  }

  lemma {:induction false} BatchesOfAll(items: seq<Item>)
    requires Stored(items)
    ensures Batches(AllChunks(items))
  {
    hide Batch;
    if items != [] {
      BatchesOfAll(items[..|items| - 1]);
      assert Whole(items[|items| - 1].segment, []);
    }
  }

  lemma {:induction false} SplitConcat(a: seq<Accepted>, b: seq<Accepted>)
    ensures Videos(a + b) == Videos(a) + Videos(b) && Audios(a + b) == Audios(a) + Audios(b)
    decreases |b|
  {
    if b == [] {
      assert a + b == a;
      assert Videos(a) + [] == Videos(a) && Audios(a) + [] == Audios(a);
    } else {
      var init, c := b[..|b| - 1], b[|b| - 1];
      SplitConcat(a, init);
      assert b == init + [c];
      Assoc(a, init, [c]);
      Snoc(a + init, c);
      Snoc(init, c);
      hide Videos, Audios;
      Assoc(Videos(a), Videos(init), if c.Video? then [c.f] else []);
      Assoc(Audios(a), Audios(init), if c.Audio? then [c] else []);
    }
  }

  lemma {:induction false} StoredHolds(items: seq<Item>)
    requires Stored(items)
    ensures VideosOf(items) == Videos(AllTaken(items)) && SoundsOf(items) == Audios(AllTaken(items))
  {
    hide Batches;
    if items != [] {
      var init, last := items[..|items| - 1], items[|items| - 1];
      StoredHolds(init);
      SplitConcat(AllTaken(init), last.segment.taken);
      assert Whole(last.segment, []);
      assert Sounds(last.segment.chunks) + [] == Sounds(last.segment.chunks);
    }
  }

  /**
   Conservation: the stored segments and the open one hold every video frame
   accepted from the first key frame on, and every such audio frame but the at
   most five that are pending, in order.
   */
  lemma Conservation(acc: seq<Accepted>)
    requires AllValid(acc)
    ensures var st := Run(acc);
            && VideosOf(st.items) + Pics(st.segment.chunks) == Videos(FromKey(acc))
            && SoundsOf(st.items) + Sounds(st.segment.chunks) + st.pending == Audios(FromKey(acc))
            && |st.pending| < MAX_FRAMES
  {
    hide Run, Batch, Batches, FromKey, Stored, AllTaken, Chained;
    Segments(acc);
    var st := Run(acc);
    StoredHolds(st.items);
    SplitConcat(AllTaken(st.items), st.segment.taken);
    Assoc(SoundsOf(st.items), Sounds(st.segment.chunks), st.pending);
    if !st.started {
      assert Audios(AllTaken(st.items)) + [] == Audios(AllTaken(st.items));
    }
  }

  // ---- The stream of all segments ----------------------------------------

  function AllOps(items: seq<Item>): seq<Op> {
    if items == [] then [] else AllOps(items[..|items| - 1]) + items[|items| - 1].segment.Ops()
  }

  function AllBytes(items: seq<Item>): seq<byte>
    requires forall i | 0 <= i < |items| :: items[i].segment.start.Valid()
  {
    if items == [] then [] else AllBytes(items[..|items| - 1]) + items[|items| - 1].segment.Bytes()
  }

  /**
   Played one after another the segments are one transport stream, whose counters
   never jump: the first table packets have 0, the first packets of a frame 1.
   */
  lemma {:induction false} OneStream(items: seq<Item>, next: Counters)
    requires Chained(items, next) && forall i | 0 <= i < |items| :: items[i].segment.start.Valid()
    ensures var c := Counters(0, 0, 15, 15);
            && next == AdvanceAll(c, AllOps(items))
            && AllBytes(items) == Flatten(RunPackets(c, AllOps(items)))
  {
    hide RunPackets, AdvanceAll, Segment.Ops;
    var c := Fresh().segment.start;
    if items == [] {
      NoRun(c);
    } else {
      var init, seg := items[..|items| - 1], items[|items| - 1].segment;
      OneStream(init, seg.start);
      RunConcat(c, AllOps(init), seg.Ops());
      FlattenConcat(RunPackets(c, AllOps(init)), RunPackets(seg.start, seg.Ops()));
    }
  }

  lemma NoRun(c: Counters)
    requires c.Valid()
    ensures AdvanceAll(c, []) == c && RunPackets(c, []) == []
  {
  }
}
