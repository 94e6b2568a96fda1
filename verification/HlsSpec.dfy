/**
 Cutting a stream into HLS segments, on values: key frames open segments, audio
 goes out in batches, and nothing the parsers accepted is lost, repeated or
 moved to another segment.
 */
module HlsSpec {
  import opened Bytes
  import opened TsSpec
  import opened TsStream
  import opened Psi

  const SEGMENT_MS := 3000
  const MAX_FRAMES := 6
  const VIDEO_HZ := 90000
  const AAC_SAMPLES := 1024
  /** Two milliseconds of the 90 kHz clock. */
  const SYNC := 180

  /** What the parsers accepted: an access unit in Annex B, or an audio frame behind its header. */
  datatype Accepted = Video(f: Frame) | Audio(ts: nat, rate: nat, data: seq<byte>)
  {
    function Time(): nat { if Video? then f.timestamp else ts }

    predicate Opens() { Video? && f.isKey }

    predicate Valid() { if Video? then f.isVideo else rate > 0 }
  }

  // ---- The audio clock ---------------------------------------------------

  datatype Align = Align(frameNum: nat, frameBase: nat)

  /** `align.align`: the clock stays with its own estimate as long as that is close enough. */
  function Aligned(a: Align, dts: nat, inc: nat): (Align, nat) {
    var est := a.frameBase + a.frameNum * inc;
    if (if est >= dts then est - dts else dts - est) <= SYNC then (a.(frameNum := a.frameNum + 1), est)
    else (Align(1, dts), dts)
  }

  predicate Near(pts: nat, ts: nat) {
    ts * H264_HZ - SYNC <= pts <= ts * H264_HZ + SYNC
  }

  lemma AlignedNear(a: Align, ts: nat, inc: nat)
    ensures Near(Aligned(a, ts * H264_HZ, inc).1, ts)
  {
  }

  // ---- Segments ----------------------------------------------------------

  /** One call of the muxer: a picture, or a batch of audio frames under the time of the first. */
  datatype Chunk = Pic(f: Frame) | Sound(pts: nat, frames: seq<Accepted>)

  function Data(frames: seq<Accepted>): seq<byte> {
    if frames == [] then []
    else Data(frames[..|frames| - 1]) + (if frames[|frames| - 1].Audio? then frames[|frames| - 1].data else [])
  }

  /** Audio bytes as the muxer takes them: the clock becomes a time stamp in milliseconds again. */
  function AudioFrame(pts: nat, data: seq<byte>): Frame {
    Frame(false, false, pts / H264_HZ % 0x1_0000_0000, 0, data)
  }

  function SoundFrame(pts: nat, frames: seq<Accepted>): Frame {
    AudioFrame(pts, Data(frames))
  }

  function OpOf(c: Chunk): Op {
    match c
    case Pic(f) => MuxOp(f)
    case Sound(pts, frames) => MuxOp(SoundFrame(pts, frames))
  }

  function OpsOf(cs: seq<Chunk>): (r: seq<Op>)
    ensures |r| == |cs|
  {
    if cs == [] then [] else OpsOf(cs[..|cs| - 1]) + [OpOf(cs[|cs| - 1])]
  }

  const TABLES: seq<Op> := [PatOp, PmtOp(Program(true, false))]

  /** A segment: the counters it starts with, what was muxed, and what was accepted for it. */
  datatype Segment = Segment(start: Counters, chunks: seq<Chunk>, taken: seq<Accepted>)
  {
    function Ops(): seq<Op> { TABLES + OpsOf(chunks) }

    function Bytes(): seq<byte>
      requires start.Valid()
    {
      Flatten(RunPackets(start, Ops()))
    }

    function End(): Counters
      requires start.Valid()
    {
      AdvanceAll(start, Ops())
    }
  }

  datatype Item = Item(seqNum: nat, duration: int, segment: Segment)

  datatype State = State(
    started: bool, segment: Segment, pending: seq<Accepted>, pendingPts: nat, align: Align,
    timed: bool, first: nat, last: nat, items: seq<Item>)
  {
    ghost predicate Valid() { segment.start.Valid() }
  }

  function Fresh(): State {
    State(false, Segment(Counters(0, 0, 15, 15), [], []), [], 0, Align(0, 0), false, 0, 0, [])
  }

  /** `muxAudio(1)`. */
  function Flush(st: State): State {
    if st.pending == [] then st
    else st.(segment := st.segment.(chunks := st.segment.chunks + [Sound(st.pendingPts, st.pending)]), pending := [])
  }

  /** Stores the segment and starts the next one. */
  function Close(st: State): (r: State)
    requires st.Valid()
    ensures r.Valid()
  {
    st.(items := st.items + [Item(|st.items| + 1, st.last - st.first, st.segment)],
        segment := Segment(st.segment.End(), [], []), timed := false)
  }

  /** `cut`. */
  function CutHere(st: State): (r: State)
    requires st.Valid()
    ensures r.Valid()
  {
    if !st.started then st.(started := true)
    else if st.last - st.first >= SEGMENT_MS then
      Close(Flush(st))
    else st
  }

  /** `status.update`. */
  function Touch(st: State, ts: nat): State {
    st.(timed := true, first := if st.timed then st.first else ts, last := ts)
  }

  /** `tsMux`. */
  function Put(st: State, a: Accepted): State
    requires a.Valid()
  {
    var seg := st.segment.(taken := st.segment.taken + [a]);
    match a
    case Video(f) => st.(segment := seg.(chunks := seg.chunks + [Pic(f)]))
    case Audio(ts, rate, data) =>
      var (align, dts) := Aligned(st.align, ts * H264_HZ, VIDEO_HZ * AAC_SAMPLES / rate);
      var s := st.(segment := seg, align := align, pending := st.pending + [a],
                   pendingPts := if st.pending == [] then dts else st.pendingPts);
      if |s.pending| >= MAX_FRAMES then Flush(s) else s
  }

  /** One accepted frame. */
  function Step(st: State, a: Accepted): (r: State)
    requires st.Valid() && a.Valid()
    ensures r.Valid()
  {
    var s := if a.Opens() then CutHere(st) else st;
    if s.started then Put(Touch(s, a.Time()), a) else s
  }

  ghost predicate AllValid(acc: seq<Accepted>) {
    forall i | 0 <= i < |acc| :: acc[i].Valid()
  }

  function Run(acc: seq<Accepted>): (r: State)
    requires AllValid(acc)
    ensures r.Valid()
  {
    if acc == [] then Fresh() else Step(Run(acc[..|acc| - 1]), acc[|acc| - 1])
  }

  // ---- What every run keeps ----------------------------------------------

  function Videos(acc: seq<Accepted>): seq<Frame> {
    if acc == [] then []
    else Videos(acc[..|acc| - 1]) + (if acc[|acc| - 1].Video? then [acc[|acc| - 1].f] else [])
  }

  function Audios(acc: seq<Accepted>): seq<Accepted> {
    if acc == [] then []
    else Audios(acc[..|acc| - 1]) + (if acc[|acc| - 1].Audio? then [acc[|acc| - 1]] else [])
  }

  function Pics(cs: seq<Chunk>): seq<Frame> {
    if cs == [] then []
    else Pics(cs[..|cs| - 1]) + (if cs[|cs| - 1].Pic? then [cs[|cs| - 1].f] else [])
  }

  function Sounds(cs: seq<Chunk>): seq<Accepted> {
    if cs == [] then []
    else Sounds(cs[..|cs| - 1]) + (if cs[|cs| - 1].Sound? then cs[|cs| - 1].frames else [])
  }

  /** A batch: one to six audio frames, at the time of the first but for two milliseconds. */
  ghost predicate Batch(pts: nat, frames: seq<Accepted>) {
    && 1 <= |frames| <= MAX_FRAMES && (forall i | 0 <= i < |frames| :: frames[i].Audio?)
    && Near(pts, frames[0].Time())
  }

  /** Pictures and batches, and nothing else. */
  ghost predicate Batches(cs: seq<Chunk>) {
    forall i | 0 <= i < |cs| :: if cs[i].Pic? then cs[i].f.isVideo else Batch(cs[i].pts, cs[i].frames)
  }

  /**
   A segment opens with the key frame it was cut at; its pictures, and its
   batches together with what is still pending, are exactly what was accepted.
   */
  ghost predicate Whole(seg: Segment, pending: seq<Accepted>) {
    && seg.start.Valid()
    && seg.taken != [] && seg.taken[0].Opens()
    && seg.chunks != [] && seg.chunks[0] == Pic(seg.taken[0].f)
    && Pics(seg.chunks) == Videos(seg.taken)
    && Sounds(seg.chunks) + pending == Audios(seg.taken)
    && Batches(seg.chunks)
  }

  ghost predicate Stored(items: seq<Item>) {
    forall i | 0 <= i < |items| ::
      var item := items[i];
      && item.seqNum == i + 1
      && Whole(item.segment, [])
      && item.duration == item.segment.taken[|item.segment.taken| - 1].Time() - item.segment.taken[0].Time()
      && item.duration >= SEGMENT_MS
  }

  /** Each segment's counters go on where those of the one before it ended. */
  ghost predicate Chained(items: seq<Item>, next: Counters) {
    if items == [] then next == Fresh().segment.start
    else
      var seg := items[|items| - 1].segment;
      seg.start.Valid() && next == seg.End() && Chained(items[..|items| - 1], seg.start)
  }

  function AllTaken(items: seq<Item>): seq<Accepted> {
    if items == [] then [] else AllTaken(items[..|items| - 1]) + items[|items| - 1].segment.taken
  }

  /** The accepted frames from the first key frame on. */
  function FromKey(acc: seq<Accepted>): seq<Accepted> {
    if acc == [] then []
    else
      var before, a := FromKey(acc[..|acc| - 1]), acc[|acc| - 1];
      if before != [] || a.Opens() then before + [a] else []
  }

  ghost predicate Running(st: State) {
    && Whole(st.segment, st.pending)
    && |st.pending| < MAX_FRAMES
    && (st.pending != [] ==> Batch(st.pendingPts, st.pending))
    && st.timed && st.first == st.segment.taken[0].Time()
    && st.last == st.segment.taken[|st.segment.taken| - 1].Time()
  }

  ghost predicate Good(st: State, from: seq<Accepted>) {
    && st.Valid() && Stored(st.items) && Chained(st.items, st.segment.start)
    && AllTaken(st.items) + st.segment.taken == from
    && (if st.started then Running(st) else st == Fresh())
  }

  // ---- Proofs ------------------------------------------------------------

  lemma Snoc(acc: seq<Accepted>, a: Accepted)
    ensures Videos(acc + [a]) == Videos(acc) + if a.Video? then [a.f] else []
    ensures Audios(acc + [a]) == Audios(acc) + if a.Audio? then [a] else []
  {
    assert (acc + [a])[..|acc + [a]| - 1] == acc;
  }

  lemma ChunkSnoc(cs: seq<Chunk>, c: Chunk)
    ensures Pics(cs + [c]) == Pics(cs) + if c.Pic? then [c.f] else []
    ensures Sounds(cs + [c]) == Sounds(cs) + if c.Sound? then c.frames else []
    ensures Batches(cs) && (if c.Pic? then c.f.isVideo else Batch(c.pts, c.frames)) ==> Batches(cs + [c])
  {
    hide Batch;
    assert (cs + [c])[..|cs + [c]| - 1] == cs;
  }

  lemma PutVideo(st: State, f: Frame)
    requires st.Valid() && f.isVideo
    requires if st.segment.taken == [] then f.isKey && st.segment.chunks == [] && st.pending == [] else Whole(st.segment, st.pending)
    ensures var r := Put(st, Video(f)); Whole(r.segment, r.pending) && r.pending == st.pending
  {
    hide Batch, Batches;
    Snoc(st.segment.taken, Video(f));
    ChunkSnoc(st.segment.chunks, Pic(f));
    assert Batches([]) by { NoBatches(); }
  }

  lemma NoBatches()
    ensures Batches([])
  {
  }

  lemma FlushWhole(st: State)
    requires Whole(st.segment, st.pending) && (st.pending != [] ==> Batch(st.pendingPts, st.pending))
    ensures Whole(Flush(st).segment, []) && Flush(st).pending == []
  {
    hide Batch, Batches;
    ChunkSnoc(st.segment.chunks, Sound(st.pendingPts, st.pending));
    var all := Sounds(st.segment.chunks) + st.pending;
    assert all + [] == all;
  }

  lemma FlushKeeps(st: State)
    ensures var r := Flush(st);
            && r.segment.taken == st.segment.taken && r.segment.start == st.segment.start
            && r.items == st.items && r.started == st.started && r.first == st.first && r.last == st.last
  {
  }

  lemma PutAudio(st: State, a: Accepted)
    requires a.Valid() && a.Audio? && Whole(st.segment, st.pending) && |st.pending| < MAX_FRAMES
    requires st.pending != [] ==> Batch(st.pendingPts, st.pending)
    ensures var r := Put(st, a);
            && Whole(r.segment, r.pending) && |r.pending| < MAX_FRAMES
            && (r.pending != [] ==> Batch(r.pendingPts, r.pending))
  {
    hide Batches;
    var inc := VIDEO_HZ * AAC_SAMPLES / a.rate;
    AlignedNear(st.align, a.ts, inc);
    Snoc(st.segment.taken, a);
    var (align, dts) := Aligned(st.align, a.ts * H264_HZ, inc);
    var s := st.(segment := st.segment.(taken := st.segment.taken + [a]), align := align, pending := st.pending + [a],
                 pendingPts := if st.pending == [] then dts else st.pendingPts);
    assert Sounds(st.segment.chunks) + (st.pending + [a]) == Sounds(st.segment.chunks) + st.pending + [a];
    assert Whole(s.segment, s.pending);
    BatchGrows(st.pending, st.pendingPts, a, dts);
    FlushWhole(s);
  }

  /** A frame starts a batch, or goes on with one that has room. */
  lemma BatchGrows(frames: seq<Accepted>, pts: nat, a: Accepted, dts: nat)
    requires a.Audio? && |frames| < MAX_FRAMES
    requires if frames == [] then Near(dts, a.Time()) else Batch(pts, frames)
    ensures Batch(if frames == [] then dts else pts, frames + [a])
  {
    hide Near;
  }

  lemma StoredSnoc(items: seq<Item>, item: Item)
    requires Stored(items) && item.seqNum == |items| + 1 && Whole(item.segment, [])
    requires item.duration == item.segment.taken[|item.segment.taken| - 1].Time() - item.segment.taken[0].Time() >= SEGMENT_MS
    ensures Stored(items + [item])
    ensures AllTaken(items + [item]) == AllTaken(items) + item.segment.taken
  {
    hide Whole, AllTaken;
    var all := items + [item];
    TakenSnoc(items, item);
    forall i | 0 <= i < |all|
      ensures all[i] == if i < |items| then items[i] else item
    {
    }
  }

  lemma TakenSnoc(items: seq<Item>, item: Item)
    ensures AllTaken(items + [item]) == AllTaken(items) + item.segment.taken
  {
    assert (items + [item])[..|items + [item]| - 1] == items;
  }

  lemma PutKeeps(st: State, a: Accepted)
    requires a.Valid()
    ensures var r := Put(st, a);
            && r.segment.taken == st.segment.taken + [a] && r.segment.start == st.segment.start
            && r.items == st.items && r.started == st.started
            && r.timed == st.timed && r.first == st.first && r.last == st.last
  {
  }

  lemma WholeOpens(seg: Segment, pending: seq<Accepted>)
    requires Whole(seg, pending)
    ensures seg.taken != [] && seg.taken[0].Opens() && seg.start.Valid()
  {
  }

  /** A frame put into the current segment. */
  lemma PutGood(st: State, from: seq<Accepted>, a: Accepted)
    requires a.Valid() && st.started && Good(st, from)
    ensures Good(Put(Touch(st, a.Time()), a), from + [a])
  {
    var t := Touch(st, a.Time());
    WholeOpens(st.segment, st.pending);
    hide Stored, Chained, AllTaken, Batch, Whole, Put;
    PutKeeps(t, a);
    if a.Video? {
      PutVideo(t, a.f);
    } else {
      PutAudio(t, a);
    }
    Assoc(AllTaken(st.items), st.segment.taken, [a]);
  }

  /** A key frame put into a segment it has just opened. */
  lemma OpenGood(st: State, from: seq<Accepted>, a: Accepted)
    requires a.Valid() && a.Opens() && Between(st, from)
    ensures Good(Put(Touch(st, a.Time()), a), from + [a])
  {
    hide Stored, Chained, AllTaken, Batch, Whole, Put;
    PutKeeps(Touch(st, a.Time()), a);
    PutVideo(Touch(st, a.Time()), a.f);
    assert [] + [a] == [a];
  }

  /** Everything is stored, and the next segment is yet to open. */
  ghost predicate Between(st: State, from: seq<Accepted>) {
    && st.started && st.Valid() && !st.timed
    && st.segment.chunks == [] && st.segment.taken == [] && st.pending == []
    && Stored(st.items) && Chained(st.items, st.segment.start) && AllTaken(st.items) == from
  }

  lemma CloseGood(st: State, from: seq<Accepted>)
    requires st.started && st.Valid() && st.pending == [] && Whole(st.segment, [])
    requires Stored(st.items) && Chained(st.items, st.segment.start) && AllTaken(st.items) + st.segment.taken == from
    requires st.segment.taken != [] && st.first == st.segment.taken[0].Time()
    requires st.last == st.segment.taken[|st.segment.taken| - 1].Time() && st.last - st.first >= SEGMENT_MS
    ensures Between(Close(st), from)
  {
    hide Stored, AllTaken, Whole, Chained, Segment.End, Segment.Ops;
    var item := Item(|st.items| + 1, st.last - st.first, st.segment);
    StoredSnoc(st.items, item);
    ChainedSnoc(st.items, item);
  }

  lemma CutGood(st: State, from: seq<Accepted>)
    requires st.started && Good(st, from) && st.last - st.first >= SEGMENT_MS
    ensures Between(CutHere(st), from)
  {
    hide Stored, AllTaken, Chained, Flush, Close, Whole, Between, Batch;
    FlushWhole(st);
    FlushKeeps(st);
    WholeOpens(st.segment, st.pending);
    CloseGood(Flush(st), from);
  }

  lemma ChainedSnoc(items: seq<Item>, item: Item)
    requires item.segment.start.Valid() && Chained(items, item.segment.start)
    ensures Chained(items + [item], item.segment.End())
  {
    assert (items + [item])[..|items + [item]| - 1] == items;
  }

  lemma StepGood(st: State, from: seq<Accepted>, a: Accepted)
    requires a.Valid() && Good(st, from)
    ensures Good(Step(st, a), if st.started || a.Opens() then from + [a] else from)
  {
    assert st.Valid();
    hide Good, Put, Touch, Between;
    if !st.started {
      FreshGood(st, from);
      if a.Opens() { OpenGood(CutHere(st), from, a); }
    } else if a.Opens() && st.last - st.first >= SEGMENT_MS {
      CutGood(st, from);
      OpenGood(CutHere(st), from, a);
    } else {
      PutGood(st, from, a);
    }
  }

  lemma FreshGood(st: State, from: seq<Accepted>)
    requires Good(st, from) && !st.started
    ensures st == Fresh() && from == [] && Between(CutHere(st), from)
  {
  }

  lemma {:induction false} StartedIff(acc: seq<Accepted>)
    requires AllValid(acc)
    ensures Run(acc).started <==> FromKey(acc) != []
  {
    hide Put, CutHere;
    if acc != [] {
      StartedIff(acc[..|acc| - 1]);
      StartedStep(Run(acc[..|acc| - 1]), acc[|acc| - 1]);
    }
  }

  lemma StartedStep(st: State, a: Accepted)
    requires st.Valid() && a.Valid()
    ensures Step(st, a).started == (st.started || a.Opens())
  {
  }

  /**
   Over every run: each stored segment opens with the key frame it was cut at,
   lasts at least three seconds, and holds exactly the frames accepted while it
   was open, each once and in order, audio in batches of at most six; together
   with the open segment and at most five pending audio frames that is
   everything accepted from the first key frame on.
   */
  lemma {:induction false} Segments(acc: seq<Accepted>)
    requires AllValid(acc)
    ensures Good(Run(acc), FromKey(acc))
  {
    hide Good, Step;
    if acc == [] {
      FreshIsGood();
    } else {
      var init := acc[..|acc| - 1];
      Segments(init);
      StartedIff(init);
      StepGood(Run(init), FromKey(init), acc[|acc| - 1]);
    }
  }

  lemma FreshIsGood()
    ensures Good(Fresh(), [])
  {
  }

  // ---- Where a segment is cut, and how its audio is batched --------------

  /** Every batch has six frames. */
  ghost predicate Full(cs: seq<Chunk>) {
    forall c <- cs :: c.Sound? ==> |c.frames| == 6
  }

  /** Every batch has six frames, but what is muxed last may be a smaller one. */
  ghost predicate Filled(cs: seq<Chunk>) {
    cs != [] && Full(cs[..|cs| - 1])
  }

  /** No key frame of a segment came when the frames before it had lasted three seconds. */
  ghost predicate OneCut(taken: seq<Accepted>) {
    forall m | 0 < m < |taken| :: taken[m].Opens() ==> taken[m - 1].Time() - taken[0].Time() < 3000
  }

  ghost predicate Regular(st: State) {
    && Full(st.segment.chunks) && OneCut(st.segment.taken)
    && forall i | 0 <= i < |st.items| :: Filled(st.items[i].segment.chunks) && OneCut(st.items[i].segment.taken)
  }

  lemma CutRegular(st: State)
    requires st.Valid() && Regular(st) && (st.started ==> Running(st))
    ensures Regular(CutHere(st))
  {
    hide Whole, Batch, Segment.End, OneCut, Full;
    if st.started && st.last - st.first >= SEGMENT_MS {
      var s := Flush(st);
      FlushFilled(st);
      assert Close(s).items[..|st.items|] == st.items;
      NothingRegular();
    }
  }

  lemma FlushFilled(st: State)
    requires Running(st) && Full(st.segment.chunks)
    ensures Filled(Flush(st).segment.chunks)
  {
    hide Batch, Full;
    var cs := st.segment.chunks;
    if st.pending == [] {
      FullFront(cs);
    } else {
      assert (cs + [Sound(st.pendingPts, st.pending)])[..|cs|] == cs;
    }
  }

  lemma FullFront(cs: seq<Chunk>)
    requires cs != [] && Full(cs)
    ensures Full(cs[..|cs| - 1])
  {
  }

  lemma NothingRegular()
    ensures Full([]) && OneCut([])
  {
  }

  lemma FullSnoc(cs: seq<Chunk>, c: Chunk)
    requires Full(cs) && (c.Sound? ==> |c.frames| == 6)
    ensures Full(cs + [c])
  {
  }

  lemma OneCutSnoc(taken: seq<Accepted>, a: Accepted)
    requires OneCut(taken)
    requires taken != [] && a.Opens() ==> taken[|taken| - 1].Time() - taken[0].Time() < 3000
    ensures OneCut(taken + [a])
  {
    var all := taken + [a];
    forall m | 0 < m < |all| && all[m].Opens()
      ensures all[m - 1].Time() - all[0].Time() < 3000
    {
      if m < |taken| { assert taken[m] == all[m]; }
    }
  }

  lemma PutRegular(st: State, a: Accepted)
    requires a.Valid() && Regular(st) && |st.pending| < MAX_FRAMES
    requires st.segment.taken != [] && a.Opens() ==>
               st.segment.taken[|st.segment.taken| - 1].Time() - st.segment.taken[0].Time() < 3000
    ensures Regular(Put(st, a))
  {
    hide Full, OneCut, Filled;
    OneCutSnoc(st.segment.taken, a);
    if a.Video? {
      FullSnoc(st.segment.chunks, Pic(a.f));
    } else if |st.pending| == MAX_FRAMES - 1 {
      var (align, dts) := Aligned(st.align, a.ts * H264_HZ, VIDEO_HZ * AAC_SAMPLES / a.rate);
      FullSnoc(st.segment.chunks, Sound(if st.pending == [] then dts else st.pendingPts, st.pending + [a]));
    }
  }

  lemma StepRegular(st: State, from: seq<Accepted>, a: Accepted)
    requires a.Valid() && Good(st, from) && Regular(st)
    ensures Regular(Step(st, a))
  {
    hide Put, Stored, Chained, Whole, Batch, Regular, Segment.End;
    var s := if a.Opens() then CutHere(st) else st;
    if a.Opens() { CutRegular(st); }
    if s.started {
      PutRegular(Touch(s, a.Time()), a) by { TouchRegular(s, a.Time()); }
    }
  }

  lemma TouchRegular(st: State, ts: nat)
    requires Regular(st)
    ensures Regular(Touch(st, ts))
  {
  }

  /**
   Over every run: a segment is cut at the first key frame that comes when its
   frames have lasted three seconds, and at no other; and every batch has six
   frames, but for the last of a stored segment, behind which nothing is muxed.
   */
  lemma {:induction false} Pace(acc: seq<Accepted>)
    requires AllValid(acc)
    ensures Regular(Run(acc))
  {
    hide Good, Step, Regular;
    if acc == [] {
      FreshRegular();
    } else {
      var init := acc[..|acc| - 1];
      Pace(init);
      Segments(init);
      StepRegular(Run(init), FromKey(init), acc[|acc| - 1]);
    }
  }

  lemma FreshRegular()
    ensures Regular(Fresh())
  {
  }
}
