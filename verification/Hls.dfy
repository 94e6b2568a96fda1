/** The segmenter with its state in place. */
module Hls {
  import opened Bytes
  import opened Buffers
  import opened TsSpec
  import opened TsStream
  import opened Psi
  import opened Muxers
  import opened HlsMux
  import opened HlsSpec
  import opened HlsParse
  import HlsCache
  import H264Spec
  import Aac

  class Status {
    var hasSetFirstTs: bool
    var firstTimestamp: int
    var lastTimestamp: int

    constructor ()
      ensures !hasSetFirstTs && firstTimestamp == lastTimestamp == 0
    {
      hasSetFirstTs, firstTimestamp, lastTimestamp := false, 0, 0;
    }

    method Update(timestamp: nat)
      modifies this
      ensures hasSetFirstTs && lastTimestamp == timestamp
      ensures firstTimestamp == if old(hasSetFirstTs) then old(firstTimestamp) else timestamp
    {
      if !hasSetFirstTs {
        hasSetFirstTs, firstTimestamp := true, timestamp;
      }
      lastTimestamp := timestamp;
    }

    method ResetAndNew()
      modifies this
      ensures !hasSetFirstTs && firstTimestamp == old(firstTimestamp) && lastTimestamp == old(lastTimestamp)
    {
      hasSetFirstTs := false;
    }

    function DurationMs(): int
      reads this
    {
      lastTimestamp - firstTimestamp
    }
  }

  class Clock {
    var frameNum: nat
    var frameBase: nat

    constructor ()
      ensures Contents() == Align(0, 0)
    {
      frameNum, frameBase := 0, 0;
    }

    function Contents(): Align
      reads this
    {
      Align(frameNum, frameBase)
    }

    /** `align.align`. */
    method Sync(dts: nat, inc: nat) returns (aligned: nat)
      modifies this
      ensures (Contents(), aligned) == Aligned(old(Contents()), dts, inc)
    {
      var estPts := frameBase + frameNum * inc;
      var dPts := if estPts >= dts then estPts - dts else dts - estPts;
      if dPts <= SYNC {
        frameNum := frameNum + 1;
        return estPts;
      }
      frameNum, frameBase := 1, dts;
      aligned := dts;
    }
  }

  class AudioCache {
    var num: nat
    var offset: nat
    var pts: nat
    const buf: Buffer

    constructor ()
      ensures num == 0 && fresh(buf)
    {
      num, offset, pts := 0, 0, 0;
      buf := new Buffer();
    }

    /** The first frame of a batch sets its time, and drops the batch before. */
    method Cache(src: seq<byte>, pts: nat)
      modifies this, buf
      ensures num == old(num) + 1
      ensures this.pts == if old(num) == 0 then pts else old(this.pts)
      ensures buf.bytes == (if old(num) == 0 then [] else old(buf.bytes)) + src
      ensures offset == (if old(num) == 0 then 0 else old(offset)) + |src|
    {
      if num == 0 {
        offset := 0;
        this.pts := pts;
        buf.Reset();
      }
      buf.Write(src);
      offset := offset + |src|;
      num := num + 1;
    }

    method GetFrame() returns (offset: nat, pts: nat, data: seq<byte>)
      modifies this`num
      ensures num == 0 && offset == this.offset && pts == this.pts && data == buf.bytes
    {
      num := 0;
      offset, pts, data := this.offset, this.pts, buf.bytes;
    }
  }

  class Source {
    var seqNum: nat
    const bwriter: Buffer
    var btswriter: Buffer?
    const muxer: Muxer
    var pts: int
    var dts: nat
    const stat: Status
    const clock: Clock
    const cache: AudioCache
    const tsCache: HlsCache.TSCacheItem
    const tsparser: CodecParser

    ghost predicate Apart()
      reads this
    {
      bwriter != cache.buf && btswriter != bwriter && btswriter != cache.buf
    }

    /** The segmenter is in this state of the model. */
    ghost predicate At(st: State)
      reads this, stat, clock, cache, cache.buf, muxer, btswriter
    {
      && st.Valid() && muxer.Valid()
      && (btswriter != null <==> st.started)
      && (if btswriter != null then btswriter.bytes == st.segment.Bytes() else st.segment.chunks == [])
      && CountersOf(muxer) == (if st.started then st.segment.End() else st.segment.start)
      && InCache(st.pending, st.pendingPts)
      && clock.Contents() == st.align
      && stat.hasSetFirstTs == st.timed && stat.firstTimestamp == st.first && stat.lastTimestamp == st.last
      && seqNum == |st.items|
    }

    ghost predicate InCache(pending: seq<Accepted>, pendingPts: nat)
      reads this, cache, cache.buf
    {
      && cache.num == |pending|
      && (pending != [] ==> cache.buf.bytes == Data(pending) && cache.pts == pendingPts)
    }

    constructor ()
      ensures At(Fresh()) && Apart() && tsparser.Valid() && tsparser.Contents() == FRESH
      ensures tsCache.Valid() && tsCache.Contents() == HlsCache.Run([])
      ensures btswriter == null && fresh(bwriter) && fresh(muxer) && fresh(muxer.pat) && fresh(muxer.pmt)
      ensures fresh(muxer.tsPacket) && fresh(stat) && fresh(clock) && fresh(cache) && fresh(cache.buf)
      ensures fresh(tsCache) && fresh(tsparser.Footprint())
    {
      hide Segment.Bytes, Segment.End, Data, HlsCache.Run;
      seqNum, pts, dts := 0, 0, 0;
      bwriter := new Buffer();
      btswriter := null;
      muxer := new Muxer();
      stat := new Status();
      clock := new Clock();
      cache := new AudioCache();
      tsCache := new HlsCache.TSCacheItem();
      tsparser := new CodecParser();
    }

    /** Muxes one more chunk into the open segment. */
    method MuxChunk(f: Frame, ghost st: State, ghost c: Chunk)
      requires Apart() && At(st) && st.started && OpOf(c) == MuxOp(f)
      modifies muxer`videoCc, muxer`audioCc, muxer.tsPacket, btswriter
      ensures At(st.(segment := st.segment.(chunks := st.segment.chunks + [c])))
    {
      hide RunPackets, AdvanceAll, Flatten, OpPackets;
      ChunkBytes(st.segment, c);
      WriteFrame(muxer, f, btswriter);
    }

    /** Muxes the pending audio once there are `limit` frames of it. */
    method MuxAudio(limit: nat, ghost st: State)
      requires Apart() && At(st) && st.started && limit > 0
      modifies muxer`videoCc, muxer`audioCc, muxer.tsPacket, btswriter, cache`num
      ensures At(if |st.pending| < limit then st else Flush(st))
    {
      hide Segment.Bytes, Segment.End, Data;
      if cache.num < limit {
        return;
      }
      MuxChunk(AudioFrame(cache.pts, cache.buf.bytes), st, Sound(st.pendingPts, st.pending));
      var offset, pts, data := cache.GetFrame();
    }

    /** Starts a segment with its two tables. */
    method WriteTables(ghost st: State)
      requires Apart() && btswriter != null && btswriter.bytes == []
      requires st.started && st.Valid() && st.segment.chunks == [] && muxer.Valid() && CountersOf(muxer) == st.segment.start
      requires InCache(st.pending, st.pendingPts) && clock.Contents() == st.align && seqNum == |st.items|
      requires stat.hasSetFirstTs == st.timed && stat.firstTimestamp == st.first && stat.lastTimestamp == st.last
      modifies muxer`patCc, muxer`pmtCc, muxer.pat, muxer.pmt, btswriter
      ensures At(st)
    {
      hide OpPackets, Advance, Segment.Bytes, Segment.End, Data;
      TableBytes(st.segment);
      WritePat(muxer, btswriter);
      WritePmt(muxer, 10, true, btswriter);
    }

    /** At a key frame: opens the first segment, or stores one that has lasted long enough. */
    method Cut(name: HlsCache.Path, ghost st: State)
      requires Apart() && At(st) && tsCache.Valid()
      modifies this`btswriter, this`seqNum, muxer, muxer.pat, muxer.pmt, muxer.tsPacket, btswriter, cache`num, stat, tsCache
      ensures Apart() && At(CutHere(st)) && tsCache.Valid() && (btswriter == old(btswriter) || fresh(btswriter))
      ensures StoredBy(name, st, CutHere(st), old(tsCache.Contents()), tsCache.Contents())
    {
      hide Segment.Bytes, Segment.End, Data, HlsCache.Set, StoredBy, RunPackets, OpPackets, Flatten, AdvanceAll;
      StoresOne(name, st, tsCache.Contents());
      if btswriter == null {
        btswriter := new Buffer();
        WriteTables(CutHere(st));
      } else if stat.DurationMs() >= SEGMENT_MS {
        MuxAudio(1, st);
        seqNum := seqNum + 1;
        var item := HlsCache.TSItem(name, seqNum, stat.DurationMs(), btswriter.bytes);
        tsCache.SetItem(name, item);
        btswriter.Reset();
        stat.ResetAndNew();
        WriteTables(CutHere(st));
      }
    }

    /** The time of a frame on the 90 kHz clock; audio follows its own estimate. */
    method CalcPtsDts(isVideo: bool, ts: nat, composition: nat, ghost rate: nat)
      requires !isVideo ==> tsparser.Valid() && tsparser.aac != null && tsparser.Contents().Rate() == rate > 0
      modifies this`pts, this`dts, clock
      ensures isVideo ==> clock.Contents() == old(clock.Contents()) && dts == ts * H264_HZ && pts == dts + composition * H264_HZ
      ensures !isVideo ==> (clock.Contents(), dts) == Aligned(old(clock.Contents()), ts * H264_HZ, VIDEO_HZ * AAC_SAMPLES / rate)
      ensures !isVideo ==> pts == dts
    {
      dts := ts * H264_HZ;
      if isVideo {
        pts := dts + composition * H264_HZ;
      } else {
        var sampleRate := tsparser.SampleRate();
        dts := clock.Sync(dts, VIDEO_HZ * AAC_SAMPLES / sampleRate);
        pts := dts;
      }
    }

    /** Muxes a picture at once, and audio when six frames of it have come together. */
    method TsMux(a: Accepted, ghost st: State)
      requires Apart() && At(st) && st.started && |st.pending| < MAX_FRAMES
      requires a.Audio? ==> pts >= 0
      modifies muxer`videoCc, muxer`audioCc, muxer.tsPacket, btswriter, cache, cache.buf
      ensures At(Muxed(st, a, pts))
    {
      hide Segment.Bytes, Segment.End;
      if a.Video? {
        MuxChunk(a.f, st, Pic(a.f));
      } else {
        cache.Cache(a.data, pts);
        DataSnoc(st.pending, a);
        MuxAudio(MAX_FRAMES, Pending(st, a, pts));
      }
    }

    /** A frame for the open segment. */
    method Add(a: Accepted, composition: nat, ghost st: State)
      requires Apart() && At(st) && st.started && |st.pending| < MAX_FRAMES && a.Valid()
      requires a.Audio? ==> tsparser.Valid() && tsparser.aac != null && tsparser.Contents().Rate() == a.rate
      modifies this`pts, this`dts, muxer`videoCc, muxer`audioCc, muxer.tsPacket, stat, clock, cache, cache.buf, btswriter
      ensures Apart() && At(Put(Touch(st, a.Time()), a))
    {
      hide Segment.Bytes, Segment.End, Put, Aligned;
      ghost var s := Touch(st, a.Time());
      SameBytes(s.segment, s.segment.taken + [a]);
      PutIs(s, a);
      stat.Update(a.Time());
      CalcPtsDts(a.Video?, a.Time(), composition, if a.Video? then 1 else a.rate);
      TsMux(a, Prepared(s, a));
    }

    /** An accepted frame: the second half of `parse`, and what follows it. */
    method Handle(a: Accepted, name: HlsCache.Path, composition: nat, ghost st: State)
      requires Apart() && At(st) && |st.pending| < MAX_FRAMES && tsCache.Valid() && a.Valid() && tsparser.Valid()
      requires a.Audio? ==> tsparser.aac != null && tsparser.Contents().Rate() == a.rate
      modifies this, muxer, muxer.pat, muxer.pmt, muxer.tsPacket, stat, clock, cache, cache.buf, tsCache, btswriter
      ensures Apart() && tsCache.Valid() && At(Step(st, a)) && (btswriter == old(btswriter) || fresh(btswriter))
      ensures StoredBy(name, st, Step(st, a), old(tsCache.Contents()), tsCache.Contents())
    {
      hide Segment.Bytes, Segment.End, CutHere, HlsCache.Set, Put, Touch;
      ghost var s := st;
      StepItems(st, a);
      if a.Opens() {
        Cut(name, st);
        s := CutHere(st);
      }
      if btswriter != null {
        Add(a, composition, s);
      }
    }

    /** Muxing leaves the parsers as they are. */
    method HandleApart(a: Accepted, name: HlsCache.Path, composition: nat, ghost st: State)
      requires Apart() && At(st) && |st.pending| < MAX_FRAMES && tsCache.Valid() && a.Valid() && tsparser.Valid()
      requires a.Audio? ==> tsparser.aac != null && tsparser.Contents().Rate() == a.rate
      modifies this, muxer, muxer.pat, muxer.pmt, muxer.tsPacket, stat, clock, cache, cache.buf, tsCache, btswriter
      ensures Apart() && tsCache.Valid() && At(Step(st, a)) && (btswriter == old(btswriter) || fresh(btswriter))
      ensures StoredBy(name, st, Step(st, a), old(tsCache.Contents()), tsCache.Contents())
      ensures tsparser.Valid() && tsparser.Contents() == old(tsparser.Contents()) && tsparser.Footprint() == old(tsparser.Footprint())
    {
      hide Segment.Bytes, Segment.End, Step, StoredBy;
      Handle(a, name, composition, st);
    }

    /** A packet that is no header, parsed into `bwriter`. */
    method ParseFrame(p: Packet) returns (a: Option<Accepted>)
      requires tsparser.Valid() && p.tag.Supported() && !Header(p.tag)
      modifies tsparser.Footprint(), bwriter
      ensures tsparser.Valid() && fresh(tsparser.Footprint() - old(tsparser.Footprint()))
      ensures tsparser.Contents() == old(tsparser.Contents()) && a == Accept(old(tsparser.Contents()), p)
      ensures a.Some? && a.value.Audio? ==> tsparser.aac != null && tsparser.Contents().Rate() == a.value.rate
    {
      ParseKeeps(tsparser.Contents(), p);
      hide ParseTag;
      bwriter.Reset();
      assert tsparser.Valid() && tsparser.Contents() == old(tsparser.Contents()) && tsparser.Footprint() == old(tsparser.Footprint());
      var ok := tsparser.Parse(p, bwriter);
      if !ok {
        return None;
      }
      assert bwriter.bytes == ParseTag(old(tsparser.Contents()), p).1.value;
      if p.tag.VideoTag? {
        a := Some(Video(Frame(true, p.tag.IsKeyFrame(), p.timestamp, p.tag.composition, bwriter.bytes)));
      } else {
        var rate := tsparser.SampleRate();
        a := Some(Audio(p.timestamp, rate, bwriter.bytes));
      }
    }

    /** The first half of `parse`: what the codec parsers make of a packet. */
    method ParsePacket(p: Packet) returns (a: Option<Accepted>)
      requires tsparser.Valid()
      modifies tsparser.Footprint(), bwriter
      ensures tsparser.Valid() && fresh(tsparser.Footprint() - old(tsparser.Footprint()))
      ensures tsparser.Contents() == Next(old(tsparser.Contents()), p) && a == Accept(old(tsparser.Contents()), p)
      ensures a.Some? && a.value.Audio? ==> tsparser.aac != null && tsparser.Contents().Rate() == a.value.rate
    {
      if !p.tag.Supported() {
        return None;
      }
      if Header(p.tag) {
        var ok := tsparser.Parse(p, bwriter);
        return None;
      }
      ParseKeeps(tsparser.Contents(), p);
      hide ParseTag, Accept;
      a := ParseFrame(p);
    }

    /** Parsing leaves everything else as it is. */
    method Prepare(p: Packet, ghost st: State) returns (a: Option<Accepted>)
      requires Apart() && At(st) && tsparser.Valid() && tsCache.Valid()
      modifies tsparser.Footprint(), bwriter
      ensures tsparser.Valid() && tsparser.Contents() == Next(old(tsparser.Contents()), p)
      ensures fresh(tsparser.Footprint() - old(tsparser.Footprint()))
      ensures a == Accept(old(tsparser.Contents()), p)
      ensures a.Some? && a.value.Audio? ==> tsparser.aac != null && tsparser.Contents().Rate() == a.value.rate
      ensures At(st) && tsCache.Valid() && tsCache.Contents() == old(tsCache.Contents()) && btswriter == old(btswriter)
    {
      hide Segment.Bytes, Segment.End, Accept, Next, Data;
      ParserApart();
      a := ParsePacket(p);
    }

    lemma ParserApart()
      requires Apart()
      ensures {this, muxer, stat, clock, cache, cache.buf, tsCache, btswriter} !! tsparser.Footprint() + {bwriter}
    {
    }

    /** One demultiplexed packet; `name` is the path made from the time of day, if a segment is stored. */
    method SendPacket(p: Packet, name: HlsCache.Path, ghost st: State)
      requires Apart() && At(st) && |st.pending| < MAX_FRAMES && tsparser.Valid() && tsCache.Valid()
      modifies this, bwriter, muxer, muxer.pat, muxer.pmt, muxer.tsPacket, stat, clock, cache, cache.buf, tsCache
      modifies btswriter, tsparser.Footprint()
      ensures Apart() && tsparser.Valid() && tsCache.Valid() && (btswriter == old(btswriter) || fresh(btswriter))
      ensures fresh(tsparser.Footprint() - old(tsparser.Footprint()))
      ensures tsparser.Contents() == Next(old(tsparser.Contents()), p)
      ensures At(Send(st, old(tsparser.Contents()), p))
      ensures StoredBy(name, st, Send(st, old(tsparser.Contents()), p), old(tsCache.Contents()), tsCache.Contents())
    {
      hide Segment.Bytes, Segment.End, Step, Accept, Next, StoredBy;
      NothingStored(name, st, tsCache.Contents());
      var a := Prepare(p, st);
      if a.Some? {
        var composition := if p.tag.VideoTag? then p.tag.composition % 0x1_0000_0000 else 0;
        HandleApart(a.value, name, composition, st);
      }
    }

    /** The segmenter after these packets, stored under these names. */
    ghost predicate After(ps: seq<Packet>, names: seq<HlsCache.Path>)
      requires |ps| == |names|
      reads this, stat, clock, cache, cache.buf, muxer, btswriter, tsCache, tsparser, tsparser.aac, tsparser.h264
    {
      && Apart() && tsparser.Valid() && tsCache.Valid()
      && At(SendAll(ps)) && tsparser.Contents() == AcceptAll(ps).0
      && tsCache.Contents() == HlsCache.Run(RunCalls(ps, names))
    }

    method SendNext(p: Packet, name: HlsCache.Path, ghost ps: seq<Packet>, ghost names: seq<HlsCache.Path>)
      requires |ps| == |names| && After(ps, names)
      modifies this, bwriter, muxer, muxer.pat, muxer.pmt, muxer.tsPacket, stat, clock, cache, cache.buf, tsCache
      modifies btswriter, tsparser.Footprint()
      ensures After(ps + [p], names + [name]) && (btswriter == old(btswriter) || fresh(btswriter))
      ensures fresh(tsparser.Footprint() - old(tsparser.Footprint()))
    {
      hide Segment.Bytes, Segment.End, Step, Accept, Next, StoredBy, HlsCache.Run, RunCalls, Send;
      ghost var w := tsCache.Contents();
      RunStorable(ps);
      SendAllSnoc(ps, p);
      assert (names + [name])[..|names|] == names;
      SendPacket(p, name, SendAll(ps));
      WindowStep(ps + [p], names + [name], w, tsCache.Contents());
    }

    /** The loop over the queue: packet after packet, each with the path of its time of day. */
    method SendPackets(ps: seq<Packet>, names: seq<HlsCache.Path>)
      requires |ps| == |names| && After([], [])
      modifies this, bwriter, muxer, muxer.pat, muxer.pmt, muxer.tsPacket, stat, clock, cache, cache.buf, tsCache
      modifies btswriter, tsparser.Footprint()
      ensures After(ps, names)
    {
      hide After, SendAll, AcceptAll, RunCalls, HlsCache.Run, At, Apart;
      ghost var own := tsparser.Footprint();
      assert ps[..0] == [] && names[..0] == [];
      for i := 0 to |ps|
        invariant After(ps[..i], names[..i])
        invariant forall o <- tsparser.Footprint() :: o in own || fresh(o)
        invariant btswriter == old(btswriter) || fresh(btswriter)
      {
        SendNext(ps[i], names[i], ps[..i], names[..i]);
        assert ps[..i + 1] == ps[..i] + [ps[i]] && names[..i + 1] == names[..i] + [names[i]];
      }
      assert ps[..|ps|] == ps && names[..|ps|] == names;
    }
  }

  /** `NewSource`, whose goroutine empties the queue. */
  method NewSource(ps: seq<Packet>, names: seq<HlsCache.Path>) returns (s: Source)
    requires |ps| == |names|
    ensures fresh(s) && s.After(ps, names)
  {
    hide SendAll, AcceptAll, RunCalls, HlsCache.Run, Source.At;
    NothingSent();
    s := new Source();
    s.SendPackets(ps, names);
  }

  lemma NothingSent()
    ensures SendAll([]) == Fresh() && AcceptAll([]).0 == FRESH && RunCalls([], []) == []
  {
  }

  lemma SendAllSnoc(ps: seq<Packet>, p: Packet)
    ensures SendAll(ps + [p]) == Send(SendAll(ps), AcceptAll(ps).0, p)
    ensures AcceptAll(ps + [p]).0 == Next(AcceptAll(ps).0, p)
    ensures (ps + [p])[..|ps + [p]| - 1] == ps
  {
    hide Send, Next, Accept;
    assert (ps + [p])[..|ps + [p]| - 1] == ps;
  }

  /** Audio that is no configuration leaves the configuration alone. */
  lemma ParseKeeps(ps: Parsers, p: Packet)
    requires ps.Valid() && p.tag.Supported() && !Header(p.tag)
    ensures ParseTag(ps, p).0 == ps
  {
  }

  /** The window of stored segments after a step: one more, if the step has stored one. */
  ghost predicate StoredBy(name: HlsCache.Path, st: State, st': State, w: HlsCache.Window, w': HlsCache.Window) {
    if |st'.items| == |st.items| then w' == w
    else
      && |st'.items| == |st.items| + 1
      && var item := st'.items[|st.items|];
         item.segment.start.Valid() && item.duration >= 0 && w' == HlsCache.Set(w, StoreCall(name, item))
  }

  /** A step stores at most one segment, when it cuts. */
  lemma StepItems(st: State, a: Accepted)
    requires st.Valid() && a.Valid()
    ensures var s := if a.Opens() then CutHere(st) else st;
            && Step(st, a).items == s.items && s.started == (st.started || a.Opens())
            && Step(st, a) == (if s.started then Put(Touch(s, a.Time()), a) else s)
            && |s.pending| <= |st.pending|
  {
  }

  /** What `CutHere` stores, if anything. */
  lemma StoresOne(name: HlsCache.Path, st: State, w: HlsCache.Window)
    requires st.Valid()
    ensures !(st.started && st.last - st.first >= SEGMENT_MS) ==> StoredBy(name, st, CutHere(st), w, w)
    ensures st.started && st.last - st.first >= SEGMENT_MS ==>
              var item := HlsCache.TSItem(name, |st.items| + 1, st.last - st.first, Flush(st).segment.Bytes());
              StoredBy(name, st, CutHere(st), w, HlsCache.Set(w, HlsCache.Call(name, item)))
  {
    hide Segment.Bytes, Segment.End, HlsCache.Set;
  }

  lemma NothingStored(name: HlsCache.Path, st: State, w: HlsCache.Window)
    ensures StoredBy(name, st, st, w, w)
  {
  }

  lemma SameBytes(seg: Segment, taken: seq<Accepted>)
    requires seg.start.Valid()
    ensures seg.(taken := taken).Bytes() == seg.Bytes() && seg.(taken := taken).End() == seg.End()
  {
    hide RunPackets, AdvanceAll;
  }

  /** `Step` for what the parsers make of a packet. */
  function Send(st: State, ps: Parsers, p: Packet): (r: State)
    requires st.Valid() && ps.Valid()
    ensures r.Valid()
  {
    match Accept(ps, p)
    case None => st
    case Some(a) => Step(st, a)
  }

  function Pending(st: State, a: Accepted, pts: nat): State {
    st.(pending := st.pending + [a], pendingPts := if st.pending == [] then pts else st.pendingPts)
  }

  /** The state once the frame has been noted and its time is known. */
  function Prepared(st: State, a: Accepted): State
    requires a.Valid()
  {
    var seg := st.segment.(taken := st.segment.taken + [a]);
    if a.Video? then st.(segment := seg) else st.(segment := seg, align := SoundTime(st, a).0)
  }

  function SoundTime(st: State, a: Accepted): (Align, nat)
    requires a.Valid() && a.Audio?
  {
    Aligned(st.align, a.ts * H264_HZ, VIDEO_HZ * AAC_SAMPLES / a.rate)
  }

  function Muxed(st: State, a: Accepted, pts: int): State
    requires a.Audio? ==> pts >= 0
  {
    if a.Video? then st.(segment := st.segment.(chunks := st.segment.chunks + [Pic(a.f)]))
    else
      var s := Pending(st, a, pts);
      if |s.pending| >= MAX_FRAMES then Flush(s) else s
  }

  lemma PutIs(st: State, a: Accepted)
    requires a.Valid()
    ensures Put(st, a) == Muxed(Prepared(st, a), a, if a.Video? then 0 else SoundTime(st, a).1)
  {
  }

  lemma DataSnoc(frames: seq<Accepted>, a: Accepted)
    requires a.Audio?
    ensures Data(frames + [a]) == Data(frames) + a.data
    ensures Data([a]) == a.data
  {
    assert (frames + [a])[..|frames + [a]| - 1] == frames;
    assert [a][..0] == [] && [] + a.data == a.data;
  }

  /** A stored segment as the window gets it. */
  function StoreCall(name: HlsCache.Path, item: Item): HlsCache.Call
    requires item.segment.start.Valid() && item.duration >= 0
  {
    HlsCache.Call(name, HlsCache.TSItem(name, item.seqNum, item.duration, item.segment.Bytes()))
  }

  /** A segment that has only its tables yet. */
  lemma TableBytes(seg: Segment)
    requires seg.start.Valid() && seg.chunks == []
    ensures var c := Advance(seg.start, TABLES[0]);
            && seg.Bytes() == Flatten(OpPackets(seg.start, TABLES[0])) + Flatten(OpPackets(c, TABLES[1]))
            && seg.End() == Advance(c, TABLES[1])
  {
    hide RunPackets, AdvanceAll, OpPackets, Advance;
    var c := Advance(seg.start, TABLES[0]);
    assert seg.Ops() == [TABLES[0]] + [TABLES[1]];
    RunConcat(seg.start, [TABLES[0]], [TABLES[1]]);
    OneOp(seg.start, TABLES[0]);
    OneOp(c, TABLES[1]);
    FlattenConcat(OpPackets(seg.start, TABLES[0]), OpPackets(c, TABLES[1]));
  }

  /** What one more chunk adds to a segment. */
  lemma ChunkBytes(seg: Segment, c: Chunk)
    requires seg.start.Valid()
    ensures var seg' := seg.(chunks := seg.chunks + [c]);
            && seg'.Bytes() == seg.Bytes() + Flatten(OpPackets(seg.End(), OpOf(c)))
            && seg'.End() == Advance(seg.End(), OpOf(c))
  {
    hide RunPackets, AdvanceAll, OpPackets, Advance;
    var seg' := seg.(chunks := seg.chunks + [c]);
    assert seg'.chunks[..|seg'.chunks| - 1] == seg.chunks;
    Assoc(TABLES, OpsOf(seg.chunks), [OpOf(c)]);
    assert seg'.Ops() == seg.Ops() + [OpOf(c)];
    RunConcat(seg.start, seg.Ops(), [OpOf(c)]);
    OneOp(seg.End(), OpOf(c));
    FlattenConcat(RunPackets(seg.start, seg.Ops()), RunPackets(seg.End(), [OpOf(c)]));
  }

  lemma OneOp(c: Counters, op: Op)
    requires c.Valid()
    ensures RunPackets(c, [op]) == OpPackets(c, op) && AdvanceAll(c, [op]) == Advance(c, op)
  {
    hide OpPackets, Advance;
    assert [op][1..] == [];
    assert OpPackets(c, op) + [] == OpPackets(c, op);
  }

  // ---- Whole runs --------------------------------------------------------

  /** The parsers after these packets, and what they have accepted. */
  function AcceptAll(ps: seq<Packet>): (r: (Parsers, seq<Accepted>))
    ensures r.0.Valid() && AllValid(r.1)
  {
    if ps == [] then (FRESH, [])
    else
      var (before, acc) := AcceptAll(ps[..|ps| - 1]);
      var a := Accept(before, ps[|ps| - 1]);
      (Next(before, ps[|ps| - 1]), if a.Some? then acc + [a.value] else acc)
  }

  /** The state after `SendPacket` has had these packets one by one. */
  function SendAll(ps: seq<Packet>): (r: State)
    ensures r.Valid()
  {
    if ps == [] then Fresh() else Send(SendAll(ps[..|ps| - 1]), AcceptAll(ps[..|ps| - 1]).0, ps[|ps| - 1])
  }

  /** The segmenter runs on what its parsers accept. */
  lemma {:induction false} SendsAccepted(ps: seq<Packet>)
    ensures SendAll(ps) == HlsSpec.Run(AcceptAll(ps).1)
  {
    hide Accept, Next, Step;
    if ps != [] {
      SendsAccepted(ps[..|ps| - 1]);
      var acc, a := AcceptAll(ps[..|ps| - 1]).1, Accept(AcceptAll(ps[..|ps| - 1]).0, ps[|ps| - 1]);
      if a.Some? {
        assert (acc + [a.value])[..|acc + [a.value]| - 1] == acc;
      }
    }
  }

  /** For every run of packets each segment is whole, and nothing accepted is lost. */
  lemma EveryRun(ps: seq<Packet>)
    ensures Good(SendAll(ps), FromKey(AcceptAll(ps).1))
  {
    hide Good, FromKey, SendAll, AcceptAll;
    SendsAccepted(ps);
    Segments(AcceptAll(ps).1);
  }

  /** The video tags of a run, as the H.264 parser is called with them. */
  function VideoTags(ps: seq<Packet>): seq<H264Spec.Tag> {
    if ps == [] then []
    else
      var p := ps[|ps| - 1];
      VideoTags(ps[..|ps| - 1])
      + (if p.tag.VideoTag? && p.tag.Supported() then [H264Spec.Tag(p.data, p.tag.IsSeq())] else [])
  }

  lemma NextInfo(ps: Parsers, p: Packet)
    requires ps.Valid()
    ensures Next(ps, p).info
            == ps.info + if p.tag.VideoTag? && p.tag.Supported() then H264Spec.SetsOf(H264Spec.Tag(p.data, p.tag.IsSeq())) else []
  {
    hide H264Spec.SpecificOf, Convert, Aac.ConfigOf;
    assert ps.info + [] == ps.info;
  }

  /** The parameter sets of all sequence headers of a run are remembered, one after another. */
  lemma {:induction false} InfoFollows(ps: seq<Packet>)
    ensures AcceptAll(ps).0.info == H264Spec.InfoAfter(VideoTags(ps))
  {
    hide Next, Accept, H264Spec.SetsOf;
    if ps != [] {
      InfoFollows(ps[..|ps| - 1]);
      NextInfo(AcceptAll(ps[..|ps| - 1]).0, ps[|ps| - 1]);
      var tags, before := VideoTags(ps), VideoTags(ps[..|ps| - 1]);
      if |tags| > |before| {
        assert tags[..|tags| - 1] == before;
      } else {
        assert tags == before;
      }
    }
  }

  // ---- The window over whole runs ----------------------------------------

  /** A segment that can be stored. */
  ghost predicate Storable(items: seq<Item>) {
    forall i | 0 <= i < |items| :: items[i].segment.start.Valid() && items[i].duration >= 0
  }

  /** The calls that stored these segments under these names. */
  ghost function CallsOf(items: seq<Item>, names: seq<HlsCache.Path>): (r: seq<HlsCache.Call>)
    requires |items| == |names| && Storable(items)
    ensures |r| == |items| && forall i | 0 <= i < |items| :: r[i] == StoreCall(names[i], items[i])
  {
    seq(|items|, i requires 0 <= i < |items| => StoreCall(names[i], items[i]))
  }

  /** The stored segments are numbered from 1 without gaps. */
  lemma StoredNumbered(items: seq<Item>, names: seq<HlsCache.Path>)
    requires Stored(items) && |items| == |names|
    ensures Storable(items) && HlsCache.Numbered(CallsOf(items, names))
  {
    hide Segment.Bytes, Batches;
    forall i | 0 <= i < |items|
      ensures items[i].seqNum == i + 1 && items[i].segment.start.Valid() && items[i].duration >= 0
    {
      assert Whole(items[i].segment, []);
    }
  }

  /** A packet stores at most one segment. */
  lemma SendStores(st: State, ps: Parsers, p: Packet)
    requires st.Valid() && ps.Valid()
    ensures var st' := Send(st, ps, p);
            st'.items == st.items || (|st'.items| == |st.items| + 1 && st'.items[..|st.items|] == st.items)
  {
    hide Accept, Segment.End;
  }

  /** The names under which a run has stored its segments, when each packet comes with the name of its time. */
  function StoredNames(ps: seq<Packet>, names: seq<HlsCache.Path>): (r: seq<HlsCache.Path>)
    requires |ps| == |names|
    ensures |r| == |SendAll(ps).items|
  {
    if ps == [] then []
    else
      var n := |ps| - 1;
      SendStores(SendAll(ps[..n]), AcceptAll(ps[..n]).0, ps[n]);
      StoredNames(ps[..n], names[..n]) + (if SendAll(ps).items == SendAll(ps[..n]).items then [] else [names[n]])
  }

  lemma RunStorable(ps: seq<Packet>)
    ensures Stored(SendAll(ps).items) && Storable(SendAll(ps).items)
    ensures |SendAll(ps).pending| < MAX_FRAMES
  {
    hide SendAll, Batch, Whole;
    EveryRun(ps);
    StoredNumbered(SendAll(ps).items, seq(|SendAll(ps).items|, _ => HlsCache.Path("")));
  }

  /** The calls of `SetItem` in a run. */
  ghost function RunCalls(ps: seq<Packet>, names: seq<HlsCache.Path>): (r: seq<HlsCache.Call>)
    requires |ps| == |names|
    ensures |r| == |SendAll(ps).items|
  {
    RunStorable(ps);
    CallsOf(SendAll(ps).items, StoredNames(ps, names))
  }

  lemma SendAllStores(ps: seq<Packet>)
    requires ps != []
    ensures var st, st' := SendAll(ps[..|ps| - 1]), SendAll(ps);
            st'.items == st.items || (|st'.items| == |st.items| + 1 && st'.items[..|st.items|] == st.items)
  {
    hide Send;
    SendStores(SendAll(ps[..|ps| - 1]), AcceptAll(ps[..|ps| - 1]).0, ps[|ps| - 1]);
  }

  lemma CallsSnoc(items: seq<Item>, names: seq<HlsCache.Path>, item: Item, name: HlsCache.Path)
    requires |items| == |names| && Storable(items) && Storable(items + [item])
    requires item.segment.start.Valid() && item.duration >= 0
    ensures var calls := CallsOf(items + [item], names + [name]);
            calls[..|calls| - 1] == CallsOf(items, names) && calls[|calls| - 1] == StoreCall(name, item)
  {
    hide StoreCall;
    assert forall i | 0 <= i < |items| :: (items + [item])[i] == items[i] && (names + [name])[i] == names[i];
    assert (items + [item])[|items|] == item && (names + [name])[|items|] == name;
  }

  /** One more segment stored. */
  lemma StoreStep(items: seq<Item>, names: seq<HlsCache.Path>, item: Item, name: HlsCache.Path)
    requires |items| == |names| && Storable(items) && Storable(items + [item])
    requires item.segment.start.Valid() && item.duration >= 0
    ensures HlsCache.Run(CallsOf(items + [item], names + [name]))
            == HlsCache.Set(HlsCache.Run(CallsOf(items, names)), StoreCall(name, item))
  {
    hide StoreCall, HlsCache.Set, CallsOf;
    CallsSnoc(items, names, item, name);
  }

  lemma NamesStep(ps: seq<Packet>, names: seq<HlsCache.Path>)
    requires |ps| == |names| > 0
    ensures var n := |ps| - 1;
            StoredNames(ps, names) == StoredNames(ps[..n], names[..n])
              + if SendAll(ps).items == SendAll(ps[..n]).items then [] else [names[n]]
  {
  }

  /** One packet moves the window as one more packet of the run does. */
  lemma WindowStep(ps: seq<Packet>, names: seq<HlsCache.Path>, w: HlsCache.Window, w': HlsCache.Window)
    requires |ps| == |names| > 0
    requires var n := |ps| - 1;
             && w == HlsCache.Run(RunCalls(ps[..n], names[..n]))
             && StoredBy(names[n], SendAll(ps[..n]), SendAll(ps), w, w')
    ensures w' == HlsCache.Run(RunCalls(ps, names))
  {
    var n := |ps| - 1;
    hide HlsCache.Set, HlsCache.Run, SendAll, StoredNames, StoreCall, CallsOf, Storable, Stored;
    var st, st' := SendAll(ps[..n]), SendAll(ps);
    var before := StoredNames(ps[..n], names[..n]);
    SendAllStores(ps);
    RunStorable(ps);
    RunStorable(ps[..n]);
    NamesStep(ps, names);
    if st'.items == st.items {
      assert before + [] == before;
    } else {
      var item := st'.items[|st.items|];
      assert st'.items == st.items + [item];
      StoreStep(st.items, before, item, names[n]);
    }
  }

  /**
   What the playlist of a run shows: list and map agree through the run exactly
   when no name comes back within three segments, and then the playlist names the
   last three stored segments with their durations, in order, from the number of
   the oldest, under a target duration one second over the longest, which no rounded
   duration exceeds.
   */
  lemma PlaylistOfRun(ps: seq<Packet>, names: seq<HlsCache.Path>)
    requires |ps| == |names|
    ensures var calls := RunCalls(ps, names);
            (forall n | 0 <= n <= |calls| :: HlsCache.Agrees(calls[..n])) <==> HlsCache.Spaced(calls)
    ensures HlsCache.Spaced(RunCalls(ps, names)) ==>
              ShowsLast(HlsCache.PlaylistOf(HlsCache.Run(RunCalls(ps, names))), SendAll(ps).items, StoredNames(ps, names))
  {
    hide SendAll, StoredNames, Segment.Bytes, HlsCache.Agrees, HlsCache.Spaced, HlsCache.PlaylistOf, HlsCache.Run, Stored, ShowsLast;
    var items, stored := SendAll(ps).items, StoredNames(ps, names);
    RunStorable(ps);
    StoredNumbered(items, stored);
    HlsCache.AgreesExactly(CallsOf(items, stored));
    if HlsCache.Spaced(CallsOf(items, stored)) {
      SpacedShows(items, stored);
    }
  }

  lemma SpacedShows(items: seq<Item>, names: seq<HlsCache.Path>)
    requires |items| == |names| && Storable(items)
    requires HlsCache.Numbered(CallsOf(items, names)) && HlsCache.Spaced(CallsOf(items, names))
    ensures ShowsLast(HlsCache.PlaylistOf(HlsCache.Run(CallsOf(items, names))), items, names)
  {
    hide Segment.Bytes, HlsCache.Spaced, HlsCache.Numbered, HlsCache.PlaylistOf, HlsCache.Run, HlsCache.Recent;
    var calls := CallsOf(items, names);
    HlsCache.PlaylistRight(calls);
    var p := HlsCache.PlaylistOf(HlsCache.Run(calls));
    var first := |items| - |HlsCache.Recent(calls)|;
    forall i | first <= i < |items|
      ensures p.entries[i - first].name == names[i] && p.entries[i - first].duration == items[i].duration
      ensures (items[i].duration + 500) / 1000 <= p.targetDuration && items[i].duration / 1000 < p.targetDuration
    {
      HlsCache.PlaylistEntry(calls, i);
      assert calls[i] == StoreCall(names[i], items[i]);
    }
    var i := HlsCache.PlaylistLongest(calls);
    if items != [] {
      assert calls[i] == StoreCall(names[i], items[i]);
      assert items[i].duration / 1000 == p.targetDuration - 1;
    }
  }

  /** The playlist names the last three of these segments. */
  ghost predicate ShowsLast(p: HlsCache.Playlist, items: seq<Item>, names: seq<HlsCache.Path>)
    requires |items| == |names|
  {
    var k := Min(|items|, 3);
    var first := |items| - k;
    && |p.entries| == k
    && p.mediaSequence == (if items == [] then 0 else first + 1)
    && (forall i | first <= i < |items| ::
          && p.entries[i - first].name == names[i] && p.entries[i - first].duration == items[i].duration
          && (items[i].duration + 500) / 1000 <= p.targetDuration
          && items[i].duration / 1000 < p.targetDuration)
    && (if items == [] then p.targetDuration == 1
        else exists i :: first <= i < |items| && items[i].duration / 1000 == p.targetDuration - 1)
  }
}
