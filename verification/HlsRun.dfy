/**
 Whole runs by their packets: which are accepted and as what, which segment each
 goes into, and what a player reads from the bytes of a stored segment.
 */
module HlsRuns {
  import opened Bytes
  import opened TsSpec
  import opened TsStream
  import opened HlsSpec
  import opened HlsParse
  import opened HlsTheorems
  import opened HlsAudio
  import opened HlsClock
  import opened Hls
  import H264Spec
  import Aac

  // ---- What is accepted --------------------------------------------------

  /** The last audio configuration of a run. */
  function Configuration(ps: seq<Packet>): Option<seq<byte>> {
    if ps == [] then None
    else
      var p := ps[|ps| - 1];
      if p.tag.AudioTag? && p.tag.soundFormat == 10 && p.tag.aacPacketType == 0 && |p.data| >= 2 then Some(p.data)
      else Configuration(ps[..|ps| - 1])
  }

  /** Object type, frequency index and channels by the first 13 bits. */
  function Fields(config: Option<seq<byte>>): Aac.Config {
    match config
    case None => Aac.Config(0, 0, 0)
    case Some(d) =>
      if |d| < 2 then Aac.Config(0, 0, 0)
      else
        var v := d[0] as int * 256 + d[1];
        Aac.Config(v / 0x800, v / 0x80 % 16, v / 8 % 16)
  }

  /** Samples per second by the frequency index of section 1.6.3.4 of ISO/IEC 14496-3. */
  function Hertz(index: nat): nat {
    match index
    case 0 => 96000 case 1 => 88200 case 2 => 64000 case 3 => 48000 case 4 => 44100 case 5 => 32000 case 6 => 24000
    case 7 => 22050 case 8 => 16000 case 9 => 12000 case 10 => 11025 case 11 => 8000 case 12 => 7350 case _ => 44100
  }

  lemma {:induction false} ConfigFollows(ps: seq<Packet>)
    ensures var s := AcceptAll(ps).0;
            && (s.got <==> Configuration(ps).Some?) && s.config == Fields(Configuration(ps))
            && (Configuration(ps).Some? ==> |Configuration(ps).value| >= 2)
  {
    hide Accept, Convert, H264Spec.SpecificOf, Aac.ConfigOf;
    if ps != [] {
      ConfigFollows(ps[..|ps| - 1]);
      var p := ps[|ps| - 1];
      if |p.data| >= 2 { Aac.ConfigIs(p.data); }
      NoConfig(p.data);
    }
  }

  lemma NoConfig(d: seq<byte>)
    ensures |d| < 2 ==> Aac.ConfigOf(d).None?
  {
  }

  lemma HertzIs(s: Parsers)
    requires s.Valid()
    ensures s.Rate() == Hertz(s.config.sampleRate)
  {
  }

  /**
   The packets that are muxed: H.264 that is no sequence header and is either in
   Annex B already or units behind 4-byte lengths, and AAC that is no
   configuration, whose raw frames need content and a configuration before them.
   */
  ghost predicate Takes(ps: seq<Packet>, p: Packet) {
    match p.tag
    case VideoTag(frameType, codec, packetType, _) =>
      && codec == 7 && !(frameType == 1 && packetType == 0)
      && ([0, 0, 0, 1] <= p.data
          || exists ns: seq<H264Spec.Nal> :: ns != [] && H264Spec.AllSized(ns) && p.data == H264Spec.Framed(ns))
    case AudioTag(format, packetType) =>
      format == 10 && packetType != 0 && (packetType == 1 ==> p.data != [] && Configuration(ps).Some?)
  }

  /** What is muxed of such a packet. */
  ghost predicate Carries(ps: seq<Packet>, p: Packet, a: Accepted) {
    match p.tag
    case VideoTag(frameType, _, _, composition) =>
      && a.Video? && a == Video(Frame(true, frameType == 1, p.timestamp, composition, a.f.data))
      && ([0, 0, 0, 1] <= p.data ==> a.f.data == p.data)
      && forall ns: seq<H264Spec.Nal> ::
           H264Spec.AllSized(ns) && p.data == H264Spec.Framed(ns) && !([0, 0, 0, 1] <= p.data) ==>
             a.f.data == H264Spec.AnnexB(H264Spec.Output(ns, H264Spec.InfoAfter(VideoTags(ps))))
    case AudioTag(_, packetType) =>
      var config := Fields(Configuration(ps));
      && a.Audio? && a.ts == p.timestamp && a.rate == Hertz(config.sampleRate)
      && (packetType != 1 ==> a.data == [])
      && (packetType == 1 ==>
            |a.data| == 7 + |p.data| && a.data[7..] == p.data && Aac.HeaderFor(a.data[..7], config, |p.data|))
  }

  /** What the parsers make of the packet at `k` of a run. */
  function At(ps: seq<Packet>, k: nat): Option<Accepted>
    requires k < |ps|
  {
    Accept(AcceptAll(ps[..k]).0, ps[k])
  }

  /** Exactly the packets above are accepted in a run, and as said. */
  lemma AcceptExact(ps: seq<Packet>, k: nat)
    requires k < |ps|
    ensures At(ps, k).Some? <==> Takes(ps[..k], ps[k])
    ensures At(ps, k).Some? ==> Carries(ps[..k], ps[k], At(ps, k).value)
  {
    hide AcceptAll, VideoTags, H264Spec.InfoAfter, Configuration, Fields, Hertz, Aac.Header, Aac.HeaderFor, H264Spec.UnitsOf,
         H264Spec.Framed, H264Spec.AllSized, H264Spec.Annexed, H264Spec.AnnexB, H264Spec.Output;
    var s, p := AcceptAll(ps[..k]).0, ps[k];
    if p.tag.VideoTag? {
      InfoFollows(ps[..k]);
      VideoTaken(s, ps[..k], p);
    } else {
      ConfigFollows(ps[..k]);
      AudioTaken(s, ps[..k], p);
    }
  }

  lemma VideoTaken(s: Parsers, before: seq<Packet>, p: Packet)
    requires s.Valid() && p.tag.VideoTag? && s.info == H264Spec.InfoAfter(VideoTags(before))
    ensures Accept(s, p).Some? <==> Takes(before, p)
    ensures Accept(s, p).Some? ==> Carries(before, p, Accept(s, p).value)
  {
    hide VideoTags, H264Spec.InfoAfter, H264Spec.UnitsOf, H264Spec.Framed, H264Spec.AllSized, H264Spec.Annexed, H264Spec.AnnexB,
         H264Spec.Output, H264Spec.SpecificOf, Configuration;
    H264Spec.ConvertsExactly(p.data);
    forall ns: seq<H264Spec.Nal> | H264Spec.AllSized(ns) && p.data == H264Spec.Framed(ns)
      ensures H264Spec.UnitsOf(p.data).nals == ns
    {
      H264Spec.UnitsOfFramed(ns);
    }
    H264Spec.AnnexedIs(H264Spec.Output(H264Spec.UnitsOf(p.data).nals, s.info));
  }

  lemma AudioTaken(s: Parsers, before: seq<Packet>, p: Packet)
    requires s.Valid() && p.tag.AudioTag?
    requires (s.got <==> Configuration(before).Some?) && s.config == Fields(Configuration(before))
    ensures Accept(s, p).Some? <==> Takes(before, p)
    ensures Accept(s, p).Some? ==> Carries(before, p, Accept(s, p).value)
  {
    hide Configuration, Fields, Hertz, Aac.Header, Aac.HeaderFor, Convert, Parsers.Rate, Aac.ConfigOf;
    HertzIs(s);
    var h := Aac.Header(s.config, |p.data|);
    Aac.HeaderIs(s.config, |p.data|);
    assert |h| == 7 by { HeaderSeven(s.config, |p.data|); }
    assert (h + p.data)[..7] == h && (h + p.data)[7..] == p.data;
  }

  lemma HeaderSeven(c: Aac.Config, n: nat)
    requires c.Valid()
    ensures |Aac.Header(c, n)| == 7
  {
  }

  // ---- Which segment a packet goes into ----------------------------------

  predicate KeyPacket(p: Packet) {
    p.tag.VideoTag? && p.tag.frameType == 1
  }

  /** The packets accepted from the first key frame on, by their places in the run. */
  function Kept(ps: seq<Packet>): (r: seq<nat>)
    ensures forall i | 0 <= i < |r| :: r[i] < |ps|
    ensures forall i, j | 0 <= i < j < |r| :: r[i] < r[j]
  {
    if ps == [] then []
    else
      var n := |ps| - 1;
      var before := Kept(ps[..n]);
      if At(ps, n).None? then before
      else if before != [] || KeyPacket(ps[n]) then before + [n]
      else []
  }

  /** These frames were made of the packets at these places. */
  ghost predicate InStep(ps: seq<Packet>, frames: seq<Accepted>, ks: seq<nat>) {
    |frames| == |ks| && forall i | 0 <= i < |ks| :: ks[i] < |ps| && At(ps, ks[i]) == Some(frames[i])
  }

  lemma AtFront(ps: seq<Packet>, n: nat, k: nat)
    requires k < n <= |ps|
    ensures At(ps[..n], k) == At(ps, k)
  {
    assert ps[..n][..k] == ps[..k];
  }

  lemma FromKeySnoc(acc: seq<Accepted>, a: Accepted)
    ensures FromKey(acc + [a]) == if FromKey(acc) != [] || a.Opens() then FromKey(acc) + [a] else []
  {
    assert (acc + [a])[..|acc + [a]| - 1] == acc;
  }

  lemma {:induction false} KeptInStep(ps: seq<Packet>)
    ensures InStep(ps, FromKey(AcceptAll(ps).1), Kept(ps))
  {
    hide Accept, Next, FromKey, At, InStep;
    if ps == [] {
      NoneKept();
    } else {
      var n := |ps| - 1;
      KeptInStep(ps[..n]);
      var acc, a := AcceptAll(ps[..n]).1, At(ps, n);
      FrontInStep(ps, n, FromKey(acc), Kept(ps[..n]));
      AtIs(ps, n);
      if a.Some? {
        FromKeySnoc(acc, a.value);
        OpensIs(AcceptAll(ps[..n]).0, ps[n]);
        MoreInStep(ps, FromKey(acc), Kept(ps[..n]), a.value, n);
      }
    }
  }

  lemma FrontInStep(ps: seq<Packet>, n: nat, frames: seq<Accepted>, ks: seq<nat>)
    requires n <= |ps| && InStep(ps[..n], frames, ks)
    ensures InStep(ps, frames, ks)
  {
    hide At;
    forall i | 0 <= i < |ks|
      ensures ks[i] < |ps| && At(ps, ks[i]) == Some(frames[i])
    {
      AtFront(ps, n, ks[i]);
    }
  }

  lemma MoreInStep(ps: seq<Packet>, frames: seq<Accepted>, ks: seq<nat>, a: Accepted, k: nat)
    requires InStep(ps, frames, ks) && k < |ps| && At(ps, k) == Some(a)
    ensures InStep(ps, frames + [a], ks + [k]) && InStep(ps, [], [])
    ensures |frames| == |ks|
  {
    hide At;
  }

  lemma NoneKept()
    ensures FromKey([]) == [] && InStep([], [], [])
  {
  }

  lemma AtIs(ps: seq<Packet>, n: nat)
    requires n < |ps|
    ensures At(ps, n) == Accept(AcceptAll(ps[..n]).0, ps[n])
  {
  }

  lemma OpensIs(s: Parsers, p: Packet)
    requires s.Valid() && Accept(s, p).Some?
    ensures Accept(s, p).value.Opens() <==> KeyPacket(p)
    ensures Accept(s, p).value.Time() == p.timestamp
    ensures Accept(s, p).value.Video? <==> p.tag.VideoTag?
  {
    hide Convert;
  }

  ghost predicate Places(ps: seq<Packet>, ks: seq<nat>) {
    forall i | 0 <= i < |ks| :: ks[i] < |ps|
  }

  /** The stored segments, and behind them the open one. */
  function SegmentAt(ps: seq<Packet>, i: nat): Segment
    requires i <= |SendAll(ps).items|
  {
    var st := SendAll(ps);
    if i < |st.items| then st.items[i].segment else st.segment
  }

  function Start(items: seq<Item>, i: nat): nat
    requires i <= |items|
  {
    |AllTaken(items[..i])|
  }

  function End(ps: seq<Packet>, i: nat): nat
    requires i <= |SendAll(ps).items|
  {
    if i < |SendAll(ps).items| then Start(SendAll(ps).items, i + 1) else |Kept(ps)|
  }

  /** The places of the packets of a segment: the segments share out what is kept. */
  function Span(ps: seq<Packet>, i: nat): (r: seq<nat>)
    requires i <= |SendAll(ps).items|
    ensures Places(ps, r)
  {
    SpanFits(ps, i);
    Kept(ps)[Start(SendAll(ps).items, i)..End(ps, i)]
  }

  lemma {:induction false} TakenFront(items: seq<Item>, i: nat)
    requires i < |items|
    ensures Start(items, i + 1) == Start(items, i) + |items[i].segment.taken| <= |AllTaken(items)|
    ensures AllTaken(items)[Start(items, i)..Start(items, i + 1)] == items[i].segment.taken
  {
    TakenPrefix(items, i + 1);
    TakenSnoc(items[..i], items[i]);
    assert items[..i] + [items[i]] == items[..i + 1];
    hide AllTaken;
    Within(AllTaken(items), AllTaken(items[..i]), items[i].segment.taken);
  }

  lemma Within<T>(all: seq<T>, a: seq<T>, b: seq<T>)
    requires a + b <= all
    ensures all[|a|..|a + b|] == b
  {
    assert (a + b)[|a|..] == b;
  }

  lemma SpanFits(ps: seq<Packet>, i: nat)
    requires i <= |SendAll(ps).items|
    ensures var lo, hi := Start(SendAll(ps).items, i), End(ps, i);
            && lo + |SegmentAt(ps, i).taken| == hi <= |Kept(ps)|
            && InStep(ps, SegmentAt(ps, i).taken, Kept(ps)[lo..hi])
  {
    hide SendAll, AcceptAll, FromKey, Kept, At, AllTaken, Stored, Chained, Whole;
    var st := SendAll(ps);
    EveryRun(ps);
    KeptInStep(ps);
    var from := FromKey(AcceptAll(ps).1);
    var lo, hi := Start(st.items, i), End(ps, i);
    if i < |st.items| {
      TakenFront(st.items, i);
      assert from[lo..hi] == AllTaken(st.items)[lo..hi];
    } else {
      AllStarted(st.items);
      assert from[lo..hi] == st.segment.taken;
    }
    PartInStep(ps, from, Kept(ps), lo, hi);
  }

  lemma PartInStep(ps: seq<Packet>, frames: seq<Accepted>, ks: seq<nat>, lo: nat, hi: nat)
    requires InStep(ps, frames, ks) && lo <= hi <= |ks|
    ensures |frames| == |ks| && InStep(ps, frames[lo..hi], ks[lo..hi])
  {
    hide At;
  }

  /** A place in step is one of a packet like its frame. */
  lemma FrameAt(ps: seq<Packet>, frames: seq<Accepted>, ks: seq<nat>, m: nat)
    requires InStep(ps, frames, ks) && m < |ks|
    ensures ks[m] < |ps| && (frames[m].Opens() <==> KeyPacket(ps[ks[m]])) && frames[m].Time() == ps[ks[m]].timestamp
    ensures frames[m].Video? <==> ps[ks[m]].tag.VideoTag?
  {
    hide Accept;
    OpensIs(AcceptAll(ps[..ks[m]]).0, ps[ks[m]]);
  }

  lemma KeysLate(ps: seq<Packet>, taken: seq<Accepted>, ks: seq<nat>)
    requires InStep(ps, taken, ks) && OneCut(taken)
    ensures forall m | 0 < m < |ks| :: KeyPacket(ps[ks[m]]) ==> ps[ks[m - 1]].timestamp - ps[ks[0]].timestamp < 3000
  {
    hide At;
    if ks != [] { FrameAt(ps, taken, ks, 0); }
    forall m | 0 < m < |ks| && KeyPacket(ps[ks[m]])
      ensures ps[ks[m - 1]].timestamp - ps[ks[0]].timestamp < 3000
    {
      FrameAt(ps, taken, ks, m);
      FrameAt(ps, taken, ks, m - 1);
    }
  }

  /**
   Where segments are cut: each begins with a key frame and is stored at the first
   key frame that comes when its packets have lasted three seconds by their time
   stamps, under that duration and the next number; in the open segment none has
   come. The segments share out the packets kept, one behind the other.
   */
  lemma SegmentSpan(ps: seq<Packet>, i: nat)
    requires i <= |SendAll(ps).items|
    ensures var ks, items := Span(ps, i), SendAll(ps).items;
            && (ks != [] ==> KeyPacket(ps[ks[0]]))
            && (forall m | 0 < m < |ks| :: KeyPacket(ps[ks[m]]) ==> ps[ks[m - 1]].timestamp - ps[ks[0]].timestamp < 3000)
            && (i < |items| ==>
                  && ks != [] && items[i].seqNum == i + 1
                  && items[i].duration == ps[ks[|ks| - 1]].timestamp - ps[ks[0]].timestamp >= 3000)
            && Start(items, 0) == 0 && End(ps, i) == Start(items, i) + |ks|
            && (if i < |items| then Start(items, i + 1) == End(ps, i) else End(ps, i) == |Kept(ps)|)
  {
    hide SendAll, Kept, At, Batches, Batch, AcceptAll, FromKey, Chained, Start, AllTaken, Full, Filled;
    var ks, items, taken := Span(ps, i), SendAll(ps).items, SegmentAt(ps, i).taken;
    assert Start(items, 0) == 0 by { NothingBefore(items); }
    SpanFits(ps, i);
    NextOpens(ps, i);
    RunRegular(ps);
    KeysLate(ps, taken, ks);
    if i < |items| {
      EveryRun(ps);
      assert Whole(items[i].segment, []);
      FrameAt(ps, taken, ks, 0);
      FrameAt(ps, taken, ks, |ks| - 1);
    }
  }

  lemma NothingBefore(items: seq<Item>)
    ensures Start(items, 0) == 0
  {
  }

  lemma RunRegular(ps: seq<Packet>)
    ensures Regular(SendAll(ps))
  {
    hide SendAll, AcceptAll, Regular;
    SendsAccepted(ps);
    Pace(AcceptAll(ps).1);
  }

  /** What follows a stored segment opens the next one. */
  lemma NextOpens(ps: seq<Packet>, i: nat)
    requires i <= |SendAll(ps).items|
    ensures Span(ps, i) != [] ==> KeyPacket(ps[Span(ps, i)[0]])
  {
    hide SendAll, Kept, At, Batches, AcceptAll, FromKey, Start, Chained, AllTaken;
    var st := SendAll(ps);
    EveryRun(ps);
    SpanFits(ps, i);
    if Span(ps, i) != [] {
      if i < |st.items| { assert Whole(st.items[i].segment, []); }
      FrameAt(ps, SegmentAt(ps, i).taken, Span(ps, i), 0);
    }
  }

  lemma AllStarted(items: seq<Item>)
    ensures Start(items, |items|) == |AllTaken(items)|
  {
    assert items[..|items|] == items;
  }

  // ---- What a player receives --------------------------------------------

  /** Of these places those of video. */
  function VideoOnes(ps: seq<Packet>, ks: seq<nat>): (r: seq<nat>)
    requires Places(ps, ks)
    ensures forall i | 0 <= i < |r| :: r[i] < |ps| && ps[r[i]].tag.VideoTag?
  {
    if ks == [] then []
    else VideoOnes(ps, ks[..|ks| - 1]) + (if ps[ks[|ks| - 1]].tag.VideoTag? then [ks[|ks| - 1]] else [])
  }

  function AudioOnes(ps: seq<Packet>, ks: seq<nat>): (r: seq<nat>)
    requires Places(ps, ks)
    ensures forall i | 0 <= i < |r| :: r[i] < |ps| && ps[r[i]].tag.AudioTag?
  {
    if ks == [] then []
    else AudioOnes(ps, ks[..|ks| - 1]) + (if ps[ks[|ks| - 1]].tag.AudioTag? then [ks[|ks| - 1]] else [])
  }

  lemma {:induction false} OnesInStep(ps: seq<Packet>, frames: seq<Accepted>, ks: seq<nat>)
    requires InStep(ps, frames, ks)
    ensures Places(ps, ks)
    ensures InStep(ps, Audios(frames), AudioOnes(ps, ks))
    ensures |Videos(frames)| == |VideoOnes(ps, ks)|
    ensures forall j | 0 <= j < |Videos(frames)| :: At(ps, VideoOnes(ps, ks)[j]) == Some(Video(Videos(frames)[j]))
  {
    hide At;
    if ks != [] {
      var n := |ks| - 1;
      PartInStep(ps, frames, ks, 0, n);
      assert frames[0..n] == frames[..n] && ks[0..n] == ks[..n];
      OnesInStep(ps, frames[..n], ks[..n]);
      FrameAt(ps, frames, ks, n);
    }
  }

  /**
   What a reader of a PES packet finds of a video packet: stream id 0xe0; the time
   stamp and the composition time, 90 ticks to a millisecond, exactly below 2^33;
   a decoding time of its own exactly if there is a composition time; and the
   converted picture as payload.
   */
  ghost predicate ShowsVideo(unit: seq<byte>, before: seq<Packet>, p: Packet)
    requires p.tag.VideoTag?
  {
    var dts, pts := p.timestamp * 90, (p.timestamp + p.tag.composition) * 90;
    && |unit| >= 14 && unit[..4] == [0, 0, 1, 0xe0]
    && (ReadPts(unit) == pts % 0x2_0000_0000 <==> pts < 0x2_0000_0000)
    && (HasDts(unit) <==> p.tag.composition != 0)
    && (ReadDts(unit) == dts % 0x2_0000_0000 <==> dts < 0x2_0000_0000)
    && 9 + unit[8] as int <= |unit|
    && Carries(before, p, Video(Frame(true, p.tag.frameType == 1, p.timestamp, p.tag.composition, unit[9 + unit[8] as int..])))
  }

  /** There is an open segment once a key frame has come. */
  predicate Present(ps: seq<Packet>, i: nat) {
    i < |SendAll(ps).items| || (i == |SendAll(ps).items| && SendAll(ps).started)
  }

  /** What is pending behind a segment. */
  function PendingAt(ps: seq<Packet>, i: nat): seq<Accepted> {
    if i < |SendAll(ps).items| then [] else SendAll(ps).pending
  }

  lemma WholeAt(ps: seq<Packet>, i: nat)
    requires Present(ps, i)
    ensures Whole(SegmentAt(ps, i), PendingAt(ps, i)) && SegmentAt(ps, i).start.Valid()
    ensures |PendingAt(ps, i)| < 6
  {
    hide SendAll, AcceptAll, FromKey, Chained, Batch, Batches;
    EveryRun(ps);
    if i < |SendAll(ps).items| { assert Whole(SendAll(ps).items[i].segment, []); }
  }

  /** The bytes of a segment. */
  function BytesAt(ps: seq<Packet>, i: nat): seq<byte>
    requires Present(ps, i)
  {
    WholeAt(ps, i);
    SegmentAt(ps, i).Bytes()
  }

  /** A frame the muxer mangles: a key frame in a PES packet of less than 184 bytes, but for 176. */
  predicate Mangled(p: Packet, length: nat) {
    p.tag.VideoTag? && p.tag.frameType == 1 && length < 184 && length != 176
  }

  /**
   From the bytes of a segment a player gets as many video units as video packets
   were kept for it, in order. Each shows its packet, unless that is a key frame
   whose PES packet, of 14 bytes or with a composition time of 19 and the picture,
   has less than 184 bytes and not 176.
   */
  lemma SegmentVideo(ps: seq<Packet>, i: nat)
    requires Present(ps, i)
    ensures var ks, units := Span(ps, i), Receive(BytesAt(ps, i), 0x100);
            && units.Some? && |units.value| == |VideoOnes(ps, ks)|
            && forall j | 0 <= j < |units.value| ::
                 var k := VideoOnes(ps, ks)[j];
                 At(ps, k).Some? && At(ps, k).value.Video?
                 && var n := (if ps[k].tag.composition == 0 then 14 else 19) + |At(ps, k).value.f.data|;
                    !Mangled(ps[k], n) ==> |units.value[j]| == n && ShowsVideo(units.value[j], ps[..k], ps[k])
  {
    hide SendAll, Kept, At, Batches, Receive, Segment.Bytes, Audios, Videos, VideoOnes, AudioOnes, ShowsVideo, Pes, Start, End;
    var ks, seg := Span(ps, i), SegmentAt(ps, i);
    SpanFits(ps, i);
    WholeAt(ps, i);
    SegmentReceived(seg, PendingAt(ps, i));
    OnesInStep(ps, seg.taken, ks);
    var units, fs := Receive(seg.Bytes(), 0x100).value, Videos(seg.taken);
    forall j | 0 <= j < |units|
      ensures var k := VideoOnes(ps, ks)[j];
              At(ps, k).Some? && At(ps, k).value.Video?
              && var n := (if ps[k].tag.composition == 0 then 14 else 19) + |At(ps, k).value.f.data|;
                 !Mangled(ps[k], n) ==> |units[j]| == n && ShowsVideo(units[j], ps[..k], ps[k])
    {
      VideoShown(ps, VideoOnes(ps, ks)[j], fs[j]);
    }
  }

  lemma VideoShown(ps: seq<Packet>, k: nat, f: Frame)
    requires k < |ps| && ps[k].tag.VideoTag? && At(ps, k) == Some(Video(f))
    ensures var n := (if ps[k].tag.composition == 0 then 14 else 19) + |f.data|;
            && |Pes(f)| == n && (Recoverable(f) <==> !Mangled(ps[k], n)) && ShowsVideo(Pes(f), ps[..k], ps[k])
  {
    hide At, ReadPts, ReadDts, HasDts, TimeField, H264Spec.Output, H264Spec.AnnexB, H264Spec.Framed;
    AcceptExact(ps, k);
    PesStamps(f);
    SameTime(f);
  }

  // ---- Sound -------------------------------------------------------------

  lemma {:induction false} FullCount(cs: seq<Chunk>)
    requires Full(cs)
    ensures |Sounds(cs)| == 6 * |SoundFrames(cs)|
  {
    if cs != [] {
      var init, c := cs[..|cs| - 1], cs[|cs| - 1];
      assert cs == init + [c];
      FullCount(init);
      assert c in cs;
    }
  }

  lemma FilledCount(cs: seq<Chunk>)
    requires Filled(cs) && Batches(cs)
    ensures |SoundFrames(cs)| == (|Sounds(cs)| + 5) / 6
    ensures Full(cs) ==> |SoundFrames(cs)| == |Sounds(cs)| / 6
  {
    hide Near;
    var c := cs[|cs| - 1];
    FullCount(cs[..|cs| - 1]);
    assert c.Sound? ==> Batch(c.pts, c.frames);
    if Full(cs) { FullCount(cs); }
  }

  /** The chunk at `c` is the batch at `j`: it holds the frames from `6 * j` on. */
  ghost predicate IsBatch(cs: seq<Chunk>, j: nat, c: nat) {
    && j < |SoundFrames(cs)| && c < |cs| && cs[c].Sound? && SoundFrames(cs)[j] == SoundFrame(cs[c].pts, cs[c].frames)
    && |Sounds(cs[..c])| == 6 * j < |Sounds(cs)|
    && cs[c].frames == Sounds(cs)[6 * j..Min(6 * j + 6, |Sounds(cs)|)]
    && (6 * j + 6 <= |Sounds(cs)| || j == |SoundFrames(cs)| - 1)
  }

  lemma {:induction false} SoundAt(cs: seq<Chunk>, j: nat) returns (c: nat)
    requires Filled(cs) && Batches(cs) && j < |SoundFrames(cs)|
    ensures IsBatch(cs, j, c)
    decreases |cs|
  {
    hide Near, IsBatch, SoundFrame, Sounds, Full;
    var n := |cs| - 1;
    FullCount(cs[..n]);
    assert cs[n].Sound? ==> Batch(cs[n].pts, cs[n].frames);
    if j == |SoundFrames(cs[..n])| {
      c := n;
      LastBatch(cs);
    } else {
      FrontFilled(cs[..n]);
      c := SoundAt(cs[..n], j);
      FrontBatch(cs, j, c);
    }
  }

  lemma LastBatch(cs: seq<Chunk>)
    requires cs != [] && cs[|cs| - 1].Sound? && 1 <= |cs[|cs| - 1].frames| <= 6
    requires var front := cs[..|cs| - 1]; |Sounds(front)| == 6 * |SoundFrames(front)|
    ensures IsBatch(cs, |SoundFrames(cs[..|cs| - 1])|, |cs| - 1)
  {
    hide SoundFrame;
    var front, c := cs[..|cs| - 1], cs[|cs| - 1];
    assert Sounds(cs) == Sounds(front) + c.frames;
  }

  lemma FrontBatch(cs: seq<Chunk>, j: nat, c: nat)
    requires cs != [] && IsBatch(cs[..|cs| - 1], j, c)
    requires var front := cs[..|cs| - 1]; |Sounds(front)| == 6 * |SoundFrames(front)|
    ensures IsBatch(cs, j, c)
  {
    hide SoundFrame;
    var n := |cs| - 1;
    var front, last := cs[..n], cs[n];
    assert front[..c] == cs[..c];
    assert Sounds(cs) == Sounds(front) + if last.Sound? then last.frames else [];
  }

  lemma FrontFilled(cs: seq<Chunk>)
    requires Full(cs) && SoundFrames(cs) != []
    ensures Filled(cs)
  {
  }

  /** The clock's times of all audio packets kept. */
  ghost function Times(ps: seq<Packet>): seq<nat> {
    RunOnTime(AcceptAll(ps).1);
    Ticks(Audios(FromKey(AcceptAll(ps).1))).1
  }

  function PacketsAt(ps: seq<Packet>, ks: seq<nat>): (r: seq<Packet>)
    requires Places(ps, ks)
    ensures |r| == |ks| && forall i | 0 <= i < |r| :: r[i] == ps[ks[i]]
  {
    seq(|ks|, i requires 0 <= i < |ks| => ps[ks[i]])
  }

  /** Raw frames that the 13-bit length of their headers can hold. */
  predicate AllRaw(group: seq<Packet>) {
    forall m | 0 <= m < |group| :: group[m].tag.AudioTag? && group[m].tag.aacPacketType == 1 && |group[m].data| <= 8184
  }

  /**
   What a reader of a PES packet finds of a group of audio packets: stream id 0xc0;
   one time, which below 2^33 is the clock's time of the first packet in whole
   milliseconds, and within two milliseconds of its time stamp; and a payload that
   splits back into the packets exactly if all are raw frames of at most 8184 bytes.
   */
  ghost predicate ShowsSound(unit: seq<byte>, group: seq<Packet>, tick: nat)
    requires group != []
  {
    var own := group[0].timestamp * 90;
    && |unit| >= 14 && unit[..4] == [0, 0, 1, 0xc0] && !HasDts(unit) && 9 + unit[8] as int <= |unit|
    && (tick < 0x2_0000_0000 ==> ReadPts(unit) == tick / 90 * 90)
    && (own + 180 < 0x2_0000_0000 ==> ReadPts(unit) % 90 == 0 && own - 180 <= ReadPts(unit) <= own + 180)
    && (AllRaw(group) <==> Aac.Scan(unit[9 + unit[8] as int..]) == Some(Datas(group)))
  }

  lemma SoundShown(pts: nat, frames: seq<Accepted>, group: seq<Packet>)
    requires Batch(pts, frames) && AllMade(frames, group)
    ensures group != [] && ShowsSound(Pes(SoundFrame(pts, frames)), group, pts)
  {
    hide Made, Pes, ReadPts, HasDts, Aac.Scan, Data, Datas, AllRaw, FitsFrame, Accepted.Time;
    var f := SoundFrame(pts, frames);
    PesStamps(f);
    assert frames[0].Time() == group[0].timestamp by { FirstTime(frames[0], group[0]); }
    SoundTimes(pts, group[0].timestamp);
    BatchExact(frames, group);
    FitsAll(group);
  }

  lemma FirstTime(a: Accepted, p: Packet)
    requires a.Audio? && Made(a, p)
    ensures a.Time() == p.timestamp
  {
    MadeOf(a, p);
  }

  /** A clock time in whole milliseconds again, as the muxer takes it. */
  lemma SoundTimes(pts: nat, ts: nat)
    requires Near(pts, ts)
    ensures pts < 0x2_0000_0000 ==> pts / 90 % 0x1_0000_0000 * 90 % 0x2_0000_0000 == pts / 90 * 90 < 0x2_0000_0000
    ensures pts / 90 * 90 % 90 == 0 && ts * 90 - 180 <= pts / 90 * 90 <= ts * 90 + 180
  {
    ModUnique(pts / 90 * 90, 90, pts / 90, 0);
  }

  lemma FitsAll(group: seq<Packet>)
    ensures AllRaw(group) <==> forall p <- group :: FitsFrame(p)
  {
    if forall p <- group :: FitsFrame(p) {
      forall m | 0 <= m < |group|
        ensures FitsFrame(group[m])
      {
        assert group[m] in group;
      }
    }
  }

  lemma GroupMade(ps: seq<Packet>, frames: seq<Accepted>, ks: seq<nat>)
    requires InStep(ps, frames, ks) && forall i | 0 <= i < |frames| :: frames[i].Audio?
    ensures Places(ps, ks) && AllMade(frames, PacketsAt(ps, ks))
  {
    hide Accept;
  }

  /** The units show six packets each, and the last of them what is left. */
  ghost predicate ShowSounds(units: seq<seq<byte>>, packets: seq<Packet>, ticks: seq<nat>) {
    forall j | 0 <= j < |units| ::
      && 6 * j < |packets| && 6 * j < |ticks|
      && ShowsSound(units[j], packets[6 * j..Min(6 * j + 6, |packets|)], ticks[6 * j])
  }

  /** The audio packets kept for a segment. */
  function AudioPackets(ps: seq<Packet>, i: nat): seq<Packet>
    requires i <= |SendAll(ps).items|
  {
    PacketsAt(ps, AudioOnes(ps, Span(ps, i)))
  }

  /** How many audio packets were kept for earlier segments. */
  function SoundsBefore(ps: seq<Packet>, i: nat): nat
    requires i <= |SendAll(ps).items|
  {
    |Audios(AllTaken(SendAll(ps).items[..i]))|
  }

  /**
   From the bytes of a stored segment a player gets a unit of sound for each six
   audio packets kept for it, in order, and one for what is left over; what is left
   over in the open segment is pending. Each unit shows its packets at the time of
   the first.
   */
  lemma SegmentSound(ps: seq<Packet>, i: nat)
    requires Present(ps, i)
    ensures var units, packets, o := Receive(BytesAt(ps, i), 0x101), AudioPackets(ps, i), SoundsBefore(ps, i);
            && units.Some? && o + |packets| <= |Times(ps)|
            && |units.value| == (if i < |SendAll(ps).items| then (|packets| + 5) / 6 else |packets| / 6)
            && ShowSounds(units.value, packets, Times(ps)[o..])
  {
    hide SendAll, Kept, At, Receive, Segment.Bytes, Audios, Videos, AudioOnes, ShowsSound, Pes, SoundFrame, Times, Whole, Full,
         Filled, Sounds, SoundFrames, Span, SoundsBefore;
    var seg := SegmentAt(ps, i);
    WholeAt(ps, i);
    PartsAt(ps, i);
    SegmentReceived(seg, PendingAt(ps, i));
    FilledCount(seg.chunks);
    forall j | 0 <= j < |SoundFrames(seg.chunks)|
      ensures var packets, ticks := AudioPackets(ps, i), Times(ps)[SoundsBefore(ps, i)..];
              && 6 * j < |packets| && 6 * j < |ticks|
              && ShowsSound(Pes(SoundFrames(seg.chunks)[j]), packets[6 * j..Min(6 * j + 6, |packets|)], ticks[6 * j])
    {
      UnitShown(ps, i, j);
    }
  }

  /** What the runs keep of the batches of a segment. */
  lemma PartsAt(ps: seq<Packet>, i: nat)
    requires Present(ps, i)
    ensures var cs, qs, o := SegmentAt(ps, i).chunks, AudioOnes(ps, Span(ps, i)), SoundsBefore(ps, i);
            && Filled(cs) && (i == |SendAll(ps).items| ==> Full(cs)) && Batches(cs)
            && |qs| == |Sounds(cs)| + |PendingAt(ps, i)|
            && InStep(ps, Sounds(cs), qs[..|Sounds(cs)|]) && (forall m | 0 <= m < |Sounds(cs)| :: Sounds(cs)[m].Audio?)
            && Stamped(cs, Times(ps), o) && o + |qs| <= |Times(ps)|
  {
    hide SendAll, Kept, At, AcceptAll, FromKey, Chained, AllTaken, Audios, Sounds, AudioOnes, VideoOnes, Videos, Ticks, AllAudio,
         Stamped, Batch, Batches, Full, Stored, Start, End, OneCut;
    var st, seg, n := SendAll(ps), SegmentAt(ps, i), |Sounds(SegmentAt(ps, i).chunks)|;
    WholeAt(ps, i);
    SpanFits(ps, i);
    OnesInStep(ps, seg.taken, Span(ps, i));
    PartInStep(ps, Audios(seg.taken), AudioOnes(ps, Span(ps, i)), 0, n);
    assert Audios(seg.taken)[0..n] == Sounds(seg.chunks);
    AudiosOnly(seg.taken);
    RunRegular(ps);
    SendsAccepted(ps);
    RunOnTime(AcceptAll(ps).1);
    EveryRun(ps);
    SoundsWithin(st.items, i, FromKey(AcceptAll(ps).1), st.segment.taken);
    if i == |st.items| {
      assert st.items[..i] == st.items;
      FullFilled(seg.chunks);
    }
  }

  lemma FullFilled(cs: seq<Chunk>)
    requires Full(cs) && cs != []
    ensures Filled(cs)
  {
  }

  lemma {:induction false} AudiosOnly(frames: seq<Accepted>)
    ensures forall m | 0 <= m < |Audios(frames)| :: Audios(frames)[m].Audio?
  {
    if frames != [] {
      AudiosOnly(frames[..|frames| - 1]);
    }
  }

  lemma {:induction false} TakenPrefix(items: seq<Item>, k: nat)
    requires k <= |items|
    ensures AllTaken(items[..k]) <= AllTaken(items)
  {
    if k == |items| {
      assert items[..k] == items;
    } else {
      var n := |items| - 1;
      TakenPrefix(items[..n], k);
      assert items[..n][..k] == items[..k];
    }
  }

  lemma AudiosPrefix(a: seq<Accepted>, b: seq<Accepted>)
    requires a <= b
    ensures |Audios(a)| <= |Audios(b)|
  {
    hide Audios;
    SplitConcat(a, b[|a|..]);
    assert b == a + b[|a|..];
  }

  lemma SoundsWithin(items: seq<Item>, i: nat, from: seq<Accepted>, open: seq<Accepted>)
    requires i <= |items| && from == AllTaken(items) + open
    ensures |Audios(AllTaken(items[..i]))| + |Audios(if i < |items| then items[i].segment.taken else open)| <= |Audios(from)|
  {
    hide AllTaken, Audios;
    if i < |items| {
      TakenPrefix(items, i + 1);
      TakenSnoc(items[..i], items[i]);
      assert items[..i] + [items[i]] == items[..i + 1];
      SplitConcat(AllTaken(items[..i]), items[i].segment.taken);
      AudiosPrefix(AllTaken(items[..i + 1]), from);
    } else {
      assert items[..i] == items;
      SplitConcat(AllTaken(items), open);
    }
  }

  /** What is pending belongs to no batch. */
  lemma SameEnd(muxed: nat, all: nat, batches: nat, j: nat)
    requires j < batches && (if muxed == all then batches == (all + 5) / 6 else muxed <= all && batches == muxed / 6)
    ensures Min(6 * j + 6, muxed) == Min(6 * j + 6, all)
  {
  }

  lemma UnitShown(ps: seq<Packet>, i: nat, j: nat)
    requires Present(ps, i) && j < |SoundFrames(SegmentAt(ps, i).chunks)|
    ensures var packets, o := AudioPackets(ps, i), SoundsBefore(ps, i);
            && 6 * j < |packets| && o + 6 * j < |Times(ps)|
            && ShowsSound(Pes(SoundFrames(SegmentAt(ps, i).chunks)[j]), packets[6 * j..Min(6 * j + 6, |packets|)],
                          Times(ps)[o + 6 * j])
  {
    hide SendAll, Kept, At, Receive, Segment.Bytes, Audios, Videos, AudioOnes, ShowsSound, Pes, SoundFrame, Times, Span, Sounds,
         SoundFrames, Full, Filled, SoundsBefore;
    PartsAt(ps, i);
    var cs, qs := SegmentAt(ps, i).chunks, AudioOnes(ps, Span(ps, i));
    var c := SoundAt(cs, j);
    FilledCount(cs);
    var n := |Sounds(cs)|;
    var hi := Min(6 * j + 6, n);
    SameEnd(n, |qs|, |SoundFrames(cs)|, j);
    assert Batch(cs[c].pts, cs[c].frames) && StampedAt(cs, Times(ps), SoundsBefore(ps, i), c);
    PartInStep(ps, Sounds(cs), qs[..n], 6 * j, hi);
    var group := qs[6 * j..hi];
    assert qs[..n][6 * j..hi] == group;
    GroupMade(ps, cs[c].frames, group);
    SoundShown(cs[c].pts, cs[c].frames, PacketsAt(ps, group));
    assert PacketsAt(ps, group) == PacketsAt(ps, qs)[6 * j..hi];
  }
}
