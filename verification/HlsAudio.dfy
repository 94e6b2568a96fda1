/** One batch of audio: what the parser made of some packets, and when it splits back into them. */
module HlsAudio {
  import opened Bytes
  import opened HlsSpec
  import opened HlsParse
  import TsSpec
  import Aac

  // ---- Which packet a frame was made of ----------------------------------

  /** Some state of the parsers makes this frame of this packet. */
  ghost predicate Made(a: Accepted, p: Packet) {
    exists ps: Parsers :: ps.Valid() && Accept(ps, p) == Some(a)
  }

  ghost predicate AllMade(frames: seq<Accepted>, ps: seq<Packet>) {
    |frames| == |ps| && forall i | 0 <= i < |frames| :: frames[i].Audio? && Made(frames[i], ps[i])
  }

  predicate Raw(p: Packet) {
    p.tag.AudioTag? && p.tag.aacPacketType == 1
  }

  /** A raw frame goes behind a header for its length; any other packet type is accepted without a byte. */
  lemma MadeOf(a: Accepted, p: Packet)
    requires a.Audio? && Made(a, p)
    ensures p.tag.AudioTag? && a.ts == p.timestamp
    ensures !Raw(p) ==> a.data == []
    ensures Raw(p) ==> exists c: Aac.Config :: c.Valid() && a.data == Aac.Header(c, |p.data|) + p.data
  {
    hide Aac.Header, Convert;
    var ps: Parsers :| ps.Valid() && Accept(ps, p) == Some(a);
    assert ps.config.Valid();
  }

  /** The input that is no frame: packet type 2 passes the parser, whatever it holds. */
  lemma EmptyFrame(ps: Parsers, ts: nat, data: seq<byte>)
    requires ps.Valid()
    ensures Accept(ps, Packet(AudioTag(SOUND_AAC, 2), ts, data)) == Some(Audio(ts, ps.Rate(), []))
  {
  }

  // ---- One batch ---------------------------------------------------------

  function Datas(ps: seq<Packet>): (r: seq<seq<byte>>)
    ensures |r| == |ps|
  {
    if ps == [] then [] else Datas(ps[..|ps| - 1]) + [ps[|ps| - 1].data]
  }

  function RawOnes(ps: seq<Packet>): seq<Packet> {
    if ps == [] then []
    else RawOnes(ps[..|ps| - 1]) + (if Raw(ps[|ps| - 1]) then [ps[|ps| - 1]] else [])
  }

  /** A raw frame that the 13-bit length can hold. */
  predicate FitsFrame(p: Packet) {
    Raw(p) && |p.data| <= 8184
  }

  /** The ADTS frames of a batch: those of its raw packets. */
  lemma {:induction false} FramesOf(frames: seq<Accepted>, ps: seq<Packet>) returns (fs: seq<Aac.Frame>)
    requires AllMade(frames, ps)
    ensures Aac.AllFrames(fs) && Data(frames) == Aac.Stream(fs) && Aac.Raws(fs) == Datas(RawOnes(ps))
    decreases |frames|
  {
    hide Made, Aac.HeaderFor, Aac.Header, Aac.Config.Valid;
    if frames == [] {
      fs := [];
    } else {
      var n := |frames| - 1;
      var gs := FramesOf(frames[..n], ps[..n]);
      MadeOf(frames[n], ps[n]);
      if Raw(ps[n]) {
        var c: Aac.Config :| c.Valid() && frames[n].data == Aac.Header(c, |ps[n].data|) + ps[n].data;
        Aac.HeaderIs(c, |ps[n].data|);
        var f := Aac.Frame(Aac.Header(c, |ps[n].data|), c, ps[n].data);
        fs := gs + [f];
        StreamSnoc(gs, f);
        DatasSnoc(RawOnes(ps[..n]), ps[n]);
      } else {
        fs := gs;
        assert Data(frames[..n]) + [] == Data(frames[..n]);
        assert RawOnes(ps[..n]) + [] == RawOnes(ps[..n]);
      }
    }
  }

  lemma StreamSnoc(gs: seq<Aac.Frame>, f: Aac.Frame)
    ensures Aac.Stream(gs + [f]) == Aac.Stream(gs) + (f.header + f.raw)
    ensures Aac.Raws(gs + [f]) == Aac.Raws(gs) + [f.raw]
  {
    Aac.StreamConcat(gs, [f]);
    Aac.StreamStep([f]);
    assert [f][1..] == [] && (f.header + f.raw) + [] == f.header + f.raw;
  }

  lemma DatasSnoc(ps: seq<Packet>, p: Packet)
    ensures Datas(ps + [p]) == Datas(ps) + [p.data]
  {
    assert (ps + [p])[..|ps + [p]| - 1] == ps;
  }

  /** No scanned frame is longer than its length field. */
  lemma {:induction false} ScannedFit(s: seq<byte>)
    ensures Aac.Scan(s).Some? ==> forall i | 0 <= i < |Aac.Scan(s).value| :: |Aac.Scan(s).value[i]| <= Aac.MAX_RAW
  {
    if s != [] && Aac.Scan(s).Some? {
      ScannedFit(s[Aac.FrameLength(s)..]);
    }
  }

  lemma {:induction false} DatasAt(ps: seq<Packet>, i: nat)
    requires i < |ps|
    ensures Datas(ps)[i] == ps[i].data
  {
    if i < |ps| - 1 {
      DatasAt(ps[..|ps| - 1], i);
    }
  }

  lemma {:induction false} RawOnesAre(ps: seq<Packet>)
    ensures |RawOnes(ps)| <= |ps|
    ensures |RawOnes(ps)| == |ps| <==> forall p <- ps :: Raw(p)
    ensures |RawOnes(ps)| == |ps| ==> RawOnes(ps) == ps
    ensures forall p <- RawOnes(ps) :: p in ps
  {
    hide Raw;
    if ps != [] {
      RawOnesAre(ps[..|ps| - 1]);
      assert ps == ps[..|ps| - 1] + [ps[|ps| - 1]];
    }
  }

  /** As long as its raw frames fit, a batch scans to them, and to nothing for other packets. */
  lemma BatchScans(frames: seq<Accepted>, ps: seq<Packet>)
    requires AllMade(frames, ps) && forall p <- ps :: Raw(p) ==> |p.data| <= Aac.MAX_RAW
    ensures Aac.Scan(Data(frames)) == Some(Datas(RawOnes(ps)))
  {
    hide AllMade, Aac.AllFrames, Data, Aac.Stream, Raw, RawOnes, Datas;
    var fs := FramesOf(frames, ps);
    RawOnesAre(ps);
    forall i | 0 <= i < |fs|
      ensures |fs[i].raw| <= Aac.MAX_RAW
    {
      DatasAt(RawOnes(ps), i);
      assert RawOnes(ps)[i] in ps && Raw(RawOnes(ps)[i]) by { RawOnesRaw(ps); }
    }
    Aac.ScanExact(fs);
  }

  lemma {:induction false} RawOnesRaw(ps: seq<Packet>)
    ensures forall p <- RawOnes(ps) :: p in ps && Raw(p)
  {
    hide Raw;
    if ps != [] {
      RawOnesRaw(ps[..|ps| - 1]);
    }
  }

  /** A batch splits back into its packets exactly when all are raw frames of at most 8184 bytes. */
  lemma BatchExact(frames: seq<Accepted>, ps: seq<Packet>)
    requires AllMade(frames, ps)
    ensures Aac.Scan(Data(frames)) == Some(Datas(ps)) <==> forall p <- ps :: FitsFrame(p)
  {
    hide AllMade, Data, RawOnes, Datas, Raw;
    RawOnesAre(ps);
    if forall p <- ps :: FitsFrame(p) {
      BatchScans(frames, ps);
    }
    if Aac.Scan(Data(frames)) == Some(Datas(ps)) {
      ScannedFit(Data(frames));
      forall p <- ps
        ensures |p.data| <= Aac.MAX_RAW
      {
        var i :| 0 <= i < |ps| && ps[i] == p;
        DatasAt(ps, i);
      }
      BatchScans(frames, ps);
    }
  }
}
