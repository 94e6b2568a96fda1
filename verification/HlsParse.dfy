/** What the codec parsers make of each packet before it is muxed. */
module HlsParse {
  import opened Bytes
  import opened Buffers
  import opened HlsSpec
  import TsSpec
  import H264Spec
  import H264
  import Aac

  const VIDEO_H264 := 7
  const SOUND_AAC := 10
  const FRAME_KEY := 1
  const SEQUENCE_HEADER := 0
  const AAC_RAW := 1

  /** The header of a demultiplexed tag. */
  datatype Tag =
    | VideoTag(frameType: nat, codecId: nat, avcPacketType: nat, composition: int)
    | AudioTag(soundFormat: nat, aacPacketType: nat)
  {
    predicate IsKeyFrame() { VideoTag? && frameType == FRAME_KEY }

    predicate IsSeq() { VideoTag? && frameType == FRAME_KEY && avcPacketType == SEQUENCE_HEADER }

    /** A codec the segmenter takes. */
    predicate Supported() { if VideoTag? then codecId == VIDEO_H264 else soundFormat == SOUND_AAC }
  }

  datatype Packet = Packet(tag: Tag, timestamp: nat, data: seq<byte>)

  /** What the parsers remember: parameter sets, and whether and how audio is configured. */
  datatype Parsers = Parsers(info: seq<H264Spec.Nal>, got: bool, config: Aac.Config)
  {
    predicate Valid() { config.Valid() }

    function Rate(): (r: nat)
      ensures r > 0
    {
      if config.sampleRate < |Aac.RATES| then Aac.RATES[config.sampleRate] else Aac.DEFAULT_RATE
    }
  }

  const FRESH := Parsers([], false, Aac.Config(0, 0, 0))

  /** The converted bytes of a video tag that is not a sequence header. */
  function Convert(info: seq<H264Spec.Nal>, data: seq<byte>): Option<seq<byte>> {
    if H264Spec.START_CODE <= data then Some(data)
    else if |data| < 4 || H264Spec.UnitsOf(data).status != H264Spec.Done then None
    else Some(H264Spec.Annexed(H264Spec.Output(H264Spec.UnitsOf(data).nals, info)))
  }

  /** A packet of a supported codec: the parsers afterwards, and the bytes written, if it is no error. */
  function ParseTag(ps: Parsers, p: Packet): (Parsers, Option<seq<byte>>)
    requires ps.Valid() && p.tag.Supported()
  {
    if p.tag.IsSeq() then
      match H264Spec.SpecificOf(p.data)
      case Bad(_) => (ps, None)
      case Sets(sps, pps) => (ps.(info := ps.info + [sps, pps]), Some([]))
    else if p.tag.VideoTag? then (ps, Convert(ps.info, p.data))
    else if p.tag.aacPacketType == SEQUENCE_HEADER then
      match Aac.ConfigOf(p.data)
      case None => (ps, None)
      case Some(c) => (ps.(got := true, config := c), Some([]))
    else if p.tag.aacPacketType == AAC_RAW then
      (ps, if p.data == [] || !ps.got then None else Some(Aac.Header(ps.config, |p.data|) + p.data))
    else (ps, Some([]))
  }

  predicate Header(t: Tag) {
    t.IsSeq() || (t.AudioTag? && t.aacPacketType == SEQUENCE_HEADER)
  }

  /** What the segmenter is given of a packet, if anything. */
  function Accept(ps: Parsers, p: Packet): (a: Option<Accepted>)
    requires ps.Valid()
    ensures a.Some? ==> a.value.Valid()
  {
    if !p.tag.Supported() || Header(p.tag) then None
    else
      match ParseTag(ps, p).1
      case None => None
      case Some(data) =>
        if p.tag.VideoTag? then Some(Video(TsSpec.Frame(true, p.tag.IsKeyFrame(), p.timestamp, p.tag.composition, data)))
        else Some(Audio(p.timestamp, ps.Rate(), data))
  }

  function Next(ps: Parsers, p: Packet): (r: Parsers)
    requires ps.Valid()
    ensures r.Valid()
  {
    if p.tag.Supported() then ParseTag(ps, p).0 else ps
  }

  class CodecParser {
    var aac: Aac.Parser?
    var h264: H264.Parser?

    ghost function Footprint(): set<object>
      reads this, aac
    {
      {this} + (if aac == null then {} else {aac, aac.adtsHeader}) + (if h264 == null then {} else {h264})
    }

    ghost predicate Valid()
      reads this, aac, h264
    {
      && (aac != null ==> aac.Valid())
      && (h264 != null ==> h264.Valid())
      && Contents().Valid()
    }

    ghost function Contents(): Parsers
      reads this, aac, h264
    {
      Parsers(if h264 == null then [] else h264.info,
              aac != null && aac.gettedSpecific,
              if aac == null then Aac.Config(0, 0, 0) else aac.Contents())
    }

    constructor ()
      ensures Valid() && Contents() == FRESH && fresh(Footprint())
    {
      aac, h264 := null, null;
    }

    method ParseVideo(p: Packet, w: Buffer) returns (ok: bool)
      requires Valid() && p.tag.VideoTag? && p.tag.Supported()
      modifies Footprint(), w
      ensures Valid() && fresh(Footprint() - old(Footprint()))
      ensures var r := ParseTag(old(Contents()), p); Contents() == r.0 && ok == r.1.Some?
      ensures ok ==> w.bytes == old(w.bytes) + ParseTag(old(Contents()), p).1.value
    {
      hide H264Spec.SpecificOf, H264Spec.UnitsOf, H264Spec.Output, H264Spec.Annexed, Aac.Header;
      if h264 == null {
        h264 := new H264.Parser();
      }
      var status := h264.Parse(p.data, p.tag.IsSeq(), w);
      ok := status == H264Spec.Done;
    }

    method ParseAudio(p: Packet, w: Buffer) returns (ok: bool)
      requires Valid() && p.tag.AudioTag? && p.tag.Supported()
      modifies Footprint(), w
      ensures Valid() && fresh(Footprint() - old(Footprint()))
      ensures var r := ParseTag(old(Contents()), p); Contents() == r.0 && ok == r.1.Some?
      ensures ok ==> w.bytes == old(w.bytes) + ParseTag(old(Contents()), p).1.value
      ensures aac != null
    {
      hide Aac.Header, Aac.HeaderFor, Aac.ConfigOf;
      if aac == null {
        aac := new Aac.Parser();
      }
      ok := true;
      if p.tag.aacPacketType == SEQUENCE_HEADER {
        var status := aac.SpecificInfo(p.data);
        ok := status == Aac.Done;
      } else if p.tag.aacPacketType == AAC_RAW {
        var status := aac.Adts(p.data, w);
        ok := status == Aac.Done;
      }
    }

    /** Hands a packet to the parser of its codec, which is made when it is first needed. */
    method Parse(p: Packet, w: Buffer) returns (ok: bool)
      requires Valid() && p.tag.Supported()
      modifies Footprint(), w
      ensures Valid() && fresh(Footprint() - old(Footprint()))
      ensures var r := ParseTag(old(Contents()), p); Contents() == r.0 && ok == r.1.Some?
      ensures ok ==> w.bytes == old(w.bytes) + ParseTag(old(Contents()), p).1.value
      ensures p.tag.AudioTag? ==> aac != null
    {
      if p.tag.VideoTag? {
        ok := ParseVideo(p, w);
      } else {
        ok := ParseAudio(p, w);
      }
    }

    /** Asked for only when an audio packet has been accepted. */
    method SampleRate() returns (rate: nat)
      requires Valid() && aac != null
      ensures rate == Contents().Rate()
    {
      rate := aac.SampleRate();
    }
  }
}
