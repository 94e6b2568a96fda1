/** The AAC parser: it puts an ADTS header before each raw frame. */
module Aac {
  import opened Bytes
  import opened Buffers

  const RATES := [96000, 88200, 64000, 48000, 44100, 32000, 24000, 22050, 16000, 12000, 11025, 8000, 7350]
  const DEFAULT_RATE := 44100
  const HEADER_LENGTH := 7
  const MAX_RAW := 8184

  /** The stream's configuration, in the widths it is sent in. */
  datatype Config = Config(objectType: nat, sampleRate: nat, channel: nat)
  {
    predicate Valid() { objectType < 32 && sampleRate < 16 && channel < 16 }
  }

  function ConfigOf(src: seq<byte>): (c: Option<Config>)
    ensures c.Some? ==> c.value.Valid()
  {
    if |src| < 2 then None
    else Some(Config(src[0] / 8, src[0] % 8 * 2 + src[1] / 128, src[1] / 8 % 16))
  }

  /** The two bytes an encoder sends for a configuration. */
  function ConfigBytes(c: Config): seq<byte>
    requires c.Valid()
  {
    [c.objectType * 8 + c.sampleRate / 2, c.sampleRate % 2 * 128 + c.channel * 8]
  }

  lemma ConfigFields(o: nat, r: nat, q: nat, channel: nat)
    requires o < 32 && r < 8 && q < 2 && channel < 16
    ensures (o * 8 + r) / 8 == o && (o * 8 + r) % 8 == r
    ensures (q * 128 + channel * 8) / 128 == q && (q * 128 + channel * 8) / 8 % 16 == channel
  {
    ModUnique(o * 8 + r, 8, o, r);
    ModUnique(q * 128 + channel * 8, 128, q, channel * 8);
    ModUnique(q * 128 + channel * 8, 8, q * 16 + channel, 0);
    ModUnique(q * 16 + channel, 16, q, channel);
  }

  lemma ConfigFrom(x: byte, y: byte, rest: seq<byte>)
    ensures ConfigOf([x, y] + rest) == Some(Config(x / 8, x % 8 * 2 + y / 128, y / 8 % 16))
  {
  }

  lemma ConfigOfFields(o: nat, r: nat, q: nat, channel: nat, rest: seq<byte>)
    requires o < 32 && r < 8 && q < 2 && channel < 16
    ensures ConfigOf([o * 8 + r, q * 128 + channel * 8] + rest) == Some(Config(o, r * 2 + q, channel))
  {
    hide ConfigOf;
    ConfigFrom(o * 8 + r, q * 128 + channel * 8, rest);
    ConfigFields(o, r, q, channel);
  }

  lemma ConfigRoundTrip(c: Config, rest: seq<byte>)
    requires c.Valid()
    ensures ConfigOf(ConfigBytes(c) + rest) == Some(c)
  {
    hide ConfigOf;
    ConfigOfFields(c.objectType, c.sampleRate / 2, c.sampleRate % 2, c.channel, rest);
  }

  /** From the highest bit on: five bits, four bits and four bits, as section 1.6.2.1 of ISO/IEC 14496-3 has them. */
  lemma ConfigIs(src: seq<byte>)
    requires |src| >= 2
    ensures var v := src[0] as int * 256 + src[1];
            ConfigOf(src) == Some(Config(v / 0x800, v / 0x80 % 16, v / 8 % 16))
  {
    var x, y := src[0] as int, src[1] as int;
    ModUnique(x * 256 + y, 0x800, x / 8, x % 8 * 256 + y);
    ModUnique(x * 256 + y, 0x80, 2 * x + y / 128, y % 128);
    ModUnique(2 * x + y / 128, 16, x / 8, x % 8 * 2 + y / 128);
    ModUnique(x * 256 + y, 8, 32 * x + y / 8, y % 8);
    ModUnique(32 * x + y / 8, 16, 2 * x + y / 128, y / 8 % 16);
  }

  // ---- The header, field by field as section 6.2 of ISO/IEC 13818-7 has them

  function Profile(h: seq<byte>): nat
    requires |h| >= HEADER_LENGTH
  {
    h[2] / 64
  }

  function RateIndex(h: seq<byte>): nat
    requires |h| >= HEADER_LENGTH
  {
    h[2] / 4 % 16
  }

  function Channels(h: seq<byte>): nat
    requires |h| >= HEADER_LENGTH
  {
    h[2] % 2 * 4 + h[3] / 64
  }

  function FrameLength(h: seq<byte>): nat
    requires |h| >= HEADER_LENGTH
  {
    h[3] % 4 * 2048 + h[4] as int * 8 + h[5] / 32
  }

  /** The header in front of `n` raw bytes says what it should, but for what does not fit. */
  ghost predicate HeaderFor(h: seq<byte>, c: Config, n: nat) {
    && |h| == HEADER_LENGTH && h[0] == 0xff && h[1] == 0xf1 && h[6] == 0xfc
    && Profile(h) == (c.objectType + 3) % 4
    && RateIndex(h) == c.sampleRate
    && Channels(h) == c.channel % 4
    && FrameLength(h) == (n + HEADER_LENGTH) % 0x2000
    && h[2] % 4 == 0 && h[3] / 4 % 16 == 0 && h[5] % 32 == 31
  }

  /** What of a header is right: the profiles 1 to 4, up to three channels, up to 8184 raw bytes. */
  lemma HeaderExact(h: seq<byte>, c: Config, n: nat)
    requires HeaderFor(h, c, n) && c.Valid()
    ensures Profile(h) == c.objectType - 1 <==> 1 <= c.objectType <= 4
    ensures Channels(h) == c.channel <==> c.channel < 4
    ensures FrameLength(h) == n + HEADER_LENGTH <==> n <= MAX_RAW
  {
  }

  // ---- Frames and the scanner --------------------------------------------

  datatype Frame = Frame(header: seq<byte>, config: Config, raw: seq<byte>)

  ghost predicate AllFrames(fs: seq<Frame>) {
    forall i | 0 <= i < |fs| :: HeaderFor(fs[i].header, fs[i].config, |fs[i].raw|)
  }

  function Stream(fs: seq<Frame>): seq<byte> {
    if fs == [] then [] else fs[0].header + fs[0].raw + Stream(fs[1..])
  }

  function Raws(fs: seq<Frame>): (r: seq<seq<byte>>)
    ensures |r| == |fs| && forall i | 0 <= i < |fs| :: r[i] == fs[i].raw
  {
    seq(|fs|, i requires 0 <= i < |fs| => fs[i].raw)
  }

  /** The raw frames of a byte stream, from header to header by the frame length. */
  function Scan(s: seq<byte>): Option<seq<seq<byte>>> {
    if s == [] then Some([])
    else if |s| < HEADER_LENGTH || s[0] != 0xff || s[1] != 0xf1 then None
    else
      var n := FrameLength(s);
      if n < HEADER_LENGTH || n > |s| then None
      else
        match Scan(s[n..])
        case None => None
        case Some(rest) => Some([s[HEADER_LENGTH..n]] + rest)
  }

  ghost predicate AllFit(fs: seq<Frame>) {
    forall i | 0 <= i < |fs| :: |fs[i].raw| <= MAX_RAW
  }

  lemma ScanStep(h: seq<byte>, c: Config, raw: seq<byte>, rest: seq<byte>)
    requires HeaderFor(h, c, |raw|)
    ensures var s := h + raw + rest;
            if |raw| <= MAX_RAW
            then Scan(s) == (match Scan(rest) case None => None case Some(rs) => Some([raw] + rs))
            else Scan(s).None? || |Scan(s).value[0]| < |raw|
  {
    var s := h + raw + rest;
    assert FrameLength(s) == FrameLength(h);
    var n := FrameLength(s);
    if |raw| <= MAX_RAW {
      assert n == HEADER_LENGTH + |raw|;
      assert s[n..] == rest && s[HEADER_LENGTH..n] == raw;
    } else if HEADER_LENGTH <= n <= |s| && Scan(s).Some? {
      assert Scan(s).value[0] == s[HEADER_LENGTH..n];
    }
  }

  /** The scanner recovers the raw frames exactly when none is longer than 8184 bytes. */
  lemma {:induction false} ScanExact(fs: seq<Frame>)
    requires AllFrames(fs)
    ensures Scan(Stream(fs)) == Some(Raws(fs)) <==> AllFit(fs)
  {
    if fs != [] {
      hide Scan, HeaderFor, Raws, AllFit;
      var f, rest := fs[0], fs[1..];
      ScanExact(rest);
      ScanStep(f.header, f.config, f.raw, Stream(rest));
      FitStep(fs);
      if |f.raw| <= MAX_RAW && Scan(Stream(rest)).Some? {
        ConsEqual(f.raw, Scan(Stream(rest)).value, f.raw, Raws(rest));
      }
    }
  }

  lemma FitStep(fs: seq<Frame>)
    requires fs != []
    ensures AllFit(fs) <==> |fs[0].raw| <= MAX_RAW && AllFit(fs[1..])
    ensures Raws(fs) == [fs[0].raw] + Raws(fs[1..])
  {
    assert forall i | 1 <= i < |fs| :: fs[i] == fs[1..][i - 1];
  }

  lemma StreamStep(fs: seq<Frame>)
    requires fs != []
    ensures Stream(fs) == (fs[0].header + fs[0].raw) + Stream(fs[1..])
  {
  }

  lemma {:induction false} StreamConcat(a: seq<Frame>, b: seq<Frame>)
    ensures Stream(a + b) == Stream(a) + Stream(b)
  {
    if a == [] {
      assert a + b == b;
    } else {
      StreamConcat(a[1..], b);
      assert (a + b)[1..] == a[1..] + b;
      StreamStep(a);
      StreamStep(a + b);
      hide Stream;
      Assoc(a[0].header + a[0].raw, Stream(a[1..]), Stream(b));
    }
  }

  // ---- The parser --------------------------------------------------------

  datatype Status = Done | SpecificBufInvalid | AudioBufInvalid

  /** The bits of a 16-bit length that go into the three length fields. */
  lemma LengthBits(p: nat, q: nat, r: nat, d: nat)
    requires p < 8 && q < 4 && r < 256 && d < 8
    ensures var f := 8192 * p + 2048 * q + 8 * r + d;
            && f * 8 % 0x1_0000 / 0x4000 == q
            && f * 32 % 0x1_0000 / 0x100 % 256 == r
            && f * 0x2000 % 0x1_0000 / 0x2000 * 32 % 256 == d * 32
  {
    var f := 8192 * p + 2048 * q + 8 * r + d;
    ModUnique(f * 8, 0x1_0000, p, 16384 * q + 64 * r + 8 * d);
    ModUnique(16384 * q + 64 * r + 8 * d, 0x4000, q, 64 * r + 8 * d);
    ModUnique(f * 32, 0x1_0000, 4 * p + q, 256 * r + 32 * d);
    ModUnique(256 * r + 32 * d, 0x100, r, 32 * d);
    ModUnique(f * 0x2000, 0x1_0000, 1024 * p + 256 * q + r, 0x2000 * d);
    ModUnique(0x2000 * d, 0x2000, d, 0);
  }

  /** The fields of a 16-bit length. */
  lemma LengthFields(n: nat) returns (p: nat, q: nat, r: nat, d: nat)
    ensures p < 8 && q < 4 && r < 256 && d < 8
    ensures (n + 7) % 0x1_0000 == 8192 * p + 2048 * q + 8 * r + d
    ensures (n + 7) % 0x2000 == 2048 * q + 8 * r + d
  {
    var f := (n + 7) % 0x1_0000;
    p := f / 8192;
    var x := f - 8192 * p;
    q := x / 2048;
    var y := x - 2048 * q;
    r, d := y / 8, y % 8;
    ModUnique(n + 7, 0x2000, (n + 7) / 0x1_0000 * 8 + p, 2048 * q + 8 * r + d);
  }

  lemma ProfileField(o: nat, rate: nat)
    requires o < 32 && rate < 16
    ensures var b := (o + 255) % 256 * 64 % 256 + rate * 4;
            b < 256 && b / 64 == (o + 3) % 4 && b / 4 % 16 == rate && b % 4 == 0
  {
    var t, x := (o + 3) % 4, (o + 255) % 256;
    assert (o + 255) % 256 * 64 % 256 == 64 * t by {
      var m := x / 4;
      assert x == 4 * m + t;
      ModUnique(x * 64, 256, m, 64 * t);
    }
    var b := 64 * t + rate * 4;
    ModUnique(b, 64, t, rate * 4);
    ModUnique(b, 4, 16 * t + rate, 0);
    ModUnique(16 * t + rate, 16, t, rate);
  }

  lemma ChannelField(channel: nat, x: nat)
    requires channel < 16 && x < 4
    ensures var b := channel * 4 * 16 % 256 + x;
            b < 256 && b / 64 == channel % 4 && b % 4 == x && b / 4 % 16 == 0
  {
    var u, v := channel / 4, channel % 4;
    ModUnique(channel * 64, 256, u, 64 * v);
    ModUnique(64 * v + x, 64, v, x);
    ModUnique(64 * v + x, 4, 16 * v, x);
    ModUnique(16 * v, 16, v, 0);
  }

  // The header's bytes from 16-bit and 8-bit shifts; the operands of each `|` have no bit in common.

  function FrameLen(n: nat): nat {
    (n + 7) % 0x1_0000
  }

  function ProfileByte(c: Config): byte
    requires c.Valid()
  {
    ProfileField(c.objectType, c.sampleRate);
    (c.objectType + 255) % 256 * 64 % 256 + c.sampleRate * 4
  }

  function ChannelByte(c: Config, n: nat): byte
    requires c.Valid()
  {
    LengthBytes(n);
    ChannelField(c.channel, FrameLen(n) * 8 % 0x1_0000 / 0x4000);
    c.channel * 4 * 16 % 256 + FrameLen(n) * 8 % 0x1_0000 / 0x4000
  }

  function MiddleByte(n: nat): byte {
    FrameLen(n) * 32 % 0x1_0000 / 0x100 % 256
  }

  function LastByte(n: nat): byte {
    LengthBytes(n);
    FrameLen(n) * 0x2000 % 0x1_0000 / 0x2000 * 32 % 256 + 31
  }

  function Header(c: Config, n: nat): seq<byte>
    requires c.Valid()
  {
    [0xff, 0xf1, ProfileByte(c), ChannelByte(c, n), MiddleByte(n), LastByte(n), 0xfc]
  }

  /** The length fields in three bytes. */
  lemma LengthBytes(n: nat)
    ensures FrameLen(n) * 8 % 0x1_0000 / 0x4000 < 4
    ensures FrameLen(n) * 0x2000 % 0x1_0000 / 0x2000 * 32 % 256 < 225
    ensures (n + 7) % 0x2000
         == FrameLen(n) * 8 % 0x1_0000 / 0x4000 * 2048 + MiddleByte(n) as int * 8
            + (FrameLen(n) * 0x2000 % 0x1_0000 / 0x2000 * 32 % 256 + 31) / 32
    ensures (FrameLen(n) * 0x2000 % 0x1_0000 / 0x2000 * 32 % 256 + 31) % 32 == 31
  {
    var p, q, r, d := LengthFields(n);
    LengthBits(p, q, r, d);
    ModUnique(d * 32 + 31, 32, d, 31);
  }

  lemma ProfileByteIs(c: Config)
    requires c.Valid()
    ensures ProfileByte(c) / 64 == (c.objectType + 3) % 4
    ensures ProfileByte(c) / 4 % 16 == c.sampleRate && ProfileByte(c) % 4 == 0
  {
    ProfileField(c.objectType, c.sampleRate);
  }

  lemma LengthBytesAre(c: Config, n: nat)
    requires c.Valid()
    ensures ChannelByte(c, n) / 64 == c.channel % 4 && ChannelByte(c, n) / 4 % 16 == 0 && LastByte(n) % 32 == 31
    ensures ChannelByte(c, n) % 4 * 2048 + MiddleByte(n) as int * 8 + LastByte(n) / 32 == (n + 7) % 0x2000
  {
    hide MiddleByte, FrameLen;
    LengthBytes(n);
    ChannelField(c.channel, FrameLen(n) * 8 % 0x1_0000 / 0x4000);
  }

  lemma HeaderIs(c: Config, n: nat)
    requires c.Valid()
    ensures HeaderFor(Header(c, n), c, n)
  {
    hide ProfileByte, ChannelByte, MiddleByte, LastByte;
    ProfileByteIs(c);
    LengthBytesAre(c, n);
  }

  class Parser {
    var gettedSpecific: bool
    var objectType: nat
    var sampleRate: nat
    var channel: nat
    const adtsHeader: array<byte>

    ghost predicate Valid()
      reads this
    {
      adtsHeader.Length == HEADER_LENGTH && Contents().Valid()
    }

    function Contents(): Config
      reads this
    {
      Config(objectType, sampleRate, channel)
    }

    constructor ()
      ensures Valid() && fresh(adtsHeader) && !gettedSpecific && Contents() == Config(0, 0, 0)
    {
      gettedSpecific, objectType, sampleRate, channel := false, 0, 0, 0;
      adtsHeader := new byte[HEADER_LENGTH](_ => 0);
    }

    method SpecificInfo(src: seq<byte>) returns (status: Status)
      requires Valid()
      modifies this
      ensures Valid()
      ensures ConfigOf(src).None? ==> status == SpecificBufInvalid && Contents() == old(Contents()) && gettedSpecific == old(gettedSpecific)
      ensures ConfigOf(src).Some? ==> status == Done && Contents() == ConfigOf(src).value && gettedSpecific
    {
      if |src| < 2 {
        return SpecificBufInvalid;
      }
      gettedSpecific := true;
      objectType := src[0] / 8;
      sampleRate := src[0] % 8 * 2 + src[1] / 128;
      channel := src[1] / 8 % 16;
      status := Done;
    }

    /** Writes one ADTS frame, unless there is nothing to write or the configuration is missing. */
    method Adts(src: seq<byte>, w: Buffer) returns (status: Status)
      requires Valid()
      modifies adtsHeader, w
      ensures src == [] || !gettedSpecific ==> status == AudioBufInvalid && w.bytes == old(w.bytes)
      ensures src != [] && gettedSpecific ==> status == Done && HeaderFor(adtsHeader[..], Contents(), |src|)
      ensures src != [] && gettedSpecific ==> adtsHeader[..] == Header(Contents(), |src|)
      ensures src != [] && gettedSpecific ==> w.bytes == old(w.bytes) + adtsHeader[..] + src
    {
      if |src| <= 0 || !gettedSpecific {
        return AudioBufInvalid;
      }
      hide HeaderFor, ProfileByte, ChannelByte, MiddleByte, LastByte;
      var n := |src|;
      adtsHeader[0] := 0xff;
      adtsHeader[1] := 0xf1;
      adtsHeader[2] := ProfileByte(Contents());
      adtsHeader[3] := ChannelByte(Contents(), n);
      adtsHeader[4] := MiddleByte(n);
      adtsHeader[5] := LastByte(n);
      adtsHeader[6] := 0xfc;
      HeaderIs(Contents(), |src|);
      assert adtsHeader[..] == Header(Contents(), |src|);
      w.Write(adtsHeader[..]);
      w.Write(src);
      status := Done;
    }

    /** The rate the index stands for; 44100 where it stands for none. */
    method SampleRate() returns (rate: nat)
      ensures rate == if sampleRate < |RATES| then RATES[sampleRate] else DEFAULT_RATE
    {
      rate := DEFAULT_RATE;
      if sampleRate <= |RATES| - 1 {
        rate := RATES[sampleRate];
      }
    }
  }
}
