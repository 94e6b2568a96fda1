/**
 MPEG transport stream packets on values (ISO/IEC 13818-1, sections 2.4.3.2 to
 2.4.3.7): the PES packet of a frame, the transport packets that carry it, and
 a depacketiser that knows nothing of the muxer.
 */
module TsSpec {
  import opened Bytes

  const PACKET_LEN := 188
  const PAYLOAD_LEN := 184
  const H264_HZ := 90
  const VIDEO_PID := 0x100
  const AUDIO_PID := 0x101
  const VIDEO_SID: byte := 0xe0
  const AUDIO_SID: byte := 0xc0
  const CLOCK := 0x2_0000_0000

  /** A frame; `composition` is what a video header adds to the time stamp, in milliseconds. */
  datatype Frame = Frame(isVideo: bool, isKey: bool, timestamp: nat, composition: int, data: seq<byte>) {

    function Dts(): int {
      timestamp * H264_HZ
    }

    function Pts(): int {
      if isVideo then Dts() + composition * H264_HZ else Dts()
    }

    function Pid(): nat {
      if isVideo then VIDEO_PID else AUDIO_PID
    }

    /** Key frames carry a clock reference. */
    predicate WithPcr() {
      isVideo && isKey
    }

    predicate TwoStamps() {
      isVideo && Pts() != Dts()
    }
  }

  // ---- Time stamps -------------------------------------------------------

  /** `pesHeader.writeTs`: 33 bits in five bytes with marker bits. */
  function TimeField(fb: nat, ts: int): (s: seq<byte>)
    requires fb < 16
    ensures |s| == 5
  {
    var t := if ts > 0x1_ffff_ffff then ts - 0x1_ffff_ffff else ts;
    var high, middle, low := t / 0x4000_0000 % 8, t / 0x8000 % 0x8000 * 2 + 1, t % 0x8000 * 2 + 1;
    [fb * 16 + high * 2 + 1, middle / 256, middle % 256, low / 256, low % 256]
  }

  /** The value of a time field, whatever its marker bits. */
  function DecodeTime(s: seq<byte>): nat
    requires |s| == 5
  {
    (s[0] as int) / 2 % 8 * 0x4000_0000 + (s[1] as int * 256 + s[2]) / 2 * 0x8000 + (s[3] as int * 256 + s[4]) / 2
  }

  lemma Split33(t: int)
    ensures t / 0x4000_0000 % 8 * 0x4000_0000 + t / 0x8000 % 0x8000 * 0x8000 + t % 0x8000 == t % CLOCK
  {
    var q, h := t / 0x8000, t / 0x4000_0000;
    DivDiv(t, 0x8000, 0x8000);
    ModUnique(t, CLOCK, h / 8, h % 8 * 0x4000_0000 + q % 0x8000 * 0x8000 + t % 0x8000);
  }

  /** Fifteen bits over a marker bit, in two bytes. */
  lemma Marked(n: nat)
    requires n < 0x8000
    ensures ((n * 2 + 1) / 256 * 256 + (n * 2 + 1) % 256) / 2 == n
  {
    ModUnique(n * 2 + 1, 2, n, 1);
  }

  lemma MarkedHigh(fb: nat, n: nat)
    requires fb < 16 && n < 8
    ensures (fb * 16 + n * 2 + 1) / 2 % 8 == n
  {
    ModUnique(fb * 16 + n * 2 + 1, 2, fb * 8 + n, 1);
    ModUnique(fb * 8 + n, 8, fb, n);
  }

  lemma DecodeField(fb: nat, ts: int)
    requires fb < 16
    ensures DecodeTime(TimeField(fb, ts)) == (if ts > 0x1_ffff_ffff then ts - 0x1_ffff_ffff else ts) % CLOCK
  {
    var t := if ts > 0x1_ffff_ffff then ts - 0x1_ffff_ffff else ts;
    MarkedHigh(fb, t / 0x4000_0000 % 8);
    Marked(t / 0x8000 % 0x8000);
    Marked(t % 0x8000);
    Split33(t);
  }

  /** A time stamp survives its field exactly when it is below 2^33; beyond, the field is one too high. */
  lemma TimestampExact(fb: nat, ts: int)
    requires fb < 16
    ensures DecodeTime(TimeField(fb, ts)) == ts % CLOCK <==> ts < CLOCK
    ensures ts >= CLOCK ==> DecodeTime(TimeField(fb, ts)) == (ts + 1) % CLOCK
  {
    hide DecodeTime, TimeField;
    DecodeField(fb, ts);
  }

  /** `Muxer.writePcr`: the 33-bit base, reserved bits, and an extension of zero. */
  function PcrField(pcr: int): (s: seq<byte>)
    ensures |s| == 6
  {
    [pcr / 0x200_0000 % 256, pcr / 0x2_0000 % 256, pcr / 0x200 % 256, pcr / 2 % 256, pcr % 2 * 128 + 0x7e, 0]
  }

  function DecodePcr(s: seq<byte>): nat
    requires |s| == 6
  {
    s[0] as int * 0x200_0000 + s[1] as int * 0x2_0000 + s[2] as int * 0x200 + s[3] as int * 2 + s[4] as int / 128
  }

  /** The reference in base 256, over the lowest bit. */
  lemma PcrDigits(pcr: int)
    ensures pcr % CLOCK
            == pcr / 0x200_0000 % 256 * 0x200_0000 + pcr / 0x2_0000 % 256 * 0x2_0000 + pcr / 0x200 % 256 * 0x200
               + pcr / 2 % 256 * 2 + pcr % 2
  {
    var a, b, c, d := pcr / 2, pcr / 0x200, pcr / 0x2_0000, pcr / 0x200_0000;
    DivDiv(pcr, 2, 256);
    DivDiv(pcr, 0x200, 256);
    DivDiv(pcr, 0x2_0000, 256);
    var low := pcr / 0x200_0000 % 256 * 0x200_0000 + c % 256 * 0x2_0000 + b % 256 * 0x200 + a % 256 * 2 + pcr % 2;
    ModUnique(pcr, CLOCK, d / 256, low);
  }

  lemma PcrRoundTrip(pcr: int)
    ensures DecodePcr(PcrField(pcr)) == pcr % CLOCK
  {
    PcrDigits(pcr);
    var s, low := PcrField(pcr), pcr % 2;
    ModUnique(low * 128 + 0x7e, 128, low, 0x7e);
    assert s[4] as int / 128 == low;
  }

  lemma PcrMarks(pcr: int)
    ensures PcrField(pcr)[4] % 128 == 0x7e && PcrField(pcr)[5] == 0
  {
    ModUnique(pcr % 2 * 128 + 0x7e, 128, pcr % 2, 0x7e);
  }

  // ---- The PES packet ----------------------------------------------------

  function HeaderSize(f: Frame): nat {
    if f.TwoStamps() then 10 else 5
  }

  /** `pesHeader.packet`. */
  function PesHeader(f: Frame): (s: seq<byte>)
    ensures |s| == 9 + HeaderSize(f)
  {
    var size := |f.data| + HeaderSize(f) + 3;
    var field := if size > 0xffff then 0 else size;
    var flag := if f.TwoStamps() then 0xc0 else 0x80;
    [0, 0, 1, if f.isVideo then VIDEO_SID else AUDIO_SID, field / 256, field % 256, 0x80, flag, HeaderSize(f)]
    + TimeField(flag / 64, f.Pts())
    + (if f.TwoStamps() then TimeField(1, f.Dts()) else [])
  }

  function Pes(f: Frame): (s: seq<byte>)
    ensures |s| == 9 + HeaderSize(f) + |f.data|
  {
    PesHeader(f) + f.data
  }

  // ---- Transport packets -------------------------------------------------

  function NextCc(cc: nat): nat {
    (cc + 1) % 16
  }

  function PacketHeader(first: bool, pid: nat, cc: nat, adaptation: bool): (s: seq<byte>)
    requires pid < 0x2000 && cc < 16
    ensures |s| == 4
  {
    [0x47, pid / 256 + (if first then 0x40 else 0), pid % 256, 0x10 + (if adaptation then 0x20 else 0) + cc]
  }

  function Fill(n: nat): (s: seq<byte>)
    ensures |s| == n
  {
    seq(n, _ => 0xff)
  }

  /** An adaptation field of `n` bytes with nothing in it. */
  function Stuffing(n: nat): (s: seq<byte>)
    requires 1 <= n <= 256
    ensures |s| == n
  {
    if n == 1 then [0] else [n - 1, 0] + Fill(n - 2)
  }

  /** Everything before stuffing and payload. */
  function Prefix(first: bool, pcr: bool, pid: nat, cc: nat, dts: int, n: nat): (s: seq<byte>)
    requires pid < 0x2000 && cc < 16
    ensures |s| == if first && pcr then 12 else 4
  {
    if first && pcr then PacketHeader(first, pid, cc, true) + [7, 0x50] + PcrField(dts)
    else PacketHeader(first, pid, cc, n < PAYLOAD_LEN)
  }

  /** How many bytes of the PES packet the next transport packet takes. */
  function Taken(first: bool, pcr: bool, n: nat): (k: nat)
    requires n > 0
    ensures 0 < k <= n
  {
    if n < PAYLOAD_LEN then n else if first && pcr then PAYLOAD_LEN - 8 else PAYLOAD_LEN
  }

  /**
   What precedes the PES bytes in the next transport packet when `n` of them are
   left. Stuffing is counted in a byte: behind a clock reference fewer than 176
   bytes are stuffed outside the adaptation field, and 177 to 183 bytes
   overwrite its end.
   */
  function Lead(first: bool, pcr: bool, pid: nat, cc: nat, dts: int, n: nat): (s: seq<byte>)
    requires pid < 0x2000 && cc < 16 && n > 0
    ensures |s| == PACKET_LEN - Taken(first, pcr, n)
  {
    var prefix := Prefix(first, pcr, pid, cc, dts, n);
    if n >= PAYLOAD_LEN then prefix
    else if |prefix| + n < PACKET_LEN then prefix + Stuffing(PACKET_LEN - |prefix| - n)
    else prefix[..PACKET_LEN - n]
  }

  /** The next transport packet for the remaining bytes `rest`. */
  function OnePacket(first: bool, pcr: bool, pid: nat, cc: nat, dts: int, rest: seq<byte>): (s: seq<byte>)
    requires pid < 0x2000 && cc < 16 && rest != []
    ensures |s| == PACKET_LEN
  {
    Lead(first, pcr, pid, cc, dts, |rest|) + rest[..Taken(first, pcr, |rest|)]
  }

  function Packets(first: bool, pcr: bool, pid: nat, cc: nat, dts: int, rest: seq<byte>): seq<seq<byte>>
    requires pid < 0x2000 && cc < 16
    decreases |rest|
  {
    if rest == [] then []
    else
      var cc' := NextCc(cc);
      [OnePacket(first, pcr, pid, cc', dts, rest)]
      + Packets(false, pcr, pid, cc', dts, rest[Taken(first, pcr, |rest|)..])
  }

  /** The transport packets of a frame, continuing after counter value `cc`. */
  function FramePackets(f: Frame, cc: nat): seq<seq<byte>>
    requires cc < 16
  {
    Packets(true, f.WithPcr(), f.Pid(), cc, f.Dts(), Pes(f))
  }

  function Flatten(ps: seq<seq<byte>>): seq<byte> {
    if ps == [] then [] else ps[0] + Flatten(ps[1..])
  }

  lemma {:induction false} FlattenConcat(ps: seq<seq<byte>>, qs: seq<seq<byte>>)
    ensures Flatten(ps + qs) == Flatten(ps) + Flatten(qs)
  {
    if ps == [] {
      assert ps + qs == qs;
    } else {
      FlattenConcat(ps[1..], qs);
      assert (ps + qs)[1..] == ps[1..] + qs;
      Assoc(ps[0], Flatten(ps[1..]), Flatten(qs));
    }
  }

  // ---- A depacketiser ----------------------------------------------------

  predicate IsPacket(p: seq<byte>) {
    |p| == PACKET_LEN && p[0] == 0x47
  }

  function PidOf(p: seq<byte>): nat
    requires IsPacket(p)
  {
    (p[1] as int) % 32 * 256 + p[2]
  }

  predicate UnitStart(p: seq<byte>)
    requires IsPacket(p)
  {
    p[1] / 64 % 2 == 1
  }

  function CounterOf(p: seq<byte>): nat
    requires IsPacket(p)
  {
    p[3] % 16
  }

  /** The payload: what follows the header and the adaptation field, if there is one. */
  function Payload(p: seq<byte>): seq<byte>
    requires IsPacket(p)
  {
    if p[3] / 32 % 2 == 0 then p[4..]
    else if 5 + p[4] <= PACKET_LEN then p[5 + p[4]..]
    else []
  }

  function Payloads(ps: seq<seq<byte>>): seq<byte>
    requires forall p <- ps :: IsPacket(p)
  {
    if ps == [] then [] else Payload(ps[0]) + Payloads(ps[1..])
  }

  // ---- Theorems ----------------------------------------------------------

  /** No error, no priority, payload in the clear. */
  predicate IsOne(p: seq<byte>, start: bool, pid: nat, cc: nat) {
    && IsPacket(p) && UnitStart(p) == start && PidOf(p) == pid && CounterOf(p) == cc
    && p[1] < 128 && p[1] / 32 % 2 == 0 && p[3] / 16 % 2 == 1 && p[3] < 64
  }

  lemma PacketFields(first: bool, pcr: bool, pid: nat, cc: nat, dts: int, rest: seq<byte>)
    requires pid < 0x2000 && cc < 16 && rest != []
    ensures var p := OnePacket(first, pcr, pid, cc, dts, rest);
            IsOne(p, first, pid, cc)
  {
    hide PcrField, Stuffing;
    var p := OnePacket(first, pcr, pid, cc, dts, rest);
    assert p[..4] == Prefix(first, pcr, pid, cc, dts, |rest|)[..4];
    var h := PacketHeader(first, pid, cc, if first && pcr then true else |rest| < PAYLOAD_LEN);
    assert forall i | 0 <= i < 4 :: p[i] == p[..4][i] == h[i];
  }

  /** Behind a clock reference only these sizes leave the adaptation field as its length says. */
  predicate Fits(first: bool, pcr: bool, n: nat) {
    first && pcr ==> n >= PAYLOAD_LEN || n == PAYLOAD_LEN - 8
  }

  lemma PacketPayload(first: bool, pcr: bool, pid: nat, cc: nat, dts: int, rest: seq<byte>)
    requires pid < 0x2000 && cc < 16 && rest != []
    ensures var p := OnePacket(first, pcr, pid, cc, dts, rest);
            && IsPacket(p)
            && (Fits(first, pcr, |rest|) ==> Payload(p) == rest[..Taken(first, pcr, |rest|)])
            && (!Fits(first, pcr, |rest|) ==> |Payload(p)| == PAYLOAD_LEN - 8)
  {
    hide PcrField, IsPacket, Payload, Lead;
    PacketFields(first, pcr, pid, cc, dts, rest);
    if |rest| >= PAYLOAD_LEN {
      FullPayload(first, pcr, pid, cc, dts, rest);
    } else if !(first && pcr) {
      StuffedPayload(first, pcr, pid, cc, dts, rest);
    } else {
      KeyPayload(pid, cc, dts, rest);
    }
  }

  /** A packet without stuffing is its prefix and then payload. */
  lemma FullPayload(first: bool, pcr: bool, pid: nat, cc: nat, dts: int, rest: seq<byte>)
    requires pid < 0x2000 && cc < 16 && |rest| >= PAYLOAD_LEN
    ensures var p := OnePacket(first, pcr, pid, cc, dts, rest);
            IsPacket(p) && Payload(p) == rest[..Taken(first, pcr, |rest|)]
  {
    hide PcrField;
    PacketFields(first, pcr, pid, cc, dts, rest);
    var p := OnePacket(first, pcr, pid, cc, dts, rest);
    var prefix := Prefix(first, pcr, pid, cc, dts, |rest|);
    assert p[|prefix|..] == rest[..PACKET_LEN - |prefix|];
  }

  /** Stuffing says how long it is. */
  lemma StuffedPayload(first: bool, pcr: bool, pid: nat, cc: nat, dts: int, rest: seq<byte>)
    requires pid < 0x2000 && cc < 16 && 0 < |rest| < PAYLOAD_LEN && !(first && pcr)
    ensures var p := OnePacket(first, pcr, pid, cc, dts, rest); IsPacket(p) && Payload(p) == rest
    ensures rest[..Taken(first, pcr, |rest|)] == rest
  {
    hide PcrField;
    PacketFields(first, pcr, pid, cc, dts, rest);
    var p := OnePacket(first, pcr, pid, cc, dts, rest);
    var prefix, s := Prefix(first, pcr, pid, cc, dts, |rest|), Stuffing(PAYLOAD_LEN - |rest|);
    assert p == prefix + s + rest;
    assert p[4] == s[0];
    assert p[4 + |s|..] == rest;
  }

  lemma StuffedShape(first: bool, pcr: bool, pid: nat, cc: nat, dts: int, rest: seq<byte>)
    requires pid < 0x2000 && cc < 16 && 0 < |rest| && !(first && pcr)
    ensures var p, n := OnePacket(first, pcr, pid, cc, dts, rest), |rest|;
            && p[3] == PacketHeader(first, pid, cc, n < PAYLOAD_LEN)[3]
            && (n < PAYLOAD_LEN ==> p == PacketHeader(first, pid, cc, true) + Stuffing(PAYLOAD_LEN - n) + rest)
  {
    hide PcrField, Stuffing, PacketHeader;
    if |rest| < PAYLOAD_LEN { assert rest[..|rest|] == rest; }
  }

  /** Stuffing is an adaptation field without flags, filled with ones. */
  lemma StuffingIs(first: bool, pcr: bool, pid: nat, cc: nat, dts: int, rest: seq<byte>)
    requires pid < 0x2000 && cc < 16 && 0 < |rest| && !(first && pcr)
    ensures var p, n := OnePacket(first, pcr, pid, cc, dts, rest), |rest|;
            && (p[3] / 32 % 2 == 1 <==> n < 184)
            && (n < 184 ==> p[4] as int == 183 - n)
            && (n < 183 ==> p[5] == 0 && forall k | 6 <= k < 188 - n :: p[k] == 0xff)
  {
    hide Stuffing, OnePacket;
    StuffedShape(first, pcr, pid, cc, dts, rest);
    if |rest| < PAYLOAD_LEN {
      Middle(PacketHeader(first, pid, cc, true), Stuffing(PAYLOAD_LEN - |rest|), rest);
      StuffingBytes(PAYLOAD_LEN - |rest|);
    }
  }

  lemma Middle(a: seq<byte>, b: seq<byte>, c: seq<byte>)
    ensures forall k | |a| <= k < |a| + |b| :: (a + b + c)[k] == b[k - |a|]
  {
  }

  lemma StuffingBytes(n: nat)
    requires 1 <= n <= 256
    ensures Stuffing(n)[0] as int == n - 1 && (n > 1 ==> Stuffing(n)[1] == 0)
    ensures forall k | 2 <= k < n :: Stuffing(n)[k] == 0xff
  {
  }

  /** Behind a clock reference it does not count. */
  lemma KeyPayload(pid: nat, cc: nat, dts: int, rest: seq<byte>)
    requires pid < 0x2000 && cc < 16 && 0 < |rest| < PAYLOAD_LEN
    ensures var p := OnePacket(true, true, pid, cc, dts, rest);
            && IsPacket(p) && |Payload(p)| == PAYLOAD_LEN - 8
            && (|rest| == PAYLOAD_LEN - 8 ==> Payload(p) == rest)
    ensures rest[..Taken(true, true, |rest|)] == rest
  {
    hide PcrField;
    PacketFields(true, true, pid, cc, dts, rest);
    var p := OnePacket(true, true, pid, cc, dts, rest);
    if |rest| == PAYLOAD_LEN - 8 { assert p[12..] == rest; }
  }

  /** Packets of one stream: the first may start a unit, the counters follow `cc`. */
  ghost predicate Counted(ps: seq<seq<byte>>, first: bool, pid: nat, cc: nat) {
    forall i | 0 <= i < |ps| :: IsOne(ps[i], first && i == 0, pid, (cc + 1 + i) % 16)
  }

  lemma CountedCons(p: seq<byte>, qs: seq<seq<byte>>, first: bool, pid: nat, cc: nat)
    requires cc < 16 && IsOne(p, first, pid, NextCc(cc)) && Counted(qs, false, pid, NextCc(cc))
    ensures Counted([p] + qs, first, pid, cc)
  {
    hide IsOne, NextCc;
    var ps := [p] + qs;
    forall i | 0 <= i < |ps|
      ensures IsOne(ps[i], first && i == 0, pid, (cc + 1 + i) % 16)
    {
      CountOn(cc, i);
      if i > 0 { assert ps[i] == qs[i - 1]; }
    }
  }

  lemma CountOn(cc: nat, i: nat)
    requires cc < 16
    ensures NextCc(cc) == (cc + 1) % 16 && (NextCc(cc) + i) % 16 == (cc + 1 + i) % 16
  {
  }

  lemma {:induction false} PacketsAre(first: bool, pcr: bool, pid: nat, cc: nat, dts: int, rest: seq<byte>)
    requires pid < 0x2000 && cc < 16
    ensures Counted(Packets(first, pcr, pid, cc, dts, rest), first, pid, cc)
    decreases |rest|
  {
    hide OnePacket, IsOne, Counted;
    if rest == [] {
      NoneCounted(first, pid, cc);
    } else {
      var cc' := NextCc(cc);
      PacketFields(first, pcr, pid, cc', dts, rest);
      var tail := rest[Taken(first, pcr, |rest|)..];
      PacketsAre(false, pcr, pid, cc', dts, tail);
      CountedCons(OnePacket(first, pcr, pid, cc', dts, rest), Packets(false, pcr, pid, cc', dts, tail), first, pid, cc);
    }
  }

  lemma NoneCounted(first: bool, pid: nat, cc: nat)
    ensures Counted([], first, pid, cc)
  {
  }

  lemma {:induction false} PacketsPayload(first: bool, pcr: bool, pid: nat, cc: nat, dts: int, rest: seq<byte>)
    requires pid < 0x2000 && cc < 16
    ensures var ps := Packets(first, pcr, pid, cc, dts, rest);
            && (forall p <- ps :: IsPacket(p))
            && (Fits(first, pcr, |rest|) || rest == [] ==> Payloads(ps) == rest)
            && (rest != [] && !Fits(first, pcr, |rest|) ==> |Payloads(ps)| == PAYLOAD_LEN - 8 != |rest|)
    decreases |rest|
  {
    hide OnePacket, IsPacket, Payload;
    if rest != [] {
      var cc', k := NextCc(cc), Taken(first, pcr, |rest|);
      PacketPayload(first, pcr, pid, cc', dts, rest);
      PacketsPayload(false, pcr, pid, cc', dts, rest[k..]);
      assert rest[..k] + rest[k..] == rest;
      assert Packets(first, pcr, pid, cc, dts, rest)[1..] == Packets(false, pcr, pid, cc', dts, rest[k..]);
    }
  }

  /**
   A depacketiser recovers the PES packet of a frame, and nothing stale, exactly
   unless it is a key frame whose PES packet is shorter than 184 bytes and does
   not happen to be 176 bytes long.
   */
  lemma DepacketiseExact(f: Frame, cc: nat)
    requires cc < 16
    ensures var ps, n := FramePackets(f, cc), |Pes(f)|;
            && (forall p <- ps :: IsPacket(p))
            && (Payloads(ps) == Pes(f) <==> !(f.isVideo && f.isKey && n < 184 && n != 176))
  {
    PacketsPayload(true, f.WithPcr(), f.Pid(), cc, f.Dts(), Pes(f));
  }

  lemma {:induction false} PacketCount(first: bool, pcr: bool, pid: nat, cc: nat, dts: int, rest: seq<byte>)
    requires pid < 0x2000 && cc < 16
    ensures |Packets(first, pcr, pid, cc, dts, rest)|
            == (|rest| + (if first && pcr && |rest| >= PAYLOAD_LEN then 8 else 0) + PAYLOAD_LEN - 1) / PAYLOAD_LEN
    decreases |rest|
  {
    hide OnePacket;
    if rest != [] {
      PacketCount(false, pcr, pid, NextCc(cc), dts, rest[Taken(first, pcr, |rest|)..]);
    }
  }

  /** The length field of a PES packet counts the bytes behind it, or is 0 when they are too many. */
  lemma PesLength(f: Frame)
    ensures var s := Pes(f);
            s[4] as int * 256 + s[5] == if |s| - 6 > 0xffff then 0 else |s| - 6
  {
    var header := PesHeader(f);
    assert Pes(f)[4] == header[4] && Pes(f)[5] == header[5];
  }

  /** A reader's presentation time, decoding time and payload of a PES packet, by its flags and its header length. */
  function ReadPts(s: seq<byte>): nat
    requires |s| >= 14
  {
    DecodeTime(s[9..14])
  }

  predicate HasDts(s: seq<byte>)
    requires |s| >= 14
  {
    s[7] / 64 % 2 == 1
  }

  function ReadDts(s: seq<byte>): nat
    requires |s| >= 14
  {
    if HasDts(s) && |s| >= 19 then DecodeTime(s[14..19]) else DecodeTime(s[9..14])
  }

  /** Where the fields of a PES packet are. */
  lemma PesParts(f: Frame)
    ensures var s := Pes(f);
            && |s| >= 14 && (HasDts(s) <==> f.TwoStamps()) && (f.TwoStamps() ==> |s| >= 19)
            && s[9..14] == TimeField(if f.TwoStamps() then 3 else 2, f.Pts())
            && (f.TwoStamps() ==> s[14..19] == TimeField(1, f.Dts()))
            && s[8] as int == HeaderSize(f) && s[9 + HeaderSize(f)..] == f.data
            && s[..4] == [0, 0, 1, if f.isVideo then 0xe0 else 0xc0]
  {
    hide TimeField, Frame.TwoStamps, Frame.Pts, Frame.Dts;
    var s, h := Pes(f), PesHeader(f);
    assert s == h + f.data;
    assert s[..4] == h[..4] == [0, 0, 1, if f.isVideo then 0xe0 else 0xc0];
    assert s[7] == h[7] && s[8] == h[8];
  }

  /**
   A reader of a PES packet finds video under stream id 0xe0 and sound under 0xc0.
   With 90 ticks to a millisecond, it finds the time stamp plus the composition
   time of video as presentation time modulo 2^33 exactly when that is below
   2^33; a decoding time of its own exactly when there is a composition time, and
   the time stamp there under the same condition; and the payload behind the
   header.
   */
  lemma PesStamps(f: Frame)
    ensures var s, dts := Pes(f), f.timestamp * 90;
            var pts := if f.isVideo then (f.timestamp + f.composition) * 90 else dts;
            && |s| >= 14 && s[..4] == [0, 0, 1, if f.isVideo then 0xe0 else 0xc0]
            && (ReadPts(s) == pts % 0x2_0000_0000 <==> pts < 0x2_0000_0000)
            && (HasDts(s) <==> f.isVideo && f.composition != 0)
            && (ReadDts(s) == dts % 0x2_0000_0000 <==> dts < 0x2_0000_0000)
            && 9 + s[8] as int <= |s| && s[9 + s[8] as int..] == f.data
  {
    hide TimeField, DecodeTime, Pes, Frame.Pts, Frame.Dts, HeaderSize;
    PesParts(f);
    TimestampExact(if f.TwoStamps() then 3 else 2, f.Pts());
    TimestampExact(1, f.Dts());
    SameTime(f);
  }

  /** The four bits in front of a time field and its three marker bits. */
  predicate MarkedAs(s: seq<byte>, bits: nat) {
    |s| == 5 && s[0] / 16 == bits && s[0] % 2 == 1 && s[2] % 2 == 1 && s[4] % 2 == 1
  }

  lemma FieldMarked(fb: nat, ts: int)
    requires fb < 16
    ensures MarkedAs(TimeField(fb, ts), fb)
  {
    var t := if ts > 0x1_ffff_ffff then ts - 0x1_ffff_ffff else ts;
    var high := t / 0x4000_0000 % 8;
    ModUnique(fb * 16 + high * 2 + 1, 16, fb, high * 2 + 1);
    ModUnique(fb * 16 + high * 2 + 1, 2, fb * 8 + high, 1);
    OddByte(t / 0x8000 % 0x8000);
    OddByte(t % 0x8000);
  }

  lemma OddByte(n: nat)
    ensures (n * 2 + 1) % 256 % 2 == 1
  {
    var q := (n * 2 + 1) / 256;
    ModUnique((n * 2 + 1) % 256, 2, n - 128 * q, 1);
  }

  /** The fixed bits of a PES header: its flags, its length and the marks of its times. */
  lemma PesMarks(f: Frame)
    ensures var s, two := Pes(f), f.isVideo && f.composition != 0;
            && |s| >= 14 && s[6] == 0x80 && s[7] == (if two then 0xc0 else 0x80) && s[8] == (if two then 10 else 5)
            && MarkedAs(s[9..14], if two then 3 else 2)
            && (two ==> |s| >= 19 && MarkedAs(s[14..19], 1))
  {
    hide TimeField, MarkedAs, Frame.TwoStamps, Frame.Pts, Frame.Dts;
    PesParts(f);
    SameTime(f);
    FieldMarked(if f.TwoStamps() then 3 else 2, f.Pts());
    FieldMarked(1, f.Dts());
    var s, h := Pes(f), PesHeader(f);
    assert s == h + f.data;
    assert s[6] == h[6] && s[7] == h[7];
  }

  /** Sound has one time, and so has video without a composition time. */
  lemma SameTime(f: Frame)
    ensures !f.TwoStamps() ==> f.Pts() == f.Dts()
    ensures f.TwoStamps() <==> f.isVideo && f.composition != 0
    ensures f.Dts() == f.timestamp * 90
    ensures f.Pts() == if f.isVideo then (f.timestamp + f.composition) * 90 else f.timestamp * 90
  {
  }

  /** The first packet of a key frame, when the stuffing leaves its clock reference alone. */
  lemma FirstPacket(f: Frame, cc: nat)
    requires cc < 16 && f.WithPcr() && (|Pes(f)| >= PAYLOAD_LEN || |Pes(f)| <= PAYLOAD_LEN - 8)
    ensures var ps := FramePackets(f, cc);
            && ps != [] && |ps[0]| == PACKET_LEN && ps[0][6..12] == PcrField(f.Dts())
            && ps[0][3] / 32 % 2 == 1 && ps[0][4..6] == [7, 0x50]
  {
    hide PcrField, Stuffing, Pes, Frame.Dts;
    assert |Pes(f)| > 0 by { PesParts(f); }
    var n, cc' := |Pes(f)|, NextCc(cc);
    var p := OnePacket(true, true, f.Pid(), cc', f.Dts(), Pes(f));
    assert FramePackets(f, cc)[0] == p;
    var prefix := Prefix(true, true, f.Pid(), cc', f.Dts(), n);
    assert prefix[6..12] == PcrField(f.Dts());
    assert p[..12] == prefix;
    assert p[6..12] == prefix[6..12] && p[4..6] == prefix[4..6] && p[3] == prefix[3];
  }

  /**
   The first packet of a key frame has an adaptation field that marks it as a
   random access point and holds its decoding time modulo 2^33 as clock reference,
   and what a reader of its PES packet takes for that time exactly
   below 2^33; unless the PES packet has 177 to 183 bytes, which then overwrite
   the end of the reference.
   */
  lemma PcrMatchesDts(f: Frame, cc: nat)
    requires cc < 16 && f.isVideo && f.isKey
    ensures var p, n, dts := FramePackets(f, cc), |Pes(f)|, f.timestamp * 90;
            if n >= 184 || n <= 176 then
              && p != [] && |p[0]| == 188 && n >= 14
              && p[0][3] / 32 % 2 == 1 && p[0][4..6] == [7, 0x50] && p[0][10] % 128 == 0x7e && p[0][11] == 0
              && DecodePcr(p[0][6..12]) == dts % 0x2_0000_0000
              && (DecodePcr(p[0][6..12]) == ReadDts(Pes(f)) <==> dts < 0x2_0000_0000)
            else
              p != [] && |p[0]| == 188 && 188 - n < 12 && p[0][188 - n..] == Pes(f)
  {
    hide PcrField, DecodePcr, DecodeTime, TimeField, Stuffing, Frame.Dts, Frame.Pts, ReadDts;
    PesStamps(f);
    SameTime(f);
    if |Pes(f)| >= PAYLOAD_LEN || |Pes(f)| <= PAYLOAD_LEN - 8 {
      hide Pes, FramePackets;
      FirstPacket(f, cc);
      PcrRoundTrip(f.Dts());
      PcrMarks(f.Dts());
      assert FramePackets(f, cc)[0][6..12][4] == FramePackets(f, cc)[0][10];
      assert FramePackets(f, cc)[0][6..12][5] == FramePackets(f, cc)[0][11];
    } else {
      hide Pes;
      var p := OnePacket(true, true, f.Pid(), NextCc(cc), f.Dts(), Pes(f));
      assert FramePackets(f, cc)[0] == p;
      assert Pes(f)[..|Pes(f)|] == Pes(f);
    }
  }
}
