/** The program association and program map packets (ISO/IEC 13818-1, section 2.4.4). */
module Psi {
  import opened Bytes
  import opened Crc
  import Ts = TsSpec

  /** A program map with a video stream or without, and MP3 or AAC sound. */
  datatype Program = Program(hasVideo: bool, mp3: bool)

  const PAT_HEADER: seq<bv8> := [0x00, 0xb0, 0x0d, 0x00, 0x01, 0xc1, 0x00, 0x00, 0x00, 0x01, 0xf0, 0x01]

  function Streams(p: Program): seq<bv8> {
    (if p.hasVideo then [0x1b, 0xe1, 0x00, 0xf0, 0x00] else [])
    + [if p.mp3 then 0x04 else 0x0f, 0xe1, 0x01, 0xf0, 0x00]
  }

  function PmtHeader(p: Program): seq<bv8> {
    [0x02, 0xb0, if p.hasVideo then 0x17 else 0x12, 0x00, 0x01, 0xc1, 0x00, 0x00,
     0xe1, if p.hasVideo then 0x00 else 0x01, 0xf0, 0x00]
  }

  function Ones(n: nat): (s: seq<bv8>)
    ensures |s| == n
  {
    seq(n, _ => 0xff)
  }

  /** A packet with one section, its CRC, and filling. */
  function SectionPacket(header: seq<bv8>, section: seq<bv8>): (s: seq<bv8>)
    requires |header| == 5 && |section| <= 179
    ensures |s| == 188
  {
    header + section + CrcBytes(Divide(0xffff_ffff, section)) + Ones(179 - |section|)
  }

  function PatPacket(cc: bv8): seq<bv8> {
    SectionPacket([0x47, 0x40, 0x00, 0x10 | (cc & 0x0f), 0x00], PAT_HEADER)
  }

  function PmtPacket(p: Program, cc: bv8): seq<bv8> {
    SectionPacket([0x47, 0x50, 0x01, 0x10 | (cc & 0x0f), 0x00], PmtHeader(p) + Streams(p))
  }

  /** The section of a packet as its own length field delimits it, CRC included. */
  function SectionOf(s: seq<bv8>): seq<bv8>
    requires |s| == 188
  {
    var end := 8 + (s[6] & 0x0f) as int * 256 + s[7] as int;
    if end <= 188 then s[5..end] else []
  }

  predicate Verifies(s: seq<bv8>)
    requires |s| == 188
  {
    SectionOf(s) != [] && Divide(0xffff_ffff, SectionOf(s)) == 0
  }

  lemma Inside(a: seq<bv8>, b: seq<bv8>, c: seq<bv8>, d: seq<bv8>)
    ensures (a + b + c + d)[|a|..|a| + |b| + |c|] == b + c
  {
  }

  lemma SectionVerifies(header: seq<bv8>, section: seq<bv8>)
    requires |header| == 5 && 3 <= |section| <= 179
    requires section[1] & 0x0f == 0 && section[2] as int == |section| + 1
    ensures var s := SectionPacket(header, section);
            SectionOf(s) == section + CrcBytes(Divide(0xffff_ffff, section)) && Verifies(s)
  {
    hide Divide, CrcBytes;
    var s := SectionPacket(header, section);
    hide Ones;
    var crc, ones := CrcBytes(Divide(0xffff_ffff, section)), Ones(179 - |section|);
    assert s[6] == section[1] && s[7] == section[2];
    Inside(header, section, crc, ones);
    SelfCheck(0xffff_ffff, section);
  }

  /** The section of every association and map packet passes a receiver's CRC check. */
  lemma TablesVerify(p: Program, cc: bv8)
    ensures Verifies(PatPacket(cc)) && Verifies(PmtPacket(p, cc))
  {
    hide SectionPacket, Verifies, Divide, CrcBytes;
    SectionVerifies([0x47, 0x40, 0x00, 0x10 | (cc & 0x0f), 0x00], PAT_HEADER);
    MapSection(p);
    SectionVerifies([0x47, 0x50, 0x01, 0x10 | (cc & 0x0f), 0x00], PmtHeader(p) + Streams(p));
  }

  lemma MapSection(p: Program)
    ensures var s := PmtHeader(p) + Streams(p);
            3 <= |s| <= 179 && s[1] & 0x0f == 0 && s[2] as int == |s| + 1
  {
  }

  /** The same bytes as numbers. */
  function Octets(s: seq<bv8>): (r: seq<byte>)
    ensures |r| == |s|
  {
    seq(|s|, i requires 0 <= i < |s| => s[i] as int)
  }

  lemma HeaderOctets(header: seq<bv8>, section: seq<bv8>)
    requires |header| == 5 && |section| <= 179
    ensures forall i | 0 <= i < 5 :: Octets(SectionPacket(header, section))[i] == header[i] as int
  {
    hide Divide, CrcBytes;
  }

  lemma CounterByte(cc: bv8)
    requires cc < 16
    ensures (0x10 | (cc & 0x0f)) as int == 16 + cc as int
  {
    match cc
    case 0 => case 1 => case 2 => case 3 => case 4 => case 5 => case 6 => case 7 =>
    case 8 => case 9 => case 10 => case 11 => case 12 => case 13 => case 14 => case _ =>
  }

  const PAT_PID := 0
  const PMT_PID := 0x1001

  /** Both packets are transport packets on their own PIDs, with the counter given. */
  lemma TablePackets(p: Program, cc: bv8)
    requires cc < 16
    ensures Ts.IsOne(Octets(PatPacket(cc)), true, PAT_PID, cc as int)
    ensures Ts.IsOne(Octets(PmtPacket(p, cc)), true, PMT_PID, cc as int)
  {
    hide SectionPacket;
    CounterByte(cc);
    HeaderOctets([0x47, 0x40, 0x00, 0x10 | (cc & 0x0f), 0x00], PAT_HEADER);
    HeaderOctets([0x47, 0x50, 0x01, 0x10 | (cc & 0x0f), 0x00], PmtHeader(p) + Streams(p));
  }

  // ---- What a receiver reads in them -------------------------------------

  /** A PID in the low thirteen bits of two bytes. */
  function PidIn(a: bv8, b: bv8): nat {
    (a & 0x1f) as int * 256 + b as int
  }

  /** Pairs of program number and map PID, four bytes each. */
  function Programs(s: seq<bv8>): seq<(nat, nat)> {
    if |s| < 4 then [] else [(s[0] as int * 256 + s[1] as int, PidIn(s[2], s[3]))] + Programs(s[4..])
  }

  /** Stream types and PIDs, five bytes each and then as many descriptor bytes as they say. */
  function Elementary(s: seq<bv8>): seq<(nat, nat)> {
    if |s| < 5 then []
    else
      var info := (s[3] & 0x0f) as int * 256 + s[4] as int;
      [(s[0] as int, PidIn(s[1], s[2]))] + (if 5 + info <= |s| then Elementary(s[5 + info..]) else [])
  }

  /** The programs of an association section: between eight bytes and the CRC. */
  function ReadAssociation(s: seq<bv8>): Option<seq<(nat, nat)>> {
    if |s| >= 12 && s[0] == 0 then Some(Programs(s[8..|s| - 4])) else None
  }

  /** A program map: its number, the PID of its clock references, its streams behind its descriptors. */
  datatype ProgramMap = ProgramMap(number: nat, pcrPid: nat, streams: seq<(nat, nat)>)

  function ReadMap(s: seq<bv8>): Option<ProgramMap> {
    if |s| >= 16 && s[0] == 2 then
      var start := 12 + (s[10] & 0x0f) as int * 256 + s[11] as int;
      if start > |s| - 4 then None
      else Some(ProgramMap(s[3] as int * 256 + s[4] as int, PidIn(s[8], s[9]), Elementary(s[start..|s| - 4])))
    else None
  }

  lemma PidValues()
    ensures PidIn(0xf0, 0x01) == 0x1001 && PidIn(0xe1, 0x00) == 0x100 && PidIn(0xe1, 0x01) == 0x101
    ensures (0xf0 as bv8 & 0x0f) as int == 0
  {
  }

  lemma AssociationIs(crc: seq<bv8>)
    requires |crc| == 4
    ensures ReadAssociation(PAT_HEADER + crc) == Some([(1, 0x1001)])
  {
    PidValues();
    hide PidIn;
    var s := PAT_HEADER + crc;
    var body: seq<bv8> := [0x00, 0x01, 0xf0, 0x01];
    assert s[0] == 0 && s[8..|s| - 4] == body && body[4..] == [];
    assert Programs(body[4..]) == [];
    assert Programs(body) == [(1, 0x1001)];
  }

  /** One stream without descriptors. */
  lemma OneStream(kind: bv8, a: bv8, b: bv8, rest: seq<bv8>)
    ensures Elementary([kind, a, b, 0xf0, 0x00] + rest) == [(kind as int, PidIn(a, b))] + Elementary(rest)
  {
    PidValues();
    hide PidIn;
    var s := [kind, a, b, 0xf0, 0x00] + rest;
    assert s[5..] == rest && s[3] == 0xf0 && s[4] == 0;
  }

  lemma StreamsAre(p: Program)
    ensures Elementary(Streams(p))
         == (if p.hasVideo then [(0x1b, 0x100)] else []) + [(if p.mp3 then 0x04 else 0x0f, 0x101)]
  {
    PidValues();
    hide PidIn;
    var kind: bv8 := if p.mp3 then 0x04 else 0x0f;
    var sound: seq<bv8> := [kind, 0xe1, 0x01, 0xf0, 0x00];
    OneStream(kind, 0xe1, 0x01, []);
    assert sound + [] == sound && Elementary([]) == [];
    if p.hasVideo {
      OneStream(0x1b, 0xe1, 0x00, sound);
    } else {
      assert Streams(p) == sound;
    }
  }

  lemma MapIs(p: Program, crc: seq<bv8>)
    requires |crc| == 4
    ensures ReadMap(PmtHeader(p) + Streams(p) + crc)
         == Some(ProgramMap(1, if p.hasVideo then 0x100 else 0x101,
                            (if p.hasVideo then [(0x1b, 0x100)] else []) + [(if p.mp3 then 0x04 else 0x0f, 0x101)]))
  {
    StreamsAre(p);
    PidValues();
    hide PidIn, Elementary;
    var h, s := PmtHeader(p), PmtHeader(p) + Streams(p) + crc;
    assert forall i | 0 <= i < 12 :: s[i] == h[i];
    assert s[12..|s| - 4] == Streams(p);
  }

  /**
   A receiver finds the map where the association says it is, and in the map the
   video on PID 0x100 as H.264 and the sound on 0x101 as AAC or MP3, with the
   clock references on the first of these there is.
   */
  lemma TablesRead(p: Program, cc: bv8, cc': bv8)
    requires cc < 16 && cc' < 16
    ensures var pat, pmt := ReadAssociation(SectionOf(PatPacket(cc))), ReadMap(SectionOf(PmtPacket(p, cc')));
            && Ts.IsOne(Octets(PatPacket(cc)), true, 0, cc as int)
            && Ts.IsOne(Octets(PmtPacket(p, cc')), true, 0x1001, cc' as int)
            && pat == Some([(1, 0x1001)])
            && pmt == Some(ProgramMap(1, if p.hasVideo then 0x100 else 0x101,
                             (if p.hasVideo then [(0x1b, 0x100)] else []) + [(if p.mp3 then 0x04 else 0x0f, 0x101)]))
  {
    hide SectionPacket, Divide, CrcBytes, ReadAssociation, ReadMap, Octets, Ts.IsOne;
    TablePackets(p, cc);
    TablePackets(p, cc');
    SectionVerifies([0x47, 0x40, 0x00, 0x10 | (cc & 0x0f), 0x00], PAT_HEADER);
    MapSection(p);
    SectionVerifies([0x47, 0x50, 0x01, 0x10 | (cc' & 0x0f), 0x00], PmtHeader(p) + Streams(p));
    AssociationIs(CrcBytes(Divide(0xffff_ffff, PAT_HEADER)));
    MapIs(p, CrcBytes(Divide(0xffff_ffff, PmtHeader(p) + Streams(p))));
  }
}
