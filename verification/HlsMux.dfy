/** The muxer as one of the operations of a run: what it writes and how its counters move. */
module HlsMux {
  import opened Bytes
  import opened Buffers
  import opened TsSpec
  import opened TsStream
  import opened Psi
  import opened Muxers

  /** The counters of the last packets; the tables keep the next one. */
  function CountersOf(m: Muxer): Counters
    reads m
  {
    Counters(m.videoCc, m.audioCc, LastCc(m.patCc), LastCc(m.pmtCc))
  }

  function LastCc(cc: bv8): nat {
    (cc as int + 15) % 16
  }

  lemma NextCcIs(cc: bv8)
    requires cc <= 16
    ensures NextCc(LastCc(cc)) as bv8 == Muxer.NextTableCc(cc)
    ensures LastCc(Muxer.NextTableCc(cc) + 1) == NextCc(LastCc(cc))
    ensures LastCc(cc) < 16
  {
    var n := cc as int;
    match n
    case 0 => case 1 => case 2 => case 3 => case 4 => case 5 => case 6 => case 7 => case 8 =>
    case 9 => case 10 => case 11 => case 12 => case 13 => case 14 => case 15 => case 16 => case _ =>
  }

  method WritePat(m: Muxer, w: Buffer)
    requires m.Valid()
    modifies m`patCc, m.pat, w
    ensures m.Valid() && old(CountersOf(m)).Valid()
    ensures CountersOf(m) == Advance(old(CountersOf(m)), PatOp)
    ensures w.bytes == old(w.bytes) + Flatten(OpPackets(old(CountersOf(m)), PatOp))
  {
    hide PatPacket;
    NextCcIs(m.patCc);
    var s := m.PAT();
    w.Write(Octets(s));
    FlattenOne(Octets(s));
  }

  method WritePmt(m: Muxer, soundFormat: nat, hasVideo: bool, w: Buffer)
    requires m.Valid()
    modifies m`pmtCc, m.pmt, w
    ensures m.Valid() && old(CountersOf(m)).Valid()
    ensures var op := PmtOp(Program(hasVideo, soundFormat == 2 || soundFormat == 14));
            && CountersOf(m) == Advance(old(CountersOf(m)), op)
            && w.bytes == old(w.bytes) + Flatten(OpPackets(old(CountersOf(m)), op))
  {
    hide PmtPacket;
    NextCcIs(m.pmtCc);
    var s := m.PMT(soundFormat, hasVideo);
    w.Write(Octets(s));
    FlattenOne(Octets(s));
  }

  method WriteFrame(m: Muxer, f: Frame, w: Buffer)
    requires m.Valid()
    modifies m`videoCc, m`audioCc, m.tsPacket, w
    ensures m.Valid() && old(CountersOf(m)).Valid()
    ensures CountersOf(m) == Advance(old(CountersOf(m)), MuxOp(f))
    ensures w.bytes == old(w.bytes) + Flatten(OpPackets(old(CountersOf(m)), MuxOp(f)))
  {
    hide FramePackets, LastCc;
    NextCcIs(m.patCc);
    NextCcIs(m.pmtCc);
    m.Mux(f, w);
  }

  lemma FlattenOne(p: seq<byte>)
    ensures Flatten([p]) == p
  {
    assert [p][1..] == [];
    assert p + [] == p;
  }
}
