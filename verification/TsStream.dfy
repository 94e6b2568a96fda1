/**
 Whole transport streams: every run of the muxer's three operations keeps the
 continuity of each PID, and a receiver that cuts the bytes into packets and
 collects payloads between unit starts gets the PES packets back.
 */
module TsStream {
  import opened Bytes
  import opened TsSpec
  import opened Psi

  datatype Op = MuxOp(f: Frame) | PatOp | PmtOp(p: Program)

  /** The counters of the last packets; 15 before the first packet of a table. */
  datatype Counters = Counters(video: nat, audio: nat, pat: nat, pmt: nat) {
    ghost predicate Valid() {
      video < 16 && audio < 16 && pat < 16 && pmt < 16
    }

    function Of(f: Frame): nat {
      if f.isVideo then video else audio
    }

    /** The counter of the last packet on a PID. */
    function On(pid: nat): nat {
      if pid == VIDEO_PID then video
      else if pid == AUDIO_PID then audio
      else if pid == PAT_PID then pat
      else pmt
    }
  }

  function PidOfOp(op: Op): nat {
    match op
    case MuxOp(f) => f.Pid()
    case PatOp => PAT_PID
    case PmtOp(_) => PMT_PID
  }

  function OpPackets(c: Counters, op: Op): seq<seq<byte>>
    requires c.Valid()
  {
    match op
    case MuxOp(f) => FramePackets(f, c.Of(f))
    case PatOp => [Octets(PatPacket(NextCc(c.pat) as bv8))]
    case PmtOp(p) => [Octets(PmtPacket(p, NextCc(c.pmt) as bv8))]
  }

  function Advance(c: Counters, op: Op): (c': Counters)
    requires c.Valid()
    ensures c'.Valid()
  {
    match op
    case MuxOp(f) =>
      var n := (c.Of(f) + |OpPackets(c, op)|) % 16;
      if f.isVideo then c.(video := n) else c.(audio := n)
    case PatOp => c.(pat := NextCc(c.pat))
    case PmtOp(_) => c.(pmt := NextCc(c.pmt))
  }

  function RunPackets(c: Counters, ops: seq<Op>): seq<seq<byte>>
    requires c.Valid()
    decreases |ops|
  {
    if ops == [] then [] else OpPackets(c, ops[0]) + RunPackets(Advance(c, ops[0]), ops[1..])
  }

  function AdvanceAll(c: Counters, ops: seq<Op>): (c': Counters)
    requires c.Valid()
    ensures c'.Valid()
    decreases |ops|
  {
    if ops == [] then c else AdvanceAll(Advance(c, ops[0]), ops[1..])
  }

  lemma RunCons(c: Counters, op: Op, rest: seq<Op>)
    requires c.Valid()
    ensures RunPackets(c, [op] + rest) == OpPackets(c, op) + RunPackets(Advance(c, op), rest)
  {
    hide OpPackets, Advance;
    assert ([op] + rest)[1..] == rest;
  }

  lemma {:induction false} RunConcat(c: Counters, a: seq<Op>, b: seq<Op>)
    requires c.Valid()
    ensures AdvanceAll(c, a + b) == AdvanceAll(AdvanceAll(c, a), b)
    ensures RunPackets(c, a + b) == RunPackets(c, a) + RunPackets(AdvanceAll(c, a), b)
    decreases |a|
  {
    hide OpPackets, Advance, Counters.Valid;
    if a == [] {
      assert a + b == b;
      assert [] + RunPackets(c, b) == RunPackets(c, b);
    } else {
      RunConcat(Advance(c, a[0]), a[1..], b);
      assert (a + b)[1..] == a[1..] + b;
      var c1 := Advance(c, a[0]);
      Assoc(OpPackets(c, a[0]), RunPackets(c1, a[1..]), RunPackets(AdvanceAll(c1, a[1..]), b));
    }
  }

  /** Each operation sends packets of one PID with the next counters. */
  lemma OpCounted(c: Counters, op: Op)
    requires c.Valid()
    ensures Counted(OpPackets(c, op), true, PidOfOp(op), c.On(PidOfOp(op)))
    ensures Advance(c, op).On(PidOfOp(op)) == (c.On(PidOfOp(op)) + |OpPackets(c, op)|) % 16
    ensures forall pid | KnownPid(pid) && pid != PidOfOp(op) :: Advance(c, op).On(pid) == c.On(pid)
  {
    hide IsOne, FramePackets, PatPacket, PmtPacket, Octets;
    match op
    case MuxOp(f) => FrameCounted(f, c.Of(f));
    case PatOp =>
      RoundBv(NextCc(c.pat));
      TablePackets(Program(true, false), NextCc(c.pat) as bv8);
      OneCounted(Octets(PatPacket(NextCc(c.pat) as bv8)), PAT_PID, c.pat);
    case PmtOp(p) =>
      RoundBv(NextCc(c.pmt));
      TablePackets(p, NextCc(c.pmt) as bv8);
      OneCounted(Octets(PmtPacket(p, NextCc(c.pmt) as bv8)), PMT_PID, c.pmt);
  }

  lemma FrameCounted(f: Frame, cc: nat)
    requires cc < 16
    ensures Counted(FramePackets(f, cc), true, f.Pid(), cc)
  {
    hide Counted, Packets, Pes;
    PacketsAre(true, f.WithPcr(), f.Pid(), cc, f.Dts(), Pes(f));
  }

  lemma RoundBv(n: nat)
    requires n < 16
    ensures n as bv8 < 16 && (n as bv8) as int == n
  {
    match n
    case 0 => case 1 => case 2 => case 3 => case 4 => case 5 => case 6 => case 7 =>
    case 8 => case 9 => case 10 => case 11 => case 12 => case 13 => case 14 => case _ =>
  }

  lemma OneCounted(p: seq<byte>, pid: nat, cc: nat)
    requires cc < 16 && IsOne(p, true, pid, NextCc(cc))
    ensures Counted([p], true, pid, cc)
  {
  }

  // ---- Continuity --------------------------------------------------------

  /** The packets of one PID. */
  function OnPid(ps: seq<seq<byte>>, pid: nat): seq<seq<byte>>
    requires forall p <- ps :: IsPacket(p)
  {
    if ps == [] then []
    else (if PidOf(ps[0]) == pid then [ps[0]] else []) + OnPid(ps[1..], pid)
  }

  /** Consecutive counters after `cc`. */
  ghost predicate Continuous(ps: seq<seq<byte>>, cc: nat) {
    forall i | 0 <= i < |ps| :: IsPacket(ps[i]) && CounterOf(ps[i]) == (cc + 1 + i) % 16
  }

  lemma {:induction false} OnPidConcat(ps: seq<seq<byte>>, qs: seq<seq<byte>>, pid: nat)
    requires forall p <- ps :: IsPacket(p)
    requires forall p <- qs :: IsPacket(p)
    ensures forall p <- ps + qs :: IsPacket(p)
    ensures OnPid(ps + qs, pid) == OnPid(ps, pid) + OnPid(qs, pid)
  {
    hide IsPacket, PidOf;
    if ps == [] {
      assert ps + qs == qs;
    } else {
      OnPidConcat(ps[1..], qs, pid);
      assert (ps + qs)[1..] == ps[1..] + qs;
    }
  }

  lemma {:induction false} OnOwnPid(ps: seq<seq<byte>>, pid: nat)
    requires forall p <- ps :: IsPacket(p) && PidOf(p) == pid
    ensures OnPid(ps, pid) == ps
    ensures forall other | other != pid :: OnPid(ps, other) == []
  {
    hide IsPacket, PidOf;
    if ps != [] {
      OnOwnPid(ps[1..], pid);
    }
  }

  lemma CountedPackets(ps: seq<seq<byte>>, first: bool, pid: nat, cc: nat)
    requires Counted(ps, first, pid, cc)
    ensures forall p <- ps :: IsPacket(p) && PidOf(p) == pid
    ensures Continuous(ps, cc)
  {
    forall p <- ps
      ensures IsPacket(p) && PidOf(p) == pid
    {
      var i :| 0 <= i < |ps| && ps[i] == p;
      assert IsOne(ps[i], first && i == 0, pid, (cc + 1 + i) % 16);
    }
    assert forall i | 0 <= i < |ps| :: IsOne(ps[i], first && i == 0, pid, (cc + 1 + i) % 16);
  }

  lemma ModShift(a: nat, b: nat)
    ensures (a % 16 + b) % 16 == (a + b) % 16
  {
  }

  lemma ContinuousConcat(ps: seq<seq<byte>>, qs: seq<seq<byte>>, cc: nat)
    requires Continuous(ps, cc) && Continuous(qs, (cc + |ps|) % 16)
    ensures Continuous(ps + qs, cc)
  {
    hide IsPacket, CounterOf;
    forall i | 0 <= i < |ps + qs|
      ensures IsPacket((ps + qs)[i]) && CounterOf((ps + qs)[i]) == (cc + 1 + i) % 16
    {
      if i >= |ps| {
        var j := i - |ps|;
        assert (ps + qs)[i] == qs[j];
        ModShift(cc + |ps|, 1 + j);
      }
    }
  }

  predicate KnownPid(pid: nat) {
    pid in {VIDEO_PID, AUDIO_PID, PAT_PID, PMT_PID}
  }

  /** One operation: what it adds to a PID continues that PID. */
  lemma OpContinuity(c: Counters, op: Op, pid: nat)
    requires c.Valid() && KnownPid(pid)
    ensures forall p <- OpPackets(c, op) :: IsPacket(p)
    ensures Continuous(OnPid(OpPackets(c, op), pid), c.On(pid))
    ensures Advance(c, op).On(pid) == (c.On(pid) + |OnPid(OpPackets(c, op), pid)|) % 16
  {
    hide IsPacket, PidOf, OpPackets, Advance, Counted, Counters.On, Continuous, OnPid;
    var ps := OpPackets(c, op);
    OpCounted(c, op);
    CountedPackets(ps, true, PidOfOp(op), c.On(PidOfOp(op)));
    OnOwnPid(ps, PidOfOp(op));
    NoPackets(c, pid);
  }

  /** Over any run of muxing, association and map packets the counter of each PID goes up by one from packet to packet. */
  lemma {:induction false} Continuity(c: Counters, ops: seq<Op>, pid: nat)
    requires c.Valid() && KnownPid(pid)
    ensures forall p <- RunPackets(c, ops) :: IsPacket(p)
    ensures Continuous(OnPid(RunPackets(c, ops), pid), c.On(pid))
    ensures AdvanceAll(c, ops).On(pid) == (c.On(pid) + |OnPid(RunPackets(c, ops), pid)|) % 16
    decreases |ops|
  {
    hide IsPacket, PidOf, OpPackets, Advance, Continuous, Counters.On, Counters.Valid, KnownPid, OnPid;
    if ops == [] {
      NoPackets(c, pid);
    } else {
      var ps, c' := OpPackets(c, ops[0]), Advance(c, ops[0]);
      OpContinuity(c, ops[0], pid);
      Continuity(c', ops[1..], pid);
      var qs := RunPackets(c', ops[1..]);
      OnPidConcat(ps, qs, pid);
      ContinuousConcat(OnPid(ps, pid), OnPid(qs, pid), c.On(pid));
    }
  }

  lemma NoPackets(c: Counters, pid: nat)
    requires c.Valid()
    ensures OnPid([], pid) == [] && Continuous([], c.On(pid)) && c.On(pid) % 16 == c.On(pid)
  {
  }

  // ---- A receiver --------------------------------------------------------

  /** Cuts a stream into packets; `None` if it is not a whole number of them. */
  function Cut(s: seq<byte>): (r: Option<seq<seq<byte>>>)
    ensures r.Some? ==> forall p <- r.value :: IsPacket(p)
    decreases |s|
  {
    if s == [] then Some([])
    else if |s| < PACKET_LEN || s[0] != 0x47 then None
    else
      match Cut(s[PACKET_LEN..])
      case None => None
      case Some(ps) => Some([s[..PACKET_LEN]] + ps)
  }

  /** One more packet: a unit start opens a unit, other payloads extend the last one. */
  function Feed(units: seq<seq<byte>>, p: seq<byte>, pid: nat): seq<seq<byte>>
    requires IsPacket(p)
  {
    if PidOf(p) != pid then units
    else if UnitStart(p) then units + [Payload(p)]
    else if units == [] then []
    else units[..|units| - 1] + [units[|units| - 1] + Payload(p)]
  }

  function FeedAll(units: seq<seq<byte>>, ps: seq<seq<byte>>, pid: nat): seq<seq<byte>>
    requires forall p <- ps :: IsPacket(p)
    decreases |ps|
  {
    if ps == [] then units else FeedAll(Feed(units, ps[0], pid), ps[1..], pid)
  }

  /** What a receiver collects on a PID from the bytes of a stream. */
  function Receive(s: seq<byte>, pid: nat): Option<seq<seq<byte>>> {
    match Cut(s)
    case None => None
    case Some(ps) => Some(FeedAll([], ps, pid))
  }

  lemma {:induction false} CutFlatten(ps: seq<seq<byte>>)
    requires forall p <- ps :: IsPacket(p)
    ensures Cut(Flatten(ps)) == Some(ps)
  {
    if ps != [] {
      assert IsPacket(ps[0]);
      CutFlatten(ps[1..]);
      var s := Flatten(ps);
      assert s[..PACKET_LEN] == ps[0] && s[PACKET_LEN..] == Flatten(ps[1..]);
      assert ps == [ps[0]] + ps[1..];
    }
  }

  lemma {:induction false} FlattenLength(ps: seq<seq<byte>>)
    requires forall p <- ps :: IsPacket(p)
    ensures |Flatten(ps)| == PACKET_LEN * |ps|
  {
    if ps != [] {
      assert IsPacket(ps[0]);
      FlattenLength(ps[1..]);
    }
  }

  lemma {:induction false} FeedConcat(units: seq<seq<byte>>, ps: seq<seq<byte>>, qs: seq<seq<byte>>, pid: nat)
    requires forall p <- ps :: IsPacket(p)
    requires forall p <- qs :: IsPacket(p)
    requires forall p <- ps + qs :: IsPacket(p)
    ensures FeedAll(units, ps + qs, pid) == FeedAll(FeedAll(units, ps, pid), qs, pid)
    decreases |ps|
  {
    hide Feed, IsPacket;
    if ps == [] {
      assert ps + qs == qs;
    } else {
      assert (ps + qs)[1..] == ps[1..] + qs;
      FeedConcat(Feed(units, ps[0], pid), ps[1..], qs, pid);
    }
  }

  lemma {:induction false} FeedOther(units: seq<seq<byte>>, ps: seq<seq<byte>>, pid: nat)
    requires forall p <- ps :: IsPacket(p) && PidOf(p) != pid
    ensures FeedAll(units, ps, pid) == units
    decreases |ps|
  {
    if ps != [] {
      FeedOther(units, ps[1..], pid);
    }
  }

  lemma {:induction false} FeedRest(units: seq<seq<byte>>, unit: seq<byte>, ps: seq<seq<byte>>, pid: nat)
    requires forall p <- ps :: IsPacket(p) && PidOf(p) == pid && !UnitStart(p)
    ensures FeedAll(units + [unit], ps, pid) == units + [unit + Payloads(ps)]
    decreases |ps|
  {
    hide IsPacket, PidOf, UnitStart, Payload;
    if ps == [] {
      assert unit + [] == unit;
    } else {
      var unit' := unit + Payload(ps[0]);
      assert (units + [unit])[..|units|] == units;
      assert Feed(units + [unit], ps[0], pid) == units + [unit'];
      FeedRest(units, unit', ps[1..], pid);
      assert unit' + Payloads(ps[1..]) == unit + Payloads(ps);
    }
  }

  /** The packets of one frame add one unit. */
  lemma FeedFrame(units: seq<seq<byte>>, f: Frame, cc: nat)
    requires cc < 16
    ensures var ps := FramePackets(f, cc);
            (forall p <- ps :: IsPacket(p)) && FeedAll(units, ps, f.Pid()) == units + [Payloads(ps)]
  {
    hide IsPacket, Payload, PidOf, Pes, UnitStart;
    var ps := FramePackets(f, cc);
    FrameCounted(f, cc);
    FrameNotEmpty(f, cc);
    CountedPackets(ps, true, f.Pid(), cc);
    StartsOnce(ps, f.Pid(), cc);
    assert Feed(units, ps[0], f.Pid()) == units + [Payload(ps[0])];
    FeedRest(units, Payload(ps[0]), ps[1..], f.Pid());
  }

  lemma FrameNotEmpty(f: Frame, cc: nat)
    requires cc < 16
    ensures FramePackets(f, cc) != []
  {
    assert |Pes(f)| > 0;
  }

  lemma StartsOnce(ps: seq<seq<byte>>, pid: nat, cc: nat)
    requires ps != [] && Counted(ps, true, pid, cc)
    ensures IsPacket(ps[0]) && UnitStart(ps[0])
    ensures forall p <- ps[1..] :: IsPacket(p) && !UnitStart(p)
  {
    assert IsOne(ps[0], true, pid, (cc + 1) % 16);
    forall p <- ps[1..]
      ensures IsPacket(p) && !UnitStart(p)
    {
      var i :| 0 <= i < |ps| - 1 && ps[1..][i] == p;
      assert IsOne(ps[i + 1], false, pid, (cc + 1 + (i + 1)) % 16);
    }
  }

  /** The frames a run sends on an elementary PID: pictures on 0x100, sound on 0x101. */
  function FramesOn(ops: seq<Op>, pid: nat): seq<Frame> {
    if ops == [] then []
    else
      (if ops[0].MuxOp? && (if ops[0].f.isVideo then 0x100 else 0x101) == pid then [ops[0].f] else [])
      + FramesOn(ops[1..], pid)
  }

  function PesList(fs: seq<Frame>): (r: seq<seq<byte>>)
    ensures |r| == |fs| && forall j | 0 <= j < |fs| :: r[j] == Pes(fs[j])
  {
    seq(|fs|, j requires 0 <= j < |fs| => Pes(fs[j]))
  }

  /** The frames the muxer does not mangle. */
  predicate Recoverable(f: Frame) {
    !(f.isVideo && f.isKey && |Pes(f)| < 184 && |Pes(f)| != 176)
  }

  /** The payloads of the packets of a frame. */
  function Unit(c: Counters, f: Frame): seq<byte>
    requires c.Valid()
  {
    DepacketiseExact(f, c.Of(f));
    Payloads(FramePackets(f, c.Of(f)))
  }

  /** The payloads of what a run sends on a PID, frame by frame. */
  function UnitsOn(c: Counters, ops: seq<Op>, pid: nat): seq<seq<byte>>
    requires c.Valid()
    decreases |ops|
  {
    if ops == [] then []
    else
      (if ops[0].MuxOp? && ops[0].f.Pid() == pid then [Unit(c, ops[0].f)] else [])
      + UnitsOn(Advance(c, ops[0]), ops[1..], pid)
  }

  lemma {:induction false} FeedRun(units: seq<seq<byte>>, c: Counters, ops: seq<Op>, pid: nat)
    requires c.Valid() && pid in {VIDEO_PID, AUDIO_PID}
    ensures forall p <- RunPackets(c, ops) :: IsPacket(p)
    ensures FeedAll(units, RunPackets(c, ops), pid) == units + UnitsOn(c, ops, pid)
    decreases |ops|
  {
    hide IsPacket, PidOf, OpPackets, Advance, Counted, Feed, Unit, Counters.Valid;
    if ops != [] {
      var op, ps := ops[0], OpPackets(c, ops[0]);
      OpCounted(c, op);
      CountedPackets(ps, true, PidOfOp(op), c.On(PidOfOp(op)));
      var qs := RunPackets(Advance(c, op), ops[1..]);
      var one := if op.MuxOp? && op.f.Pid() == pid then [Unit(c, op.f)] else [];
      assert FeedAll(units, ps, pid) == units + one by {
        if op.MuxOp? && op.f.Pid() == pid {
          FeedMux(units, c, op.f);
        } else {
          FeedOther(units, ps, pid);
        }
      }
      FeedRun(units + one, Advance(c, op), ops[1..], pid);
      BothPackets(ps, qs);
      FeedConcat(units, ps, qs, pid);
      Assoc(units, one, UnitsOn(Advance(c, op), ops[1..], pid));
    }
  }

  lemma BothPackets(ps: seq<seq<byte>>, qs: seq<seq<byte>>)
    requires forall p <- ps :: IsPacket(p)
    requires forall p <- qs :: IsPacket(p)
    ensures forall p <- ps + qs :: IsPacket(p)
  {
  }

  lemma FeedMux(units: seq<seq<byte>>, c: Counters, f: Frame)
    requires c.Valid()
    ensures forall p <- OpPackets(c, MuxOp(f)) :: IsPacket(p)
    ensures FeedAll(units, OpPackets(c, MuxOp(f)), f.Pid()) == units + [Unit(c, f)]
  {
    hide IsPacket, Payloads, FramePackets;
    FeedFrame(units, f, c.Of(f));
  }

  /** The payloads of each frame are its PES packet exactly when the muxer does not mangle it. */
  ghost predicate EachExact(units: seq<seq<byte>>, fs: seq<Frame>) {
    |units| == |fs| && forall j | 0 <= j < |fs| :: units[j] == Pes(fs[j]) <==> Recoverable(fs[j])
  }

  lemma {:induction false} UnitsExact(c: Counters, ops: seq<Op>, pid: nat)
    requires c.Valid()
    ensures EachExact(UnitsOn(c, ops, pid), FramesOn(ops, pid))
    decreases |ops|
  {
    if ops != [] {
      hide Unit, Pes, Recoverable, Advance, Counters.Valid, EachExact;
      var op, c1 := ops[0], Advance(c, ops[0]);
      UnitsExact(c1, ops[1..], pid);
      var us, fs := UnitsOn(c1, ops[1..], pid), FramesOn(ops[1..], pid);
      if op.MuxOp? && op.f.Pid() == pid {
        UnitExact(c, op.f);
        OneMore(Unit(c, op.f), us, op.f, fs);
      } else {
        assert [] + us == us && [] + fs == fs;
      }
    } else {
      assert EachExact([], []) by { NoneSent(); }
    }
  }

  lemma NoneSent()
    ensures EachExact([], [])
  {
  }

  lemma OneMore(u: seq<byte>, us: seq<seq<byte>>, f: Frame, fs: seq<Frame>)
    requires EachExact(us, fs) && (u == Pes(f) <==> Recoverable(f))
    ensures EachExact([u] + us, [f] + fs)
  {
    hide Pes, Recoverable;
    forall j | 0 <= j < |fs| + 1
      ensures ([u] + us)[j] == Pes(([f] + fs)[j]) <==> Recoverable(([f] + fs)[j])
    {
      if j > 0 { assert ([f] + fs)[j] == fs[j - 1] && ([u] + us)[j] == us[j - 1]; }
    }
  }

  lemma UnitExact(c: Counters, f: Frame)
    requires c.Valid()
    ensures Unit(c, f) == Pes(f) <==> Recoverable(f)
  {
    hide Payloads, FramePackets, Pes;
    DepacketiseExact(f, c.Of(f));
  }

  /**
   From the bytes of a run a receiver gets as many units on an elementary PID as
   frames were sent there, in order, and of each frame exactly its PES packet if
   and only if the muxer has not mangled it.
   */
  lemma ReceiveRun(c: Counters, ops: seq<Op>, pid: nat)
    requires c.Valid() && pid in {0x100, 0x101}
    ensures var units := Receive(Flatten(RunPackets(c, ops)), pid);
            units.Some? && EachExact(units.value, FramesOn(ops, pid))
  {
    hide RunPackets, FramesOn, UnitsOn, IsPacket, Feed, EachExact;
    FeedRun([], c, ops, pid);
    CutFlatten(RunPackets(c, ops));
    UnitsExact(c, ops, pid);
    assert [] + UnitsOn(c, ops, pid) == UnitsOn(c, ops, pid);
  }

  /** Only key frames are ever mangled, so audio always arrives. */
  lemma AudioReceived(c: Counters, ops: seq<Op>)
    requires c.Valid()
    ensures Receive(Flatten(RunPackets(c, ops)), 0x101) == Some(PesList(FramesOn(ops, 0x101)))
  {
    hide Receive, RunPackets, FramesOn, Pes;
    ReceiveRun(c, ops, 0x101);
    AudioFrames(ops);
    var units, fs := Receive(Flatten(RunPackets(c, ops)), 0x101).value, FramesOn(ops, 0x101);
    forall j | 0 <= j < |fs|
      ensures units[j] == PesList(fs)[j]
    {
      assert fs[j] in fs;
    }
    assert units == PesList(fs);
  }

  lemma {:induction false} AudioFrames(ops: seq<Op>)
    ensures forall f <- FramesOn(ops, 0x101) :: !f.isVideo
  {
    if ops != [] {
      AudioFrames(ops[1..]);
    }
  }
}
