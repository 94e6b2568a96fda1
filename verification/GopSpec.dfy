/**
 The cache a joining player is served from, on values: the ring of groups of
 pictures (GOPs), what it must hold, and what a player receives over any run.
 */
module GopSpec {
  import opened Bytes

  const MAX_GOP := 1024
  const SOUND_AAC := 10
  const AAC_SEQHDR := 0
  const FRAME_KEY := 1
  const AVC_SEQHDR := 0

  /** A published packet with the tag fields the cache looks at. */
  datatype Packet = Packet(
    isVideo: bool, isMetadata: bool, soundFormat: nat, aacPacketType: nat,
    frameType: nat, avcPacketType: nat, timestamp: nat, data: seq<byte>)
  {
    predicate IsKeyFrame() { frameType == FRAME_KEY }

    predicate IsSeq() { frameType == FRAME_KEY && avcPacketType == AVC_SEQHDR }

    /** Opens a GOP. */
    predicate Opens() { isVideo && IsKeyFrame() && !IsSeq() }

    predicate IsAacHeader() { soundFormat == SOUND_AAC && aacPacketType == AAC_SEQHDR }

    /** Video but a sequence header: what `Cache.Write` hands to the GOP cache. */
    predicate InGop() { !isMetadata && isVideo && !IsSeq() }
  }

  // ---- The ring, as the program keeps it ---------------------------------

  /** The slots of the ring; `None` is a slot never used. */
  datatype Ring = Ring(start: bool, num: nat, count: nat, nextindex: nat, gops: seq<Option<seq<Packet>>>)

  function NewRing(count: nat): Ring {
    Ring(false, 0, count, 0, seq(count, _ => None))
  }

  /** `array.write`: a full array refuses the packet, and the caller ignores that. */
  function Append(a: seq<Packet>, p: Packet): seq<Packet> {
    if |a| >= MAX_GOP then a else a + [p]
  }

  /** `GopCache.Write`; `None` is a run-time panic. */
  function WriteRing(r: Ring, p: Packet): Option<Ring> {
    if p.Opens() then
      if r.nextindex >= |r.gops| || r.count == 0 then None
      else
        var num := if r.gops[r.nextindex].None? then r.num + 1 else r.num;
        Some(Ring(true, num, r.count, (r.nextindex + 1) % r.count, r.gops[r.nextindex := Some([p])]))
    else if !r.start then Some(r)
    else if r.count == 0 then None
    else
      var k := (r.nextindex + 1) % r.count;
      if k >= |r.gops| || r.gops[k].None? then None
      else Some(r.(gops := r.gops[k := Some(Append(r.gops[k].value, p))]))
  }

  /** The slot that is sent as number `i`. */
  function SlotOf(r: Ring, i: nat): int
    requires r.count > 0
  {
    var index := (r.nextindex + 1) % r.count - r.num + 1 + i;
    if index < 0 then index + r.count else index
  }

  function SendFrom(r: Ring, i: nat): Option<seq<Packet>>
    requires r.count > 0 && i <= r.num
    decreases r.num - i
  {
    if i == r.num then Some([])
    else
      var k := SlotOf(r, i);
      if 0 <= k < |r.gops| && r.gops[k].Some? then
        match SendFrom(r, i + 1)
        case None => None
        case Some(rest) => Some(r.gops[k].value + rest)
      else None
  }

  /** `GopCache.Send`: everything a player is sent; `None` is a run-time panic. */
  function SendRing(r: Ring): Option<seq<Packet>> {
    if r.count == 0 then None else SendFrom(r, 0)
  }

  function WriteAll(r: Ring, ps: seq<Packet>): Option<Ring>
    decreases |ps|
  {
    if ps == [] then Some(r)
    else
      match WriteAll(r, ps[..|ps| - 1])
      case None => None
      case Some(r1) => WriteRing(r1, ps[|ps| - 1])
  }

  // ---- What it must hold -------------------------------------------------

  /** The packets from the first key frame on, cut before each key frame. */
  function Gops(ps: seq<Packet>): seq<seq<Packet>> {
    if ps == [] then []
    else Extend(Gops(ps[..|ps| - 1]), ps[|ps| - 1])
  }

  function Truncate(g: seq<Packet>): seq<Packet> {
    if |g| <= 1024 then g else g[..1024]
  }

  function Last<T>(s: seq<T>, n: nat): seq<T> {
    if |s| <= n then s else s[|s| - n..]
  }

  function Join(gs: seq<seq<Packet>>): seq<Packet> {
    if gs == [] then [] else gs[0] + Join(gs[1..])
  }

  function TruncateAll(gs: seq<seq<Packet>>): (r: seq<seq<Packet>>)
    ensures |r| == |gs|
    ensures forall i | 0 <= i < |gs| :: r[i] == Truncate(gs[i])
  {
    seq(|gs|, i requires 0 <= i < |gs| => Truncate(gs[i]))
  }

  /** The last `count` GOPs, oldest first, each cut off after 1024 packets. */
  function Recent(count: nat, ps: seq<Packet>): seq<Packet> {
    Join(TruncateAll(Last(Gops(ps), count)))
  }

  /** Where the GOP number `g` is kept. */
  function Slot(g: int, count: nat): (s: nat)
    requires count > 0
    ensures s < count
  {
    g % count
  }

  /** GOP `g` of the history is in slot `g` modulo the number of slots. */
  ghost predicate Holds(r: Ring, gs: seq<seq<Packet>>) {
    && r.count in {1, 2} && |r.gops| == r.count
    && r.num == Min(|gs|, r.count)
    && r.nextindex == Slot(|gs|, r.count)
    && r.start == (gs != [])
    && (forall g | |gs| - r.num <= g < |gs| :: r.gops[Slot(g, r.count)] == Some(Truncate(gs[g])))
    && (forall k | |gs| <= k < r.count :: r.gops[k] == None)
  }

  /** What one more packet does to the history. */
  function Extend(gs: seq<seq<Packet>>, p: Packet): seq<seq<Packet>> {
    if p.Opens() then gs + [[p]]
    else if gs == [] then []
    else gs[..|gs| - 1] + [gs[|gs| - 1] + [p]]
  }

  /** One slot, or two in turn: the next one is also the one before. */
  lemma SlotTurn(n: nat, count: nat)
    requires count in {1, 2}
    ensures Slot(n + 1, count) == (Slot(n, count) + 1) % count && Slot(n - 1, count) == (Slot(n, count) + 1) % count
    ensures n >= count ==> Slot(n - count, count) == Slot(n, count)
    ensures n < count ==> Slot(n, count) == n
  {
  }

  lemma SlotsDiffer(g: int, h: int, count: nat)
    requires count in {1, 2} && h - count < g < h
    ensures Slot(g, count) != Slot(h, count)
  {
  }

  lemma TruncateOne(p: Packet)
    ensures Truncate([p]) == [p]
  {
  }

  lemma TruncateMore(g: seq<Packet>, p: Packet)
    ensures Append(Truncate(g), p) == Truncate(g + [p])
  {
  }

  lemma OpenHolds(r: Ring, gs: seq<seq<Packet>>, p: Packet)
    requires Holds(r, gs) && p.Opens()
    ensures WriteRing(r, p).Some? && Holds(WriteRing(r, p).value, Extend(gs, p))
  {
    hide Truncate, Slot;
    var n, k := |gs|, r.nextindex;
    SlotTurn(n, r.count);
    TruncateOne(p);
    if n >= r.count { assert r.gops[k] == Some(Truncate(gs[n - r.count])); }
    var r', gs' := WriteRing(r, p).value, Extend(gs, p);
    forall g | |gs'| - r'.num <= g < |gs'|
      ensures r'.gops[Slot(g, r.count)] == Some(Truncate(gs'[g]))
    {
      if g < n {
        SlotsDiffer(g, n, r.count);
        assert r.gops[Slot(g, r.count)] == Some(Truncate(gs[g]));
      }
    }
  }

  lemma ContinueHolds(r: Ring, gs: seq<seq<Packet>>, p: Packet)
    requires Holds(r, gs) && !p.Opens() && gs != []
    ensures WriteRing(r, p).Some? && Holds(WriteRing(r, p).value, Extend(gs, p))
  {
    hide Truncate, Append, Slot;
    var n, last := |gs|, gs[|gs| - 1];
    SlotTurn(n, r.count);
    assert r.gops[Slot(n - 1, r.count)] == Some(Truncate(last));
    TruncateMore(last, p);
    var r', gs' := WriteRing(r, p).value, Extend(gs, p);
    forall g | |gs'| - r'.num <= g < |gs'|
      ensures r'.gops[Slot(g, r.count)] == Some(Truncate(gs'[g]))
    {
      if g < n - 1 {
        SlotsDiffer(g, n - 1, r.count);
        assert r.gops[Slot(g, r.count)] == Some(Truncate(gs[g]));
      }
    }
  }

  lemma WriteHolds(r: Ring, gs: seq<seq<Packet>>, p: Packet)
    requires Holds(r, gs)
    ensures WriteRing(r, p).Some? && Holds(WriteRing(r, p).value, Extend(gs, p))
  {
    if p.Opens() {
      OpenHolds(r, gs, p);
    } else if gs != [] {
      ContinueHolds(r, gs, p);
    }
  }

  lemma {:induction false} RingHolds(count: nat, ps: seq<Packet>)
    requires count in {1, 2}
    ensures WriteAll(NewRing(count), ps).Some? && Holds(WriteAll(NewRing(count), ps).value, Gops(ps))
  {
    if ps != [] {
      RingHolds(count, ps[..|ps| - 1]);
      WriteHolds(WriteAll(NewRing(count), ps[..|ps| - 1]).value, Gops(ps[..|ps| - 1]), ps[|ps| - 1]);
    }
  }

  lemma SlotIs(r: Ring, gs: seq<seq<Packet>>, i: nat)
    requires Holds(r, gs) && i < r.num
    ensures var g := |gs| - r.num + i;
            SlotOf(r, i) == g % r.count && r.gops[g % r.count] == Some(Truncate(gs[g]))
  {
  }

  lemma LastSplit(gs: seq<seq<Packet>>, n: nat)
    requires 0 < n <= |gs|
    ensures Join(TruncateAll(Last(gs, n))) == Truncate(gs[|gs| - n]) + Join(TruncateAll(Last(gs, n - 1)))
  {
    var rest := Last(gs, n);
    assert rest[1..] == Last(gs, n - 1);
    assert TruncateAll(rest)[1..] == TruncateAll(rest[1..]);
  }

  lemma {:induction false} SendHolds(r: Ring, gs: seq<seq<Packet>>, i: nat)
    requires Holds(r, gs) && i <= r.num
    ensures SendFrom(r, i) == Some(Join(TruncateAll(Last(gs, r.num - i))))
    decreases r.num - i
  {
    hide TruncateAll, SlotOf, Last, Truncate;
    if i == r.num {
      NoneLeft(gs);
    } else {
      SendHolds(r, gs, i + 1);
      SlotIs(r, gs, i);
      LastSplit(gs, r.num - i);
    }
  }

  lemma NoneLeft(gs: seq<seq<Packet>>)
    ensures Join(TruncateAll(Last(gs, 0))) == []
  {
  }

  /** With one or two slots the ring sends exactly the recent GOPs. */
  lemma RingRefines(count: nat, ps: seq<Packet>)
    requires count in {1, 2}
    ensures var r := WriteAll(NewRing(count), ps);
            r.Some? && SendRing(r.value) == Some(Recent(count, ps))
  {
    hide WriteAll, Gops, TruncateAll, SendFrom;
    RingHolds(count, ps);
    var r := WriteAll(NewRing(count), ps).value;
    SendHolds(r, Gops(ps), 0);
    assert Last(Gops(ps), r.num) == Last(Gops(ps), r.count);
    SameCount(count, ps);
  }

  lemma {:induction false} SameCount(count: nat, ps: seq<Packet>)
    ensures WriteAll(NewRing(count), ps).Some? ==> WriteAll(NewRing(count), ps).value.count == count
  {
    if ps != [] {
      SameCount(count, ps[..|ps| - 1]);
    }
  }

  /** A ring of this size is right after every history. */
  ghost predicate Right(count: nat) {
    forall ps: seq<Packet> ::
      var r := WriteAll(NewRing(count), ps);
      r.Some? && SendRing(r.value) == Some(Recent(count, ps))
  }

  /** With any other number of slots it already fails on a key frame, or on the frame after it. */
  lemma RingExact(count: nat)
    ensures Right(count) <==> count in {1, 2}
  {
    if count in {1, 2} {
      forall ps: seq<Packet>
        ensures var r := WriteAll(NewRing(count), ps); r.Some? && SendRing(r.value) == Some(Recent(count, ps))
      {
        RingRefines(count, ps);
      }
    } else {
      var ps := FailsAfterKey(count);
    }
  }

  lemma FailsAfterKey(count: nat) returns (ps: seq<Packet>)
    requires count !in {1, 2}
    ensures WriteAll(NewRing(count), ps).None?
  {
    var key := Packet(true, false, 0, 0, FRAME_KEY, 1, 0, []);
    var inter := key.(frameType := 2);
    var r := NewRing(count);
    ps := [key, inter];
    WriteAllTwo(r, key, inter);
    if count > 2 {
      SmallMod(1, count);
      SmallMod(2, count);
      var r1 := Ring(true, 1, count, 1, r.gops[0 := Some([key])]);
      assert WriteRing(r, key) == Some(r1);
      assert r1.gops[2] == None;
    }
  }

  lemma WriteAllTwo(r: Ring, p: Packet, q: Packet)
    ensures WriteAll(r, [p, q]) == match WriteRing(r, p) case None => None case Some(r1) => WriteRing(r1, q)
  {
    hide WriteRing;
    assert [p, q][..1] == [p] && [p][..0] == [];
    assert WriteAll(r, []) == Some(r);
    assert WriteAll(r, [p]) == WriteRing(r, p);
  }

  // ---- GOPs as suffixes of what was published ----------------------------

  lemma {:induction false} JoinConcat(a: seq<seq<Packet>>, b: seq<seq<Packet>>)
    ensures Join(a + b) == Join(a) + Join(b)
  {
    if a == [] {
      assert a + b == b;
    } else {
      JoinConcat(a[1..], b);
      assert (a + b)[1..] == a[1..] + b;
      Assoc(a[0], Join(a[1..]), Join(b));
    }
  }

  lemma JoinOne(g: seq<Packet>)
    ensures Join([g]) == g
  {
    assert [g][1..] == [];
    assert g + [] == g;
  }

  /** The first packet is a key frame, and no other. */
  ghost predicate OneKey(g: seq<Packet>) {
    g != [] && KeyPicture(g[0]) && forall i | 1 <= i < |g| :: !KeyPicture(g[i])
  }

  ghost predicate StartsWithKey(gs: seq<seq<Packet>>) {
    forall i | 0 <= i < |gs| :: OneKey(gs[i])
  }

  /** Every GOP starts with a key frame, and holds no other. */
  lemma {:induction false} GopsStart(ps: seq<Packet>)
    ensures StartsWithKey(Gops(ps))
  {
    if ps != [] {
      GopsStart(ps[..|ps| - 1]);
    }
  }

  lemma ExtendLast(gs: seq<seq<Packet>>, p: Packet, n: nat)
    requires n > 0 && !p.Opens() && gs != []
    ensures Join(Last(Extend(gs, p), n)) == Join(Last(gs, n)) + [p]
  {
    hide Join;
    var g, head := gs[|gs| - 1], Last(gs, n)[..|Last(gs, n)| - 1];
    assert Last(gs, n) == head + [g];
    assert Last(Extend(gs, p), n) == head + [g + [p]];
    JoinConcat(head, [g]);
    JoinConcat(head, [g + [p]]);
    JoinOne(g);
    JoinOne(g + [p]);
  }

  lemma OpenLast(gs: seq<seq<Packet>>, p: Packet, n: nat)
    requires n > 0 && p.Opens()
    ensures Join(Last(Extend(gs, p), n)) == Join(Last(gs, n - 1)) + [p]
  {
    hide Join;
    assert Last(gs + [[p]], n) == Last(gs, n - 1) + [[p]];
    JoinConcat(Last(gs, n - 1), [[p]]);
    JoinOne([p]);
  }

  /** The last GOPs are what was published last. */
  lemma {:induction false} GopsAreSuffix(ps: seq<Packet>, n: nat)
    ensures var k := |Join(Last(Gops(ps), n))|;
            k <= |ps| && Join(Last(Gops(ps), n)) == ps[|ps| - k..]
    decreases |ps|
  {
    hide Join, Last, Extend;
    if ps == [] || n == 0 {
      NothingLast(Gops(ps), n);
    } else {
      var init, p := ps[..|ps| - 1], ps[|ps| - 1];
      var gs := Gops(init);
      if p.Opens() {
        GopsAreSuffix(init, n - 1);
        OpenLast(gs, p, n);
      } else if gs != [] {
        GopsAreSuffix(init, n);
        ExtendLast(gs, p, n);
      } else {
        NothingLast([], n);
        assert Extend([], p) == [] by { StillNone(p); }
      }
    }
  }

  lemma StillNone(p: Packet)
    requires !p.Opens()
    ensures Extend([], p) == []
  {
  }

  lemma NothingLast(gs: seq<seq<Packet>>, n: nat)
    requires gs == [] || n == 0
    ensures Join(Last(gs, n)) == []
  {
  }

  /** No GOP has outgrown the cache. */
  predicate Short(gs: seq<seq<Packet>>) {
    forall g <- gs :: |g| <= 1024
  }

  lemma {:induction false} TruncateLength(gs: seq<seq<Packet>>)
    ensures |Join(TruncateAll(gs))| <= |Join(gs)|
    ensures |Join(TruncateAll(gs))| == |Join(gs)| ==> Short(gs)
    ensures Short(gs) ==> TruncateAll(gs) == gs
  {
    if gs != [] {
      TruncateLength(gs[1..]);
      assert TruncateAll(gs)[1..] == TruncateAll(gs[1..]);
      if |Join(TruncateAll(gs))| == |Join(gs)| {
        assert forall g <- gs :: g == gs[0] || g in gs[1..];
      }
    }
  }

  /** The GOPs a cache of this size sends have not outgrown it. */
  ghost predicate Fits(count: nat, ps: seq<Packet>) {
    Short(Last(Gops(ps), count))
  }

  function Keys(ps: seq<Packet>): nat {
    if ps == [] then 0 else (if KeyPicture(ps[0]) then 1 else 0) + Keys(ps[1..])
  }

  lemma {:induction false} KeysConcat(a: seq<Packet>, b: seq<Packet>)
    ensures Keys(a + b) == Keys(a) + Keys(b)
  {
    if a == [] {
      assert a + b == b;
    } else {
      KeysConcat(a[1..], b);
      assert (a + b)[1..] == a[1..] + b;
    }
  }

  lemma {:induction false} NoKeys(g: seq<Packet>)
    requires forall i | 0 <= i < |g| :: !KeyPicture(g[i])
    ensures Keys(g) == 0
  {
    if g != [] {
      NoKeys(g[1..]);
    }
  }

  lemma {:induction false} KeysOfGops(gs: seq<seq<Packet>>)
    requires StartsWithKey(gs)
    ensures Keys(Join(gs)) == |gs| == Keys(Join(TruncateAll(gs)))
  {
    if gs != [] {
      hide Truncate;
      KeysOfGops(gs[1..]);
      assert TruncateAll(gs)[1..] == TruncateAll(gs[1..]);
      assert OneKey(gs[0]);
      GopKeys(gs[0]);
      KeysConcat(gs[0], Join(gs[1..]));
      KeysConcat(Truncate(gs[0]), Join(TruncateAll(gs[1..])));
    }
  }

  lemma GopKeys(g: seq<Packet>)
    requires OneKey(g)
    ensures Keys(g) == 1 == Keys(Truncate(g))
  {
    NoKeys(g[1..]);
    NoKeys(Truncate(g)[1..]);
  }

  lemma LastStarts(gs: seq<seq<Packet>>, n: nat)
    requires StartsWithKey(gs)
    ensures StartsWithKey(Last(gs, n))
  {
  }

  /** A proper suffix of some GOPs has fewer key frames than these GOPs cut off. */
  lemma NoOtherSuffix(gs: seq<seq<Packet>>, d: nat)
    requires StartsWithKey(gs) && 0 < d <= |Join(gs)|
    ensures Join(TruncateAll(gs)) != Join(gs)[d..]
  {
    hide TruncateAll;
    var all := Join(gs);
    KeysOfGops(gs);
    assert OneKey(gs[0]) && all[0] == gs[0][0];
    assert all == all[..d] + all[d..];
    KeysConcat(all[..d], all[d..]);
  }

  /** The replay is some gap-free suffix of what was published exactly when no GOP in it has outgrown the cache. */
  lemma ReplayExact(count: nat, ps: seq<Packet>)
    ensures (exists k :: 0 <= k <= |ps| && Recent(count, ps) == ps[k..]) <==> Fits(count, ps)
  {
    hide Gops, Last, Join, Short, TruncateAll, StartsWithKey;
    var gs := Last(Gops(ps), count);
    GopsAreSuffix(ps, count);
    TruncateLength(gs);
    GopsStart(ps);
    LastStarts(Gops(ps), count);
    var at := |ps| - |Join(gs)|;
    if Fits(count, ps) {
      assert Recent(count, ps) == ps[at..];
    }
    forall k | 0 <= k <= |ps| && Recent(count, ps) == ps[k..]
      ensures Fits(count, ps)
    {
      if k > at {
        NoOtherSuffix(gs, k - at);
        assert ps[at..][k - at..] == ps[k..];
      }
    }
  }

  lemma {:induction false} GopCount(ps: seq<Packet>)
    ensures |Gops(ps)| == Keys(ps)
    decreases |ps|
  {
    if ps != [] {
      var init, p := ps[..|ps| - 1], ps[|ps| - 1];
      GopCount(init);
      assert ps == init + [p] && [p][1..] == [];
      KeysConcat(init, [p]);
      assert Keys([p]) == if KeyPicture(p) then 1 else 0;
    }
  }

  /** The replay goes back over as many key frames as there are slots, or over all there have been. */
  lemma RecentKeys(count: nat, ps: seq<Packet>)
    ensures Keys(Recent(count, ps)) == Min(count, Keys(ps))
  {
    hide Gops, Join, Keys;
    GopCount(ps);
    GopsStart(ps);
    LastStarts(Gops(ps), count);
    KeysOfGops(Last(Gops(ps), count));
  }

  // ---- When there are any ------------------------------------------------

  /** A key frame that is no sequence header. */
  predicate KeyPicture(p: Packet) {
    p.isVideo && p.frameType == 1 && p.avcPacketType != 0
  }

  ghost predicate HasKey(ps: seq<Packet>) {
    exists i :: 0 <= i < |ps| && KeyPicture(ps[i])
  }

  lemma {:induction false} GopsExist(ps: seq<Packet>)
    ensures Gops(ps) != [] <==> HasKey(ps)
  {
    if ps != [] {
      var init, p := ps[..|ps| - 1], ps[|ps| - 1];
      GopsExist(init);
      assert ps == init + [p];
      HasKeySnoc(init, p);
    }
  }

  lemma HasKeySnoc(ps: seq<Packet>, p: Packet)
    ensures HasKey(ps + [p]) <==> HasKey(ps) || p.Opens()
  {
    if HasKey(ps) {
      var i :| 0 <= i < |ps| && KeyPicture(ps[i]);
      assert KeyPicture((ps + [p])[i]);
    }
    if p.Opens() { assert KeyPicture((ps + [p])[|ps|]); }
  }
}
