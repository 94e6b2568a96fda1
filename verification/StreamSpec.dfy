/**
 A live stream on values: the publisher's packets go through the cache to every
 player; a player that joined since the last packet is served from the cache.
 */
module StreamSpec {
  import opened Bytes
  import opened GopSpec

  datatype CacheState = CacheState(
    ring: Ring, videoSeq: Option<Packet>, audioSeq: Option<Packet>, metadata: Option<Packet>)

  function NewCache(count: nat): CacheState {
    CacheState(NewRing(count), None, None, None)
  }

  /** `Cache.Write`; `None` is a run-time panic. */
  function WriteCache(c: CacheState, p: Packet): Option<CacheState> {
    if p.isMetadata then Some(c.(metadata := Some(p)))
    else if !p.isVideo then Some(if p.IsAacHeader() then c.(audioSeq := Some(p)) else c)
    else if p.IsSeq() then Some(c.(videoSeq := Some(p)))
    else
      match WriteRing(c.ring, p)
      case None => None
      case Some(r) => Some(c.(ring := r))
  }

  function One(p: Option<Packet>): seq<Packet> {
    if p.Some? then [p.value] else []
  }

  /** `Cache.Send`: metadata and sequence headers, then the GOPs. */
  function SendCache(c: CacheState): Option<seq<Packet>> {
    match SendRing(c.ring)
    case None => None
    case Some(ps) => Some(One(c.metadata) + One(c.videoSeq) + One(c.audioSeq) + ps)
  }

  /** A player; writing to a closed one is an error. */
  datatype Player = Player(init: bool, received: seq<Packet>, closed: bool)

  /** What a published packet means to one player once the cache has it; `None` removes the player. */
  function Serve(replay: seq<Packet>, w: Player, p: Packet): Option<Player> {
    if !w.init then
      if replay != [] && w.closed then None
      else Some(w.(init := true, received := w.received + replay))
    else if w.closed then None
    else Some(w.(received := w.received + [p]))
  }

  datatype State = State(cache: CacheState, ws: map<nat, Player>)

  datatype Event = Publish(p: Packet) | Arrive(uid: nat) | Close(uid: nat)

  function ServeAll(replay: seq<Packet>, ws: map<nat, Player>, p: Packet): map<nat, Player> {
    map uid | uid in ws && Serve(replay, ws[uid], p).Some? :: Serve(replay, ws[uid], p).value
  }

  /** One packet in `TransStart`, a call of `AddWriter`, or a player going away. */
  function Step(st: State, e: Event): Option<State> {
    match e
    case Publish(p) =>
      (match WriteCache(st.cache, p)
       case None => None
       case Some(c) =>
         match SendCache(c)
         case None => if exists uid :: uid in st.ws && !st.ws[uid].init then None else Some(State(c, ServeAll([], st.ws, p)))
         case Some(replay) => Some(State(c, ServeAll(replay, st.ws, p))))
    case Arrive(uid) => Some(st.(ws := st.ws[uid := Player(false, [], false)]))
    case Close(uid) =>
      Some(if uid in st.ws then st.(ws := st.ws[uid := st.ws[uid].(closed := true)]) else st)
  }

  function Run(count: nat, es: seq<Event>): Option<State>
    decreases |es|
  {
    if es == [] then Some(State(NewCache(count), map[]))
    else
      match Run(count, es[..|es| - 1])
      case None => None
      case Some(st) => Step(st, es[|es| - 1])
  }

  /** Video that is no sequence header. */
  predicate Picture(p: Packet) {
    !p.isMetadata && p.isVideo && !(p.frameType == 1 && p.avcPacketType == 0)
  }

  /** The pictures of a sequence. */
  function Video(ps: seq<Packet>): seq<Packet> {
    if ps == [] then []
    else Video(ps[..|ps| - 1]) + (if Picture(ps[|ps| - 1]) then [ps[|ps| - 1]] else [])
  }

  /** The pictures published so far. */
  function Published(es: seq<Event>): seq<Packet> {
    if es == [] then []
    else
      var e := es[|es| - 1];
      Published(es[..|es| - 1]) + (if e.Publish? && Picture(e.p) then [e.p] else [])
  }

  /** Everything published so far. */
  function Everything(es: seq<Event>): seq<Packet> {
    if es == [] then []
    else Everything(es[..|es| - 1]) + (if es[|es| - 1].Publish? then [es[|es| - 1].p] else [])
  }

  function LastMetadata(ps: seq<Packet>): Option<Packet> {
    if ps == [] then None
    else if ps[|ps| - 1].isMetadata then Some(ps[|ps| - 1])
    else LastMetadata(ps[..|ps| - 1])
  }

  /** The last sequence header of the video. */
  function LastVideoHeader(ps: seq<Packet>): Option<Packet> {
    if ps == [] then None
    else
      var p := ps[|ps| - 1];
      if !p.isMetadata && p.isVideo && p.frameType == 1 && p.avcPacketType == 0 then Some(p)
      else LastVideoHeader(ps[..|ps| - 1])
  }

  /** The last AAC sequence header. */
  function LastAudioHeader(ps: seq<Packet>): Option<Packet> {
    if ps == [] then None
    else
      var p := ps[|ps| - 1];
      if !p.isMetadata && !p.isVideo && p.soundFormat == 10 && p.aacPacketType == 0 then Some(p)
      else LastAudioHeader(ps[..|ps| - 1])
  }

  /** What a decoder needs before the first picture. */
  function Headers(ps: seq<Packet>): seq<Packet> {
    One(LastMetadata(ps)) + One(LastVideoHeader(ps)) + One(LastAudioHeader(ps))
  }

  /** Position `k` of `v`, of which `j` were published: at a key frame if there is one by then, else at `j`. */
  ghost predicate StartsAt(v: seq<Packet>, k: nat, j: nat) {
    && k <= j <= |v|
    && if HasKey(v[..j]) then k < j && KeyPicture(v[k]) else k == j
  }

  /**
   The video a player received is everything published from position `k` on,
   where `j` packets were published when it was first served: `k` is at a key
   frame if there was one by then, else nothing is missed from then on.
   */
  ghost predicate GapFree(v: seq<Packet>, received: seq<Packet>, k: nat, j: nat) {
    StartsAt(v, k, j) && Video(received) == v[k..]
  }

  ghost predicate Served(v: seq<Packet>, w: Player) {
    if w.init then exists k: nat, j: nat :: GapFree(v, w.received, k, j) else w.received == []
  }

  ghost predicate NoGaps(v: seq<Packet>, ws: map<nat, Player>) {
    forall uid <- ws :: Served(v, ws[uid])
  }

  ghost predicate CacheOk(c: CacheState, count: nat, v: seq<Packet>) {
    && WriteAll(NewRing(count), v) == Some(c.ring)
    && (c.metadata.Some? ==> !c.metadata.value.InGop())
    && (c.videoSeq.Some? ==> !c.videoSeq.value.InGop())
    && (c.audioSeq.Some? ==> !c.audioSeq.value.InGop())
  }

  ghost predicate AllVideo(v: seq<Packet>) {
    forall i | 0 <= i < |v| :: v[i].InGop()
  }

  // ---- Filters -----------------------------------------------------------

  lemma {:induction false} VideoConcat(a: seq<Packet>, b: seq<Packet>)
    ensures Video(a + b) == Video(a) + Video(b)
    decreases |b|
  {
    if b == [] {
      assert a + b == a;
    } else {
      VideoConcat(a, b[..|b| - 1]);
      assert (a + b)[..|a + b| - 1] == a + b[..|b| - 1];
    }
  }

  lemma {:induction false} VideoOf(v: seq<Packet>)
    requires AllVideo(v)
    ensures Video(v) == v
  {
    if v != [] {
      VideoOf(v[..|v| - 1]);
    }
  }

  lemma VideoOne(p: Packet)
    ensures Video([p]) == if p.InGop() then [p] else []
  {
    assert [p][..0] == [];
  }

  lemma HeadersNotVideo(c: CacheState, count: nat, v: seq<Packet>, ps: seq<Packet>)
    requires CacheOk(c, count, v)
    ensures Video(One(c.metadata) + One(c.videoSeq) + One(c.audioSeq) + ps) == Video(ps)
  {
    var a, b, d := One(c.metadata), One(c.videoSeq), One(c.audioSeq);
    VideoConcat(a + b + d, ps);
    VideoConcat(a + b, d);
    VideoConcat(a, b);
    if a != [] { VideoOne(a[0]); }
    if b != [] { VideoOne(b[0]); }
    if d != [] { VideoOne(d[0]); }
  }

  lemma {:induction false} PublishedVideo(es: seq<Event>)
    ensures AllVideo(Published(es))
  {
    if es != [] {
      PublishedVideo(es[..|es| - 1]);
    }
  }

  // ---- The first service of a player -------------------------------------

  lemma JoinStart(gs: seq<seq<Packet>>)
    requires gs != [] && StartsWithKey(gs)
    ensures Join(gs) != [] && Join(gs)[0].Opens()
  {
    assert OneKey(gs[0]);
  }

  /** The replay is all that was published from a key frame on exactly when what is cached fits. */
  lemma ReplayStart(count: nat, v: seq<Packet>)
    requires count > 0
    ensures (exists k: nat :: StartsAt(v, k, |v|) && Recent(count, v) == v[k..]) <==> Fits(count, v)
  {
    hide Join, Gops, Recent, Short, StartsWithKey, Last, HasKey;
    ReplayExact(count, v);
    assert v[..|v|] == v;
    if Fits(count, v) {
      var gs := Last(Gops(v), count);
      GopsAreSuffix(v, count);
      var k: nat := |v| - |Join(gs)|;
      FitsWhole(count, v);
      GopsStart(v);
      LastStarts(Gops(v), count);
      LastNone(Gops(v), count);
      GopsExist(v);
      if gs != [] { JoinStart(gs); }
      assert StartsAt(v, k, |v|);
    }
  }

  lemma FitsWhole(count: nat, v: seq<Packet>)
    requires Fits(count, v) && |Join(Last(Gops(v), count))| <= |v|
    ensures Recent(count, v) == Join(Last(Gops(v), count))
  {
    TruncateLength(Last(Gops(v), count));
  }

  /** What the cache sends, as video. */
  lemma ReplayVideo(c: CacheState, count: nat, v: seq<Packet>)
    requires count in {1, 2} && CacheOk(c, count, v) && AllVideo(v)
    ensures SendCache(c).Some? && Video(SendCache(c).value) == Recent(count, v)
    ensures SendCache(c).value == [] ==> Fits(count, v)
  {
    hide Gops, SendRing, WriteAll, Join, TruncateAll, Short, Last;
    RingRefines(count, v);
    HeadersNotVideo(c, count, v, Recent(count, v));
    RecentVideo(count, v);
    NothingCached(count, v);
  }

  lemma NothingCached(count: nat, v: seq<Packet>)
    ensures Recent(count, v) == [] ==> Fits(count, v)
  {
    hide Gops;
    var gs := Last(Gops(v), count);
    GopsStart(v);
    LastStarts(Gops(v), count);
    if gs != [] {
      assert OneKey(gs[0]) && TruncateAll(gs)[0] == Truncate(gs[0]);
    }
  }

  lemma {:induction false} GopsVideo(v: seq<Packet>)
    requires AllVideo(v)
    ensures forall i | 0 <= i < |Gops(v)| :: AllVideo(Gops(v)[i])
  {
    if v != [] {
      GopsVideo(v[..|v| - 1]);
      var gs := Gops(v[..|v| - 1]);
      if gs != [] { assert AllVideo(gs[|gs| - 1]); }
    }
  }

  lemma {:induction false} JoinVideo(gs: seq<seq<Packet>>)
    requires forall i | 0 <= i < |gs| :: AllVideo(gs[i])
    ensures AllVideo(Join(TruncateAll(gs)))
  {
    if gs != [] {
      JoinVideo(gs[1..]);
      assert AllVideo(gs[0]) && TruncateAll(gs)[1..] == TruncateAll(gs[1..]);
    }
  }

  lemma RecentVideo(count: nat, v: seq<Packet>)
    requires AllVideo(v)
    ensures Video(Recent(count, v)) == Recent(count, v)
  {
    hide Gops, AllVideo, Join, TruncateAll;
    GopsVideo(v);
    JoinVideo(Last(Gops(v), count));
    VideoOf(Recent(count, v));
  }

  /** A player served with the replay has gap-free video exactly when what is cached fits. */
  lemma ReplayFrom(c: CacheState, count: nat, v: seq<Packet>)
    requires count in {1, 2} && CacheOk(c, count, v) && AllVideo(v)
    ensures SendCache(c).Some?
    ensures (exists k: nat :: GapFree(v, SendCache(c).value, k, |v|)) <==> Fits(count, v)
    ensures (exists k: nat, j: nat :: GapFree(v, SendCache(c).value, k, j)) <==> Fits(count, v)
  {
    hide Recent, StartsAt, Video, SendCache, CacheOk, AllVideo, Fits;
    ReplayVideo(c, count, v);
    ReplayStart(count, v);
    var replay := SendCache(c).value;
    if Fits(count, v) {
      var k: nat :| StartsAt(v, k, |v|) && Recent(count, v) == v[k..] by { StartsInside(v); }
      assert GapFree(v, replay, k, |v|);
    }
    forall k: nat, j: nat | GapFree(v, replay, k, j)
      ensures Fits(count, v)
    {
      StartsInside(v);
      SomeSuffix(count, v, k);
    }
  }

  lemma StartsInside(v: seq<Packet>)
    ensures forall k: nat, j: nat :: StartsAt(v, k, j) ==> k <= j <= |v|
  {
  }

  lemma SomeSuffix(count: nat, v: seq<Packet>, k: nat)
    requires k <= |v| && Recent(count, v) == v[k..]
    ensures Fits(count, v)
  {
    hide Recent, Fits;
    ReplayExact(count, v);
  }

  lemma LastNone(gs: seq<seq<Packet>>, n: nat)
    requires n > 0
    ensures gs == [] <==> Last(gs, n) == []
    ensures gs == [] ==> Join(Last(gs, n)) == []
  {
  }

  // ---- One event ---------------------------------------------------------

  function Appended(v: seq<Packet>, p: Packet): seq<Packet> {
    if p.InGop() then v + [p] else v
  }

  lemma SliceSnoc<T>(s: seq<T>, x: T, k: nat, j: nat)
    requires k <= j <= |s|
    ensures (s + [x])[..j] == s[..j] && (s + [x])[k..] == s[k..] + [x]
  {
  }

  /** A packet that a served player is sent live changes nothing about the gaps. */
  lemma LiveGapFree(v: seq<Packet>, received: seq<Packet>, p: Packet, k: nat, j: nat)
    requires j <= |v|
    ensures GapFree(v, received, k, j) <==> GapFree(Appended(v, p), received + [p], k, j)
  {
    hide HasKey, Video;
    VideoConcat(received, [p]);
    VideoOne(p);
    if k <= j {
      if p.InGop() {
        SliceSnoc(v, p, k, j);
        SameInit(Video(received), v[k..], p);
      } else {
        assert Video(received) + [] == Video(received);
      }
    }
  }

  lemma SameInit<T>(a: seq<T>, b: seq<T>, x: T)
    ensures a + [x] == b + [x] <==> a == b
  {
    assert (a + [x])[..|a + [x]| - 1] == a && (b + [x])[..|b + [x]| - 1] == b;
  }

  lemma LiveServed(v: seq<Packet>, w: Player, p: Packet)
    requires w.init && Served(v, w)
    ensures Served(Appended(v, p), w.(received := w.received + [p]))
  {
    hide Video, HasKey;
    var k: nat, j: nat :| GapFree(v, w.received, k, j);
    LiveGapFree(v, w.received, p, k, j);
  }

  /** A packet that is not video leaves everybody's video alone. */
  lemma CacheStep(c: CacheState, count: nat, v: seq<Packet>, p: Packet)
    requires count in {1, 2} && CacheOk(c, count, v)
    ensures var v' := Appended(v, p);
            WriteCache(c, p).Some? && CacheOk(WriteCache(c, p).value, count, v')
  {
    hide WriteRing;
    if p.InGop() {
      RingHolds(count, v + [p]);
      assert (v + [p])[..|v + [p]| - 1] == v;
    }
  }

  /** Somebody has joined since the last packet and is still there. */
  ghost predicate Waits(ws: map<nat, Player>) {
    exists uid <- ws :: !ws[uid].init && !ws[uid].closed
  }

  /** One more packet gives nobody a gap unless one who waits is sent too long a GOP. */
  lemma PublishStep(st: State, count: nat, v: seq<Packet>, p: Packet)
    requires count in {1, 2} && CacheOk(st.cache, count, v) && AllVideo(v)
    ensures var v' := Appended(v, p);
            var s := Step(st, Publish(p));
            && s.Some? && CacheOk(s.value.cache, count, v')
            && (NoGaps(v, st.ws) ==> (NoGaps(v', s.value.ws) <==> (Waits(st.ws) ==> Fits(count, v'))))
  {
    hide CacheOk, WriteCache, SendCache, GapFree, Fits;
    var v' := Appended(v, p);
    CacheStep(st.cache, count, v, p);
    var c := WriteCache(st.cache, p).value;
    ReplayFrom(c, count, v');
    ReplayVideo(c, count, v');
    var replay := SendCache(c).value;
    if NoGaps(v, st.ws) {
      if Waits(st.ws) ==> Fits(count, v') {
        forall uid <- ServeAll(replay, st.ws, p)
          ensures Served(v', ServeAll(replay, st.ws, p)[uid])
        {
          var w := st.ws[uid];
          assert Served(v, w);
          if w.init {
            LiveServed(v, w, p);
          } else {
            assert w.received + replay == replay;
          }
        }
      } else {
        var uid :| uid in st.ws && !st.ws[uid].init && !st.ws[uid].closed;
        var w := st.ws[uid];
        assert Served(v, w) && w.received + replay == replay;
        assert !Served(v', ServeAll(replay, st.ws, p)[uid]);
      }
    }
  }

  /** After these events nobody has a gap. */
  ghost predicate ServedAfter(count: nat, es: seq<Event>) {
    Run(count, es).Some? && NoGaps(Published(es), Run(count, es).value.ws)
  }

  /** Whenever somebody who joined was served, what was cached had not outgrown the cache. */
  ghost predicate JoinsFit(count: nat, es: seq<Event>)
    decreases |es|
  {
    es != [] ==>
      var init := es[..|es| - 1];
      && JoinsFit(count, init)
      && (es[|es| - 1].Publish? && Run(count, init).Some? && Waits(Run(count, init).value.ws) ==>
            Fits(count, Published(es)))
  }

  /** The cache never stops the publisher. */
  lemma {:induction false} Runs(count: nat, es: seq<Event>)
    requires count in {1, 2}
    ensures Run(count, es).Some? && CacheOk(Run(count, es).value.cache, count, Published(es))
    decreases |es|
  {
    hide CacheOk, Step, Fits;
    if es == [] {
      FreshCache(count);
    } else {
      Runs(count, es[..|es| - 1]);
      EventStep(count, es[..|es| - 1], es[|es| - 1]);
    }
  }

  lemma EventStep(count: nat, es: seq<Event>, e: Event)
    requires count in {1, 2} && Run(count, es).Some? && CacheOk(Run(count, es).value.cache, count, Published(es))
    ensures var st, v := Run(count, es).value, Published(es + [e]);
            var s := Step(st, e);
            && s.Some? && CacheOk(s.value.cache, count, v)
            && (NoGaps(Published(es), st.ws) ==>
                  (NoGaps(v, s.value.ws) <==> (e.Publish? && Waits(st.ws) ==> Fits(count, v))))
  {
    hide Served, Fits, CacheOk, ServeAll, WriteCache, SendCache, Waits;
    assert (es + [e])[..|es + [e]| - 1] == es;
    var st := Run(count, es).value;
    match e
    case Publish(p) =>
      PublishedVideo(es);
      assert Published(es) + [] == Published(es);
      PublishStep(st, count, Published(es), p);
    case Arrive(uid) =>
      assert Published(es) + [] == Published(es);
      FreshPlayer(Published(es));
    case Close(uid) =>
      assert Published(es) + [] == Published(es);
      if uid in st.ws && Served(Published(es), st.ws[uid]) { ClosedPlayer(Published(es), st.ws[uid]); }
  }

  /**
   In every run, with one or two GOPs cached: all players that have been served
   hold, all the time, a gap-free run of the published video, without
   duplicates, from a key frame on if one had been published, if and only if
   nobody who joined was sent a GOP beyond 1024 packets. Players come and go at
   any point.
   */
  lemma {:induction false} LateJoiners(count: nat, es: seq<Event>)
    requires count in {1, 2}
    ensures (forall n | 0 <= n <= |es| :: ServedAfter(count, es[..n])) <==> JoinsFit(count, es)
    decreases |es|
  {
    hide NoGaps, Fits, CacheOk, Step, Waits;
    if es == [] {
      assert ServedAfter(count, es[..0]) by { FreshServed(count); }
    } else {
      var init, e := es[..|es| - 1], es[|es| - 1];
      LateJoiners(count, init);
      Runs(count, init);
      EventStep(count, init, e);
      assert init + [e] == es == es[..|es|];
      assert forall n | 0 <= n <= |init| :: es[..n] == init[..n];
      assert init[..|init|] == init;
      if JoinsFit(count, es) {
        assert ServedAfter(count, es);
        forall n | 0 <= n <= |es|
          ensures ServedAfter(count, es[..n])
        {
          if n < |es| { assert ServedAfter(count, init[..n]); }
        }
      }
      if forall n | 0 <= n <= |es| :: ServedAfter(count, es[..n]) {
        forall n | 0 <= n <= |init|
          ensures ServedAfter(count, init[..n])
        {
          assert ServedAfter(count, es[..n]);
        }
        assert ServedAfter(count, es[..|es|]) && ServedAfter(count, init[..|init|]);
      }
    }
  }

  lemma FreshServed(count: nat)
    ensures ServedAfter(count, [])
  {
  }

  // ---- The headers -------------------------------------------------------

  ghost predicate KeepsHeaders(c: CacheState, ps: seq<Packet>) {
    c.metadata == LastMetadata(ps) && c.videoSeq == LastVideoHeader(ps) && c.audioSeq == LastAudioHeader(ps)
  }

  lemma WriteKeeps(c: CacheState, ps: seq<Packet>, p: Packet)
    requires KeepsHeaders(c, ps) && WriteCache(c, p).Some?
    ensures KeepsHeaders(WriteCache(c, p).value, ps + [p])
  {
    hide WriteRing;
    assert (ps + [p])[..|ps + [p]| - 1] == ps;
  }

  /** The cache holds the last of each kind of header. */
  lemma {:induction false} RunKeeps(count: nat, es: seq<Event>)
    requires Run(count, es).Some?
    ensures KeepsHeaders(Run(count, es).value.cache, Everything(es))
    decreases |es|
  {
    hide WriteCache, SendCache, KeepsHeaders, ServeAll;
    if es == [] {
      NoHeaders(count);
    } else {
      var init, e := es[..|es| - 1], es[|es| - 1];
      RunKeeps(count, init);
      if e.Publish? {
        WriteKeeps(Run(count, init).value.cache, Everything(init), e.p);
      } else {
        assert Everything(init) + [] == Everything(init);
      }
    }
  }

  lemma NoHeaders(count: nat)
    ensures KeepsHeaders(NewCache(count), [])
  {
  }

  /** The whole replay. */
  lemma ReplayIs(c: CacheState, count: nat, v: seq<Packet>, ps: seq<Packet>)
    requires count in {1, 2} && CacheOk(c, count, v) && KeepsHeaders(c, ps)
    ensures SendCache(c) == Some(Headers(ps) + Recent(count, v))
  {
    hide SendRing, WriteAll, Recent;
    RingRefines(count, v);
  }

  /** What a packet brings to one player who is there. */
  ghost predicate Served1(now: map<nat, Player>, uid: nat, w: Player, replay: seq<Packet>, p: Packet) {
    var sent := if w.init then [p] else replay;
    if w.closed && sent != [] then uid !in now
    else uid in now && now[uid] == Player(true, w.received + sent, w.closed)
  }

  /**
   What a published packet does to every player in every run: one who has been
   served gets the packet; one who has not gets the headers and the recent GOPs,
   that packet among them if it is cached; and gone afterwards is exactly who was
   closed and had something to get.
   */
  lemma EveryPublish(count: nat, es: seq<Event>, p: Packet)
    requires count in {1, 2}
    ensures var st, st' := Run(count, es), Run(count, es + [Publish(p)]);
            && st.Some? && st'.Some? && (forall uid <- st'.value.ws :: uid in st.value.ws)
            && forall uid <- st.value.ws ::
                 Served1(st'.value.ws, uid, st.value.ws[uid],
                         Headers(Everything(es) + [p]) + Recent(count, Published(es + [Publish(p)])), p)
  {
    hide CacheOk, WriteCache, SendCache, KeepsHeaders, Headers, Recent;
    var es' := es + [Publish(p)];
    assert es'[..|es'| - 1] == es && es'[|es'| - 1] == Publish(p);
    Runs(count, es);
    Runs(count, es');
    var st := Run(count, es).value;
    CacheStep(st.cache, count, Published(es), p);
    RunKeeps(count, es);
    WriteKeeps(st.cache, Everything(es), p);
    var c := WriteCache(st.cache, p).value;
    assert Published(es') == Appended(Published(es), p);
    ReplayIs(c, count, Published(es'), Everything(es) + [p]);
    var replay := SendCache(c).value;
    assert Run(count, es').value == State(c, ServeAll(replay, st.ws, p));
    forall uid <- st.ws
      ensures Served1(ServeAll(replay, st.ws, p), uid, st.ws[uid], replay, p)
    {
      ServedOne(replay, st.ws, uid, p);
    }
  }

  lemma ServedOne(replay: seq<Packet>, ws: map<nat, Player>, uid: nat, p: Packet)
    requires uid in ws
    ensures Served1(ServeAll(replay, ws, p), uid, ws[uid], replay, p)
  {
    assert ws[uid].received + [] == ws[uid].received;
  }

  // ---- One player, from the event that adds it ---------------------------

  ghost predicate LeavesAlone(es: seq<Event>, uid: nat) {
    forall i | 0 <= i < |es| :: es[i] != Arrive(uid) && es[i] != Close(uid)
  }

  function JoinedRun(before: seq<Event>, uid: nat, p: Packet, after: seq<Event>): seq<Event> {
    before + [Arrive(uid), Publish(p)] + after
  }

  lemma FirstService(count: nat, before: seq<Event>, uid: nat, p: Packet)
    requires count in {1, 2}
    ensures var es := JoinedRun(before, uid, p, []);
            var v, st := Published(es), Run(count, es);
            && st.Some? && uid in st.value.ws
            && st.value.ws[uid] == Player(true, Headers(Everything(es)) + Recent(count, v), false)
            && ((exists k: nat :: GapFree(v, st.value.ws[uid].received, k, |v|)) <==> Fits(count, v))
  {
    hide Fits, CacheOk, WriteCache, SendCache, GapFree, KeepsHeaders, Headers, Recent;
    var es := JoinedRun(before, uid, p, []);
    var es1 := before + [Arrive(uid)];
    assert es[..|es| - 1] == es1 && es1[..|es1| - 1] == before;
    var v := Published(before);
    assert Published(es1) == v && Published(es) == Appended(v, p);
    Runs(count, es1);
    CacheStep(Run(count, es1).value.cache, count, v, p);
    var c := WriteCache(Run(count, es1).value.cache, p).value;
    RunKeeps(count, es1);
    WriteKeeps(Run(count, es1).value.cache, Everything(es1), p);
    ReplayIs(c, count, Published(es), Everything(es));
    PublishedVideo(es);
    ReplayFrom(c, count, Published(es));
    var replay := SendCache(c).value;
    assert [] + replay == replay;
    assert ServeAll(replay, Run(count, es1).value.ws, p)[uid].received == replay;
  }

  lemma LeftAlone(st: State, e: Event, uid: nat)
    requires e != Arrive(uid) && e != Close(uid) && Step(st, e).Some?
    requires uid in st.ws && st.ws[uid].init && !st.ws[uid].closed
    ensures var ws := Step(st, e).value.ws;
            uid in ws && ws[uid] == Player(true, st.ws[uid].received + (if e.Publish? then [e.p] else []), false)
  {
    hide WriteCache, SendCache;
    assert st.ws[uid].received + [] == st.ws[uid].received;
  }

  /**
   A player that joins and is left alone is served with the very next packet: the
   last metadata, the last video header, the last AAC header and the recent GOPs,
   of which that packet may be the last. Everything published later follows,
   each packet once and in order. Its pictures are gap-free, from a key frame if
   one had been published by then, if and only if what was cached then had not
   outgrown the cache.
   */
  lemma {:induction false} JoinerServed(count: nat, before: seq<Event>, uid: nat, p: Packet, after: seq<Event>)
    requires count in {1, 2} && LeavesAlone(after, uid)
    ensures var es, served := JoinedRun(before, uid, p, after), JoinedRun(before, uid, p, []);
            var v, st, joined := Published(es), Run(count, es), Published(served);
            && st.Some? && uid in st.value.ws && st.value.ws[uid].init && !st.value.ws[uid].closed
            && st.value.ws[uid].received == Headers(Everything(served)) + Recent(count, joined) + Everything(after)
            && |joined| <= |v|
            && ((exists k: nat :: GapFree(v, st.value.ws[uid].received, k, |joined|)) <==> Fits(count, joined))
    decreases |after|
  {
    hide Fits, CacheOk, Step, GapFree, Headers, Recent;
    var es := JoinedRun(before, uid, p, after);
    var j := |Published(JoinedRun(before, uid, p, []))|;
    var first := Headers(Everything(JoinedRun(before, uid, p, []))) + Recent(count, Published(JoinedRun(before, uid, p, [])));
    if after == [] {
      FirstService(count, before, uid, p);
      assert first + [] == first;
    } else {
      var last, e := after[..|after| - 1], after[|after| - 1];
      var init := JoinedRun(before, uid, p, last);
      assert es[..|es| - 1] == init && es[|es| - 1] == e;
      var v := Published(init);
      JoinerServed(count, before, uid, p, last);
      Runs(count, es);
      var w := Run(count, init).value.ws[uid];
      LeftAlone(Run(count, init).value, e, uid);
      Assoc(first, Everything(last), if e.Publish? then [e.p] else []);
      if e.Publish? {
        forall k: nat
          ensures GapFree(v, w.received, k, j) <==> GapFree(Appended(v, e.p), w.received + [e.p], k, j)
        {
          LiveGapFree(v, w.received, e.p, k, j);
        }
        assert Published(es) == Appended(v, e.p);
      } else {
        assert Published(es) == v && w.received + [] == w.received;
      }
    }
  }

  lemma FreshCache(count: nat)
    ensures CacheOk(NewCache(count), count, [])
  {
  }

  lemma FreshPlayer(v: seq<Packet>)
    ensures Served(v, Player(false, [], false))
  {
  }

  lemma ClosedPlayer(v: seq<Packet>, w: Player)
    requires Served(v, w)
    ensures Served(v, w.(closed := true))
  {
  }
}
