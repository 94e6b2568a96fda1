/**
 The cache of a stream and the loop that hands each published packet to it and
 to the players, with their state in place.
 */
module Streams {
  import opened Bytes
  import opened GopSpec
  import opened StreamSpec
  import opened GopCaches

  class SpecialCache {
    var full: bool
    var p: Option<Packet>

    ghost predicate Valid()
      reads this
    {
      full == p.Some?
    }

    constructor ()
      ensures Valid() && p == None
    {
      full, p := false, None;
    }

    method Write(packet: Packet)
      modifies this
      ensures Valid() && p == Some(packet)
    {
      p, full := Some(packet), true;
    }

    method Send(w: Writer) returns (out: Outcome)
      requires Valid()
      modifies w
      ensures Got(w, One(p), out)
    {
      if !full {
        return Sent;
      }
      var ok := w.Write(p.value);
      out := if ok then Sent else Refused;
    }
  }

  class Cache {
    const gop: GopCache
    const videoSeq: SpecialCache
    const audioSeq: SpecialCache
    const metadata: SpecialCache

    ghost function Footprint(): set<object>
      reads this, gop, gop.gops
    {
      {this, videoSeq, audioSeq, metadata} + gop.Footprint()
    }

    ghost predicate Valid()
      reads Footprint()
    {
      && gop.Valid() && videoSeq.Valid() && audioSeq.Valid() && metadata.Valid()
      && videoSeq != audioSeq && videoSeq != metadata && audioSeq != metadata
    }

    ghost function Contents(): CacheState
      reads Footprint()
    {
      CacheState(gop.Contents(), videoSeq.p, audioSeq.p, metadata.p)
    }

    constructor (gopNum: nat)
      ensures Valid() && Contents() == NewCache(gopNum)
      ensures fresh(Footprint())
    {
      videoSeq := new SpecialCache();
      audioSeq := new SpecialCache();
      metadata := new SpecialCache();
      gop := new GopCache(gopNum);
    }

    /** Files a packet by its kind; `ok` is false where the program would panic. */
    method Write(p: Packet) returns (ok: bool)
      requires Valid()
      modifies Footprint()
      ensures Valid() && fresh(Footprint() - old(Footprint()))
      ensures ok == WriteCache(old(Contents()), p).Some?
      ensures ok ==> Contents() == WriteCache(old(Contents()), p).value
    {
      hide WriteRing;
      if p.isMetadata {
        metadata.Write(p);
        return true;
      } else if !p.isVideo {
        if p.IsAacHeader() {
          audioSeq.Write(p);
        }
        return true;
      } else if p.IsSeq() {
        videoSeq.Write(p);
        return true;
      }
      ok := gop.Write(p);
    }

    /** The whole replay, or as much of it as the player takes. */
    method Send(w: Writer) returns (out: Outcome)
      requires Valid()
      modifies w
      ensures Valid() && Contents() == old(Contents()) && w.closed == old(w.closed)
      ensures SendCache(Contents()).Some? ==> Got(w, SendCache(Contents()).value, out)
      ensures SendCache(Contents()).None? && !w.closed ==> out == Panicked
    {
      hide SendRing;
      ghost var sent := One(metadata.p) + One(videoSeq.p) + One(audioSeq.p);
      out := SendHeaders(w);
      if out != Sent {
        return;
      }
      ghost var between := w.received;
      out := gop.Send(w);
      if SendRing(gop.Contents()).Some? {
        Both(old(w.received), w.closed, sent, SendRing(gop.Contents()).value);
      }
    }

    method SendHeaders(w: Writer) returns (out: Outcome)
      requires Valid()
      modifies w
      ensures Valid() && Contents() == old(Contents())
      ensures Got(w, One(metadata.p) + One(videoSeq.p) + One(audioSeq.p), out)
    {
      out := metadata.Send(w);
      if out != Sent {
        return;
      }
      out := videoSeq.Send(w);
      if out != Sent {
        return;
      }
      out := audioSeq.Send(w);
    }
  }

  lemma Both(start: seq<Packet>, closed: bool, a: seq<Packet>, b: seq<Packet>)
    ensures var s := if closed then [] else a; var t := if closed then [] else b;
            (start + s) + t == start + if closed then [] else a + b
  {
    if !closed {
      assert (start + a) + b == start + (a + b);
    }
  }

  /** A player and whether it has had the replay. */
  class PackWriterCloser {
    var init: bool
    const w: Writer

    constructor (w: Writer)
      ensures !init && this.w == w
    {
      init, this.w := false, w;
    }

    ghost function Contents(): Player
      reads this, w
    {
      Player(init, w.received, w.closed)
    }
  }

  /** Every player has an entry and a connection of its own. */
  ghost predicate Distinct(ws: map<nat, PackWriterCloser>) {
    forall i, j | i in ws && j in ws && i != j :: ws[i] != ws[j] && ws[i].w != ws[j].w
  }

  class Stream {
    const cache: Cache
    var ws: map<nat, PackWriterCloser>

    ghost function Footprint(): set<object>
      reads this, cache, cache.gop, cache.gop.gops
    {
      {this} + cache.Footprint() + Players()
    }

    ghost function Players(): set<object>
      reads this
    {
      (set uid | uid in ws :: ws[uid] as object) + (set uid | uid in ws :: ws[uid].w as object)
    }

    ghost predicate Valid()
      reads this, cache, cache.gop, cache.gop.gops, cache.Footprint()
    {
      cache.Valid() && Distinct(ws)
    }

    ghost function Contents(): State
      reads this, cache, cache.gop, cache.gop.gops, cache.Footprint(), Players()
    {
      State(cache.Contents(), Values(ws))
    }

    constructor (gopNum: nat)
      ensures Valid() && Contents() == State(NewCache(gopNum), map[])
      ensures fresh(Footprint())
    {
      cache := new Cache(gopNum);
      ws := map[];
    }

    method AddWriter(uid: nat, w: Writer)
      requires Valid()
      requires forall i <- ws :: ws[i].w != w
      modifies this
      ensures Valid() && cache.Contents() == old(cache.Contents())
      ensures uid in ws && ws[uid].w == w && fresh(ws[uid]) && !ws[uid].init
      ensures ws == old(ws)[uid := ws[uid]]
      ensures Contents().ws == old(Contents()).ws[uid := Player(false, w.received, w.closed)]
    {
      var pw := new PackWriterCloser(w);
      ws := ws[uid := pw];
    }

    /** Serves one player: `keep` is false where it is removed, `ok` where the program would panic. */
    method Serve(v: PackWriterCloser, p: Packet) returns (ok: bool, keep: bool)
      requires cache.Valid()
      modifies v, v.w
      ensures cache.Valid() && cache.Contents() == old(cache.Contents())
      ensures SendCache(cache.Contents()).Some? ==>
                ok && Goes(old(v.Contents()), SendCache(cache.Contents()).value, p, keep, v.Contents())
    {
      hide SendCache;
      ok := true;
      if !v.init {
        var out := cache.Send(v.w);
        ok, keep := out != Panicked, out == Sent;
        if keep {
          v.init := true;
        }
      } else {
        keep := v.w.Write(p);
      }
    }

    /** Hands a packet to the cache alone. */
    method WriteToCache(p: Packet) returns (ok: bool)
      requires Valid()
      modifies cache.Footprint()
      ensures Valid() && fresh(cache.Footprint() - old(cache.Footprint()))
      ensures ok == WriteCache(old(cache.Contents()), p).Some?
      ensures ok ==> cache.Contents() == WriteCache(old(cache.Contents()), p).value
      ensures ws == old(ws) && Values(ws) == old(Values(ws))
    {
      hide WriteCache;
      PlayersApart();
      ok := cache.Write(p);
      forall uid <- ws
        ensures ws[uid].Contents() == old(ws[uid].Contents())
      {
        assert ws[uid] in Players() && ws[uid].w in Players();
      }
    }

    lemma PlayersApart()
      requires Valid()
      ensures Players() !! cache.Footprint() && this !in cache.Footprint()
    {
    }

    /** Serves one player; the others and the cache stay as they are. */
    method ServeOne(uid: nat, p: Packet) returns (ok: bool, keep: bool)
      requires Valid() && uid in ws
      modifies ws[uid], ws[uid].w
      ensures Valid() && cache.Contents() == old(cache.Contents())
      ensures Values(ws) == old(Values(ws))[uid := Values(ws)[uid]]
      ensures var replay := SendCache(cache.Contents());
              replay.Some? ==> ok && Goes(old(Values(ws))[uid], replay.value, p, keep, Values(ws)[uid])
    {
      hide SendCache;
      ok, keep := Serve(ws[uid], p);
    }

    /** Serves every player, in no particular order, and returns those to remove. */
    method ServePlayers(p: Packet) returns (ok: bool, gone: set<nat>)
      requires Valid()
      modifies Players()
      ensures Valid() && cache.Contents() == old(cache.Contents()) && ws == old(ws)
      ensures var replay := SendCache(cache.Contents());
              replay.Some? ==> ok && Values(ws) - gone == ServeAll(replay.value, old(Values(ws)), p)
    {
      hide SendCache, ServeAll, Serving, Goes;
      ghost var replay := SendCache(cache.Contents());
      ghost var before := Values(ws);
      var rest := ws.Keys;
      gone := {};
      NoneServed(before, replay, p);
      assert rest == before.Keys;
      while rest != {}
        invariant Valid() && cache.Contents() == old(cache.Contents())
        invariant Serving(Values(ws), rest, gone, before, replay, p)
        decreases |rest|
      {
        var uid :| uid in rest;
        OneLeft(Values(ws), rest, gone, before, replay, p, uid);
        ghost var now := Values(ws);
        var served, keep := ServeOne(uid, p);
        if !served {
          return false, gone;
        }
        ServedNext(now, rest, gone, before, replay, p, uid, Values(ws)[uid], keep);
        rest := rest - {uid};
        if !keep {
          gone := gone + {uid};
        }
      }
      AllServed(Values(ws), gone, before, replay, p);
      ok := true;
    }

    method Remove(gone: set<nat>)
      requires Valid()
      modifies `ws
      ensures Valid() && cache.Contents() == old(cache.Contents()) && cache.Footprint() == old(cache.Footprint())
      ensures ws == old(ws) - gone && Values(ws) == old(Values(ws)) - gone
    {
      ws := ws - gone;
    }

    /** What the publisher's loop does with one packet; `ok` is false where it would panic. */
    method Publish(p: Packet) returns (ok: bool)
      requires Valid()
      modifies Footprint()
      ensures Valid() && fresh(cache.Footprint() - old(cache.Footprint()))
      ensures forall uid <- ws :: uid in old(ws) && ws[uid] == old(ws)[uid]
      ensures var c := WriteCache(old(Contents()).cache, p);
              c.Some? && SendCache(c.value).Some? ==> ok && Some(Contents()) == Step(old(Contents()), StreamSpec.Publish(p))
    {
      hide SendCache, WriteCache, ServeAll, Step;
      ghost var st := Contents();
      ok := WriteToCache(p);
      if !ok {
        return;
      }
      var gone;
      ok, gone := ServePlayers(p);
      Remove(gone);
      if SendCache(cache.Contents()).Some? {
        PublishIs(st, p);
      }
    }
  }

  ghost function Values(ws: map<nat, PackWriterCloser>): map<nat, Player>
    reads set uid | uid in ws :: ws[uid], set uid | uid in ws :: ws[uid].w
  {
    map uid | uid in ws :: ws[uid].Contents()
  }

  /** Serving `w` ends with `w'`, and keeps it or not. */
  ghost predicate Goes(w: Player, replay: seq<Packet>, p: Packet, keep: bool, w': Player) {
    var s := StreamSpec.Serve(replay, w, p);
    keep == s.Some? && (keep ==> w' == s.value)
  }

  /** All but the players in `rest` have been served, and those of them in `gone` are to go. */
  ghost predicate Serving(now: map<nat, Player>, rest: set<nat>, gone: set<nat>,
                          before: map<nat, Player>, replay: Option<seq<Packet>>, p: Packet)
  {
    && now.Keys == before.Keys && rest <= before.Keys && gone <= before.Keys - rest
    && (forall uid <- rest :: now[uid] == before[uid])
    && (replay.Some? ==> forall uid <- before.Keys - rest :: Goes(before[uid], replay.value, p, uid !in gone, now[uid]))
  }

  lemma NoneServed(before: map<nat, Player>, replay: Option<seq<Packet>>, p: Packet)
    ensures Serving(before, before.Keys, {}, before, replay, p)
  {
  }

  lemma OneLeft(now: map<nat, Player>, rest: set<nat>, gone: set<nat>, before: map<nat, Player>,
                replay: Option<seq<Packet>>, p: Packet, uid: nat)
    requires Serving(now, rest, gone, before, replay, p) && uid in rest
    ensures uid in now && uid in before && now[uid] == before[uid]
  {
  }

  lemma ServedNext(now: map<nat, Player>, rest: set<nat>, gone: set<nat>, before: map<nat, Player>,
                   replay: Option<seq<Packet>>, p: Packet, uid: nat, w: Player, keep: bool)
    requires Serving(now, rest, gone, before, replay, p) && uid in rest && uid in now
    requires replay.Some? ==> Goes(now[uid], replay.value, p, keep, w)
    ensures Serving(now[uid := w], rest - {uid}, if keep then gone else gone + {uid}, before, replay, p)
  {
    hide Goes;
  }

  lemma AllServed(now: map<nat, Player>, gone: set<nat>, before: map<nat, Player>,
                  replay: Option<seq<Packet>>, p: Packet)
    requires Serving(now, {}, gone, before, replay, p)
    ensures replay.Some? ==> now - gone == ServeAll(replay.value, before, p)
  {
    hide StreamSpec.Serve;
    if replay.Some? {
      forall uid <- before
        ensures Goes(before[uid], replay.value, p, uid !in gone, now[uid])
      {
        assert uid in before.Keys - {};
      }
    }
  }

  lemma PublishIs(st: State, p: Packet)
    requires var c := WriteCache(st.cache, p); c.Some? && SendCache(c.value).Some?
    ensures var c := WriteCache(st.cache, p).value;
            Step(st, StreamSpec.Publish(p)) == Some(State(c, ServeAll(SendCache(c).value, st.ws, p)))
  {
  }
}
