/** The audio clock over whole runs: which time each frame gets, and under which time each batch is muxed. */
module HlsClock {
  import opened Bytes
  import opened HlsSpec
  import HlsTheorems

  ghost predicate AllAudio(frames: seq<Accepted>) {
    forall i | 0 <= i < |frames| :: frames[i].Audio? && frames[i].rate > 0
  }

  /** The clock behind these audio frames, and their times. */
  function Ticks(frames: seq<Accepted>): (r: (Align, seq<nat>))
    requires AllAudio(frames)
    ensures |r.1| == |frames|
  {
    if frames == [] then (Align(0, 0), [])
    else
      var n := |frames| - 1;
      var (clock, ticks) := Ticks(frames[..n]);
      var (clock', tick) := Aligned(clock, frames[n].ts * 90, 92160000 / frames[n].rate);
      (clock', ticks + [tick])
  }

  lemma TicksSnoc(frames: seq<Accepted>, a: Accepted)
    requires AllAudio(frames) && a.Audio? && a.rate > 0
    ensures var (clock, ticks) := Ticks(frames);
            var (clock', tick) := Aligned(clock, a.ts * 90, 92160000 / a.rate);
            Ticks(frames + [a]) == (clock', ticks + [tick])
  {
    hide Aligned;
    assert (frames + [a])[..|frames|] == frames;
  }

  lemma {:induction false} TicksFront(frames: seq<Accepted>, n: nat)
    requires AllAudio(frames) && n <= |frames|
    ensures Ticks(frames[..n]).1 == Ticks(frames).1[..n]
  {
    hide Aligned;
    if n < |frames| {
      var m := |frames| - 1;
      TicksFront(frames[..m], n);
      assert frames[..m][..n] == frames[..n];
    } else {
      assert frames[..n] == frames;
    }
  }

  lemma {:induction false} NextTick(frames: seq<Accepted>, inc: nat)
    requires AllAudio(frames) && forall i | 0 <= i < |frames| :: 92160000 / frames[i].rate == inc
    ensures var (clock, ticks) := Ticks(frames);
            clock.frameBase + clock.frameNum * inc == if frames == [] then 0 else ticks[|ticks| - 1] + inc
  {
    hide Aligned;
    if frames != [] {
      var n := |frames| - 1;
      NextTick(frames[..n], inc);
      NextAligned(Ticks(frames[..n]).0, frames[n].ts * 90, inc);
    }
  }

  lemma NextAligned(clock: Align, dts: nat, inc: nat)
    ensures var (clock', tick) := Aligned(clock, dts, inc);
            clock'.frameBase + clock'.frameNum * inc == tick + inc
  {
    MulSum(inc, clock.frameNum, 1);
  }

  /**
   At one sample rate a frame gets the time of the frame before and the length of
   1024 samples, as long as that is within two milliseconds of its time stamp, and
   the time of its time stamp otherwise. Before the first frame the clock is at 0.
   */
  lemma Cadence(frames: seq<Accepted>, i: nat, inc: nat)
    requires AllAudio(frames) && i < |frames| && forall j | 0 <= j < |frames| :: 92160000 / frames[j].rate == inc
    ensures var ticks, own := Ticks(frames).1, frames[i].ts * 90;
            var next := if i == 0 then 0 else ticks[i - 1] + inc;
            ticks[i] == if own - 180 <= next <= own + 180 then next else own
  {
    var front := frames[..i + 1];
    TicksFront(frames, i + 1);
    TicksFront(frames, i);
    assert front[..i] == frames[..i];
    NextTick(frames[..i], inc);
  }

  // ---- The times of batches ----------------------------------------------

  /** Each batch has the time of its first frame; `base` frames were muxed before. */
  ghost predicate Stamped(cs: seq<Chunk>, ticks: seq<nat>, base: nat) {
    forall c | 0 <= c < |cs| :: StampedAt(cs, ticks, base, c)
  }

  ghost predicate StampedAt(cs: seq<Chunk>, ticks: seq<nat>, base: nat, c: nat)
    requires c < |cs|
  {
    cs[c].Sound? ==> var o := base + |Sounds(cs[..c])|; o < |ticks| && cs[c].pts == ticks[o]
  }

  function Base(items: seq<Item>): nat {
    |Audios(AllTaken(items))|
  }

  ghost predicate AllStamped(items: seq<Item>, ticks: seq<nat>) {
    forall i | 0 <= i < |items| :: Stamped(items[i].segment.chunks, ticks, Base(items[..i]))
  }

  /** What every run keeps: the clock is behind all frames, and every batch is stamped by it. */
  ghost predicate OnTime(st: State, from: seq<Accepted>) {
    var frames := Audios(from);
    && AllAudio(frames) && st.align == Ticks(frames).0
    && AllStamped(st.items, Ticks(frames).1)
    && Stamped(st.segment.chunks, Ticks(frames).1, Base(st.items))
    && (st.pending != [] ==> |st.pending| <= |frames| && st.pendingPts == Ticks(frames).1[|frames| - |st.pending|])
  }

  lemma StampedMore(cs: seq<Chunk>, ticks: seq<nat>, base: nat, more: seq<nat>)
    requires Stamped(cs, ticks, base)
    ensures Stamped(cs, ticks + more, base)
  {
    hide Sounds;
    forall c | 0 <= c < |cs|
      ensures StampedAt(cs, ticks + more, base, c)
    {
      assert StampedAt(cs, ticks, base, c);
    }
  }

  lemma AllStampedMore(items: seq<Item>, ticks: seq<nat>, more: seq<nat>)
    requires AllStamped(items, ticks)
    ensures AllStamped(items, ticks + more)
  {
    hide Stamped, Base;
    forall i | 0 <= i < |items|
      ensures Stamped(items[i].segment.chunks, ticks + more, Base(items[..i]))
    {
      StampedMore(items[i].segment.chunks, ticks, Base(items[..i]), more);
    }
  }

  lemma StampedSnoc(cs: seq<Chunk>, c: Chunk, ticks: seq<nat>, base: nat)
    requires Stamped(cs, ticks, base)
    requires c.Sound? ==> var o := base + |Sounds(cs)|; o < |ticks| && c.pts == ticks[o]
    ensures Stamped(cs + [c], ticks, base)
  {
    hide StampedAt;
    forall i | 0 <= i < |cs| + 1
      ensures StampedAt(cs + [c], ticks, base, i)
    {
      if i < |cs| { StampedFront(cs, c, ticks, base, i); } else { StampedLast(cs, c, ticks, base); }
    }
  }

  lemma StampedFront(cs: seq<Chunk>, c: Chunk, ticks: seq<nat>, base: nat, i: nat)
    requires i < |cs| && StampedAt(cs, ticks, base, i)
    ensures StampedAt(cs + [c], ticks, base, i)
  {
    hide Sounds;
    assert (cs + [c])[..i] == cs[..i];
  }

  lemma StampedLast(cs: seq<Chunk>, c: Chunk, ticks: seq<nat>, base: nat)
    requires c.Sound? ==> var o := base + |Sounds(cs)|; o < |ticks| && c.pts == ticks[o]
    ensures StampedAt(cs + [c], ticks, base, |cs|)
  {
    hide Sounds;
    assert (cs + [c])[..|cs|] == cs;
  }

  lemma AllStampedSnoc(items: seq<Item>, item: Item, ticks: seq<nat>)
    requires AllStamped(items, ticks) && Stamped(item.segment.chunks, ticks, Base(items))
    ensures AllStamped(items + [item], ticks)
  {
    hide Stamped, Base;
    var all := items + [item];
    forall i | 0 <= i < |all|
      ensures Stamped(all[i].segment.chunks, ticks, Base(all[..i]))
    {
      if i < |items| { assert all[..i] == items[..i] && all[i] == items[i]; } else { assert all[..i] == items; }
    }
  }

  /** What is muxed and what is pending are the frames of the open segment. */
  lemma Share(st: State, from: seq<Accepted>)
    requires Good(st, from) && st.started
    ensures |Audios(from)| == Base(st.items) + |Sounds(st.segment.chunks)| + |st.pending|
  {
    hide Stored, Chained, AllTaken, Batch, Batches;
    HlsTheorems.SplitConcat(AllTaken(st.items), st.segment.taken);
  }

  lemma FlushOnTime(st: State, from: seq<Accepted>)
    requires OnTime(st, from)
    requires |Audios(from)| == Base(st.items) + |Sounds(st.segment.chunks)| + |st.pending|
    ensures OnTime(Flush(st), from)
  {
    hide Stamped, AllStamped, Base, Sounds, Audios, Ticks, AllAudio;
    if st.pending != [] {
      StampedSnoc(st.segment.chunks, Sound(st.pendingPts, st.pending), Ticks(Audios(from)).1, Base(st.items));
    }
  }

  lemma CloseOnTime(st: State, from: seq<Accepted>)
    requires st.Valid() && OnTime(st, from) && st.pending == []
    ensures OnTime(Close(st), from)
  {
    hide Stamped, AllStamped, Base, Sounds, Audios, Ticks, AllAudio, Segment.End;
    var item := Item(|st.items| + 1, st.last - st.first, st.segment);
    AllStampedSnoc(st.items, item, Ticks(Audios(from)).1);
    NoneStamped(Ticks(Audios(from)).1, Base(Close(st).items));
  }

  lemma NoneStamped(ticks: seq<nat>, base: nat)
    ensures Stamped([], ticks, base) && AllStamped([], ticks)
  {
  }

  lemma CutOnTime(st: State, from: seq<Accepted>)
    requires Good(st, from) && OnTime(st, from)
    ensures OnTime(CutHere(st), from)
  {
    hide OnTime, Base, Sounds, Audios, Close;
    if st.started && st.last - st.first >= SEGMENT_MS {
      Share(st, from);
      FlushOnTime(st, from);
      CloseOnTime(Flush(st), from);
    } else {
      StartOnTime(st, from);
    }
  }

  lemma StartOnTime(st: State, from: seq<Accepted>)
    requires OnTime(st, from)
    ensures OnTime(st.(started := true), from)
  {
  }

  lemma PutVideoOnTime(st: State, from: seq<Accepted>, a: Accepted)
    requires a.Valid() && a.Video? && OnTime(st, from)
    ensures OnTime(Put(st, a), from + [a])
  {
    hide Stamped, AllStamped, Base, Sounds, Audios, Ticks, AllAudio;
    Snoc(from, a);
    assert Audios(from) + [] == Audios(from);
    StampedSnoc(st.segment.chunks, Pic(a.f), Ticks(Audios(from)).1, Base(st.items));
  }

  lemma PutAudioOnTime(st: State, from: seq<Accepted>, a: Accepted)
    requires a.Valid() && a.Audio? && OnTime(st, from)
    requires |Audios(from)| == Base(st.items) + |Sounds(st.segment.chunks)| + |st.pending|
    ensures OnTime(Put(st, a), from + [a])
  {
    hide Stamped, AllStamped, Base, Sounds, Audios, Ticks, AllAudio, Aligned;
    Snoc(from, a);
    var frames, ticks := Audios(from), Ticks(Audios(from)).1;
    AudioSnoc(frames, a);
    TicksSnoc(frames, a);
    var (align, tick) := Aligned(st.align, a.ts * 90, 92160000 / a.rate);
    AllStampedMore(st.items, ticks, [tick]);
    StampedMore(st.segment.chunks, ticks, Base(st.items), [tick]);
    var s := st.(segment := st.segment.(taken := st.segment.taken + [a]), align := align, pending := st.pending + [a],
                 pendingPts := if st.pending == [] then tick else st.pendingPts);
    assert OnTime(s, from + [a]);
    if |s.pending| >= MAX_FRAMES {
      FlushOnTime(s, from + [a]);
    }
  }

  lemma AudioSnoc(frames: seq<Accepted>, a: Accepted)
    requires AllAudio(frames) && a.Audio? && a.rate > 0
    ensures AllAudio(frames + [a])
  {
  }

  lemma TouchOnTime(st: State, from: seq<Accepted>, ts: nat)
    requires OnTime(st, from)
    ensures OnTime(Touch(st, ts), from)
  {
  }

  /** A key frame opens the segment that the cut has left empty. */
  lemma EmptyShare(st: State, from: seq<Accepted>)
    requires Between(st, from)
    ensures |Audios(from)| == Base(st.items) + |Sounds(st.segment.chunks)| + |st.pending|
  {
  }

  lemma StepOnTime(st: State, from: seq<Accepted>, a: Accepted)
    requires a.Valid() && Good(st, from) && OnTime(st, from)
    ensures OnTime(Step(st, a), if st.started || a.Opens() then from + [a] else from)
  {
    hide Put, Good, OnTime, Base, Sounds, Audios, Touch, CutHere;
    GoodValid(st, from);
    var s := if a.Opens() then CutHere(st) else st;
    if a.Opens() { CutOnTime(st, from); }
    assert s.started == (st.started || a.Opens()) by { StartedNow(st, a); }
    if s.started {
      TouchOnTime(s, from, a.Time());
      if a.Video? {
        PutVideoOnTime(Touch(s, a.Time()), from, a);
      } else {
        Share(st, from);
        TouchKeeps(s, a.Time());
        PutAudioOnTime(Touch(s, a.Time()), from, a);
      }
    }
  }

  lemma GoodValid(st: State, from: seq<Accepted>)
    requires Good(st, from)
    ensures st.Valid()
  {
  }

  lemma StartedNow(st: State, a: Accepted)
    requires st.Valid()
    ensures a.Opens() ==> CutHere(st).started && a.Video?
  {
  }

  lemma TouchKeeps(st: State, ts: nat)
    ensures var r := Touch(st, ts); r.items == st.items && r.segment == st.segment && r.pending == st.pending
  {
  }

  /** Over every run each batch is muxed under the time the clock gave its first frame. */
  lemma {:induction false} RunOnTime(acc: seq<Accepted>)
    requires AllValid(acc)
    ensures OnTime(Run(acc), FromKey(acc))
  {
    hide Good, Step, OnTime;
    if acc == [] {
      FreshOnTime();
    } else {
      var init := acc[..|acc| - 1];
      RunOnTime(init);
      Segments(init);
      StartedIff(init);
      StepOnTime(Run(init), FromKey(init), acc[|acc| - 1]);
    }
  }

  lemma FreshOnTime()
    ensures OnTime(Fresh(), [])
  {
  }
}
