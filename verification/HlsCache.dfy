/** The sliding window of stored segments and the playlist over it. */
module HlsCache {
  import opened Bytes

  const MAX_ITEMS := 3

  /** The path of a segment, which is also its key. */
  datatype Path = Path(text: string)

  datatype TSItem = TSItem(name: Path, seqNum: nat, duration: nat, data: seq<byte>)

  /** The list of keys, oldest first, and the items by key. */
  datatype Window = Window(ll: seq<Path>, lm: map<Path, TSItem>)

  datatype Call = Call(key: Path, item: TSItem)

  /** `SetItem`: the oldest key makes room, and takes its item with it. */
  function Set(w: Window, c: Call): Window {
    if |w.ll| == MAX_ITEMS then Window(w.ll[1..] + [c.key], (w.lm - {w.ll[0]})[c.key := c.item])
    else Window(w.ll + [c.key], w.lm[c.key := c.item])
  }

  function Run(cs: seq<Call>): Window {
    if cs == [] then Window([], map[]) else Set(Run(cs[..|cs| - 1]), cs[|cs| - 1])
  }

  /** The calls whose items should be there. */
  function Recent(cs: seq<Call>): (r: seq<Call>)
    ensures |r| == Min(|cs|, 3)
  {
    if |cs| <= 3 then cs else cs[|cs| - 3..]
  }

  function Keys(cs: seq<Call>): (r: seq<Path>)
    ensures |r| == |cs| && forall i | 0 <= i < |cs| :: r[i] == cs[i].key
  {
    seq(|cs|, i requires 0 <= i < |cs| => cs[i].key)
  }

  /** List and map hold these items and no others. */
  ghost predicate Holds(w: Window, r: seq<Call>) {
    && w.ll == Keys(r)
    && (forall i | 0 <= i < |r| :: r[i].key in w.lm && w.lm[r[i].key] == r[i].item)
    && (forall k <- w.lm :: exists i :: 0 <= i < |r| && r[i].key == k)
  }

  /** List and map hold exactly the last three items. */
  ghost predicate Agrees(cs: seq<Call>) {
    Holds(Run(cs), Recent(cs))
  }

  /** The source numbers its segments from 1. */
  ghost predicate Numbered(cs: seq<Call>) {
    forall i | 0 <= i < |cs| :: cs[i].item.seqNum == i + 1
  }

  /** No key comes back within three calls. */
  ghost predicate Spaced(cs: seq<Call>) {
    forall i, j | 0 <= i < j < |cs| && j < i + 3 :: cs[i].key != cs[j].key
  }

  /** What one more call does to the last three. */
  function Slide(r: seq<Call>, c: Call): seq<Call> {
    (if |r| == MAX_ITEMS then r[1..] else r) + [c]
  }

  lemma RecentSnoc(cs: seq<Call>, c: Call)
    ensures Recent(cs + [c]) == Slide(Recent(cs), c)
  {
  }

  /** No key of the last three comes twice, nor once more in the next call. */
  ghost predicate Apart(r: seq<Call>, c: Call) {
    && (forall i, j | 0 <= i < j < |r| :: r[i].key != r[j].key)
    && (forall i | (if |r| == MAX_ITEMS then 1 else 0) <= i < |r| :: r[i].key != c.key)
  }

  lemma SetItems(w: Window, r: seq<Call>, c: Call)
    requires Holds(w, r) && |r| <= MAX_ITEMS && Apart(r, c)
    ensures var w', r' := Set(w, c), Slide(r, c);
            w'.ll == Keys(r') && forall i | 0 <= i < |r'| :: r'[i].key in w'.lm && w'.lm[r'[i].key] == r'[i].item
  {
    var r', d := Slide(r, c), if |r| == MAX_ITEMS then 1 else 0;
    assert forall i | 0 <= i < |r'| - 1 :: r'[i] == r[i + d];
  }

  lemma SetOnly(w: Window, r: seq<Call>, c: Call)
    requires Holds(w, r) && |r| <= MAX_ITEMS
    ensures forall k <- Set(w, c).lm :: exists i :: 0 <= i < |Slide(r, c)| && Slide(r, c)[i].key == k
  {
    var w', r', d := Set(w, c), Slide(r, c), if |r| == MAX_ITEMS then 1 else 0;
    forall k <- w'.lm
      ensures exists i :: 0 <= i < |r'| && r'[i].key == k
    {
      if k == c.key {
        assert r'[|r'| - 1].key == k;
      } else {
        var i :| 0 <= i < |r| && r[i].key == k;
        assert r'[i - d].key == k;
      }
    }
  }

  lemma SetHolds(w: Window, r: seq<Call>, c: Call)
    requires Holds(w, r) && |r| <= MAX_ITEMS && Apart(r, c)
    ensures Holds(Set(w, c), Slide(r, c))
  {
    hide Set, Slide, Apart;
    SetItems(w, r, c);
    SetOnly(w, r, c);
  }

  lemma {:induction false} SpacedAgrees(cs: seq<Call>)
    requires Spaced(cs)
    ensures Agrees(cs)
  {
    if cs != [] {
      var init, c := cs[..|cs| - 1], cs[|cs| - 1];
      hide Set, Slide, Apart, Holds;
      SpacedAgrees(init);
      assert cs == init + [c];
      RecentSnoc(init, c);
      RecentSpaced(init, c);
      SetHolds(Run(init), Recent(init), c);
    }
  }

  lemma RecentSpaced(cs: seq<Call>, c: Call)
    requires Spaced(cs + [c])
    ensures Apart(Recent(cs), c)
  {
    var r, all := Recent(cs), cs + [c];
    var d := |cs| - |r|;
    forall i | 0 <= i < |r|
      ensures r[i] == all[i + d]
    {
    }
    assert all[|cs|] == c;
    hide Recent, Spaced;
    forall i, j | 0 <= i < j < |r|
      ensures r[i].key != r[j].key
    {
      SpacedAt(all, i + d, j + d);
    }
    forall i | (if |r| == MAX_ITEMS then 1 else 0) <= i < |r|
      ensures r[i].key != c.key
    {
      SpacedAt(all, i + d, |cs|);
    }
  }

  lemma SpacedAt(cs: seq<Call>, i: nat, j: nat)
    requires Spaced(cs) && i < j < |cs| && j < i + MAX_ITEMS
    ensures cs[i].key != cs[j].key
  {
  }

  /** List and map agree through a whole run exactly when no key comes back within three calls. */
  lemma AgreesExactly(cs: seq<Call>)
    requires Numbered(cs)
    ensures (forall n | 0 <= n <= |cs| :: Agrees(cs[..n])) <==> Spaced(cs)
  {
    if Spaced(cs) {
      forall n | 0 <= n <= |cs|
        ensures Agrees(cs[..n])
      {
        assert forall i | 0 <= i < n :: cs[..n][i] == cs[i];
        SpacedAgrees(cs[..n]);
      }
    }
    if forall n | 0 <= n <= |cs| :: Agrees(cs[..n]) {
      forall i, j | 0 <= i < j < |cs| && j < i + MAX_ITEMS
        ensures cs[i].key != cs[j].key
      {
        Clash(cs, i, j);
      }
    }
  }

  lemma Clash(cs: seq<Call>, i: nat, j: nat)
    requires Numbered(cs) && i < j < |cs| && j < i + MAX_ITEMS && Agrees(cs[..j + 1])
    ensures cs[i].key != cs[j].key
  {
    hide Run;
    var r := Recent(cs[..j + 1]);
    assert r[|r| - 1] == cs[j] && r[|r| - 1 - (j - i)] == cs[i];
    assert cs[i].item.seqNum != cs[j].item.seqNum;
  }

  // ---- The playlist ------------------------------------------------------

  datatype Entry = Entry(duration: nat, name: Path)

  /** What a playlist says, without its layout. */
  datatype Playlist = Playlist(targetDuration: nat, mediaSequence: nat, entries: seq<Entry>)

  function Listed(w: Window): seq<TSItem>
    decreases |w.ll|
  {
    if w.ll == [] then []
    else
      var k := w.ll[|w.ll| - 1];
      Listed(w.(ll := w.ll[..|w.ll| - 1])) + (if k in w.lm then [w.lm[k]] else [])
  }

  function Longest(items: seq<TSItem>): (d: nat)
    ensures forall i | 0 <= i < |items| :: items[i].duration <= d
    ensures d == 0 || exists i :: 0 <= i < |items| && items[i].duration == d
  {
    if items == [] then 0
    else
      var d, last := Longest(items[..|items| - 1]), items[|items| - 1];
      assert forall i | 0 <= i < |items| - 1 :: items[i] == items[..|items| - 1][i];
      if last.duration > d then last.duration else d
  }

  function Entries(items: seq<TSItem>): (r: seq<Entry>)
    ensures |r| == |items| && forall i | 0 <= i < |items| :: r[i] == Entry(items[i].duration, items[i].name)
  {
    seq(|items|, i requires 0 <= i < |items| => Entry(items[i].duration, items[i].name))
  }

  function PlaylistOf(w: Window): Playlist {
    var items := Listed(w);
    Playlist(Longest(items) / 1000 + 1, if items == [] then 0 else items[0].seqNum, Entries(items))
  }

  function Items(cs: seq<Call>): (r: seq<TSItem>)
    ensures |r| == |cs| && forall i | 0 <= i < |cs| :: r[i] == cs[i].item
  {
    seq(|cs|, i requires 0 <= i < |cs| => cs[i].item)
  }

  lemma {:induction false} ListedIs(w: Window, cs: seq<Call>)
    requires w.ll == Keys(cs)
    requires forall i | 0 <= i < |cs| :: cs[i].key in w.lm && w.lm[cs[i].key] == cs[i].item
    ensures Listed(w) == Items(cs)
    decreases |cs|
  {
    if cs != [] {
      var init := cs[..|cs| - 1];
      ListedIs(w.(ll := w.ll[..|w.ll| - 1]), init);
      assert Items(cs) == Items(init) + [cs[|cs| - 1].item];
    }
  }

  /** One second more than the longest duration, cut to whole seconds. */
  ghost predicate Target(t: nat, r: seq<Call>) {
    && (forall i | 0 <= i < |r| :: r[i].item.duration / 1000 < t)
    && (if r == [] then t == 1 else exists i :: 0 <= i < |r| && r[i].item.duration / 1000 == t - 1)
  }

  /**
   After a run without early repeats the playlist names the last three segments
   in order, starts at the number of the oldest, and its target duration is one
   second more than the longest, which bounds every duration rounded to the nearest
   second (RFC 8216, section 4.3.3.1).
   */
  lemma PlaylistRight(cs: seq<Call>)
    requires Numbered(cs) && Spaced(cs)
    ensures var p, r := PlaylistOf(Run(cs)), Recent(cs);
            && p.entries == Entries(Items(r))
            && p.mediaSequence == (if cs == [] then 0 else |cs| - |r| + 1)
            && Target(p.targetDuration, r)
            && forall i | 0 <= i < |r| :: (r[i].item.duration + 500) / 1000 <= p.targetDuration
  {
    hide Run, Recent, Listed, Longest, Spaced;
    var w, r := Run(cs), Recent(cs);
    SpacedAgrees(cs);
    ListedIs(w, r);
    Oldest(cs);
    forall i | 0 <= i < |r|
      ensures (r[i].item.duration + 500) / 1000 <= PlaylistOf(w).targetDuration
    {
      assert Items(r)[i].duration <= Longest(Items(r));
    }
    TargetIs(r);
  }

  lemma Oldest(cs: seq<Call>)
    ensures cs != [] ==> Recent(cs) != [] && Recent(cs)[0] == cs[|cs| - |Recent(cs)|]
  {
  }

  lemma TargetIs(r: seq<Call>)
    ensures Target(Longest(Items(r)) / 1000 + 1, r)
  {
    var d := Longest(Items(r));
    forall i | 0 <= i < |r|
      ensures r[i].item.duration / 1000 < d / 1000 + 1
    {
      assert Items(r)[i].duration <= d;
    }
    if r != [] && d == 0 {
      assert Items(r)[0].duration == 0 && r[0].item.duration == 0;
    } else if r != [] {
      var i :| 0 <= i < |Items(r)| && Items(r)[i].duration == d;
      assert r[i].item.duration / 1000 == d / 1000;
    }
  }

  lemma OneLonger(items: seq<TSItem>, v: TSItem)
    ensures Longest(items + [v]) == if v.duration > Longest(items) then v.duration else Longest(items)
    ensures Entries(items + [v]) == Entries(items) + [Entry(v.duration, v.name)]
  {
    assert (items + [v])[..|items + [v]| - 1] == items;
  }

  lemma NothingListed(lm: map<Path, TSItem>)
    ensures Longest([]) == 0 && Listed(Window([], lm)) == []
  {
  }

  lemma ListedNext(ll: seq<Path>, lm: map<Path, TSItem>, i: nat)
    requires i < |ll|
    ensures Listed(Window(ll[..i + 1], lm))
            == Listed(Window(ll[..i], lm)) + if ll[i] in lm then [lm[ll[i]]] else []
  {
    assert ll[..i + 1][..i] == ll[..i];
  }

  /** The same entry by entry. */
  lemma PlaylistEntry(cs: seq<Call>, i: nat)
    requires Numbered(cs) && Spaced(cs) && |cs| - |Recent(cs)| <= i < |cs|
    ensures var p, k := PlaylistOf(Run(cs)), i - (|cs| - |Recent(cs)|);
            && |p.entries| == |Recent(cs)|
            && p.entries[k] == Entry(cs[i].item.duration, cs[i].item.name)
            && (cs[i].item.duration + 500) / 1000 <= p.targetDuration && cs[i].item.duration / 1000 < p.targetDuration
  {
    hide PlaylistOf, Run, Numbered, Spaced;
    PlaylistRight(cs);
    assert Recent(cs)[i - (|cs| - |Recent(cs)|)] == cs[i];
  }

  lemma PlaylistLongest(cs: seq<Call>) returns (i: nat)
    requires Numbered(cs) && Spaced(cs)
    ensures var p := PlaylistOf(Run(cs));
            if cs == [] then p.targetDuration == 1
            else |cs| - |Recent(cs)| <= i < |cs| && cs[i].item.duration / 1000 == p.targetDuration - 1
  {
    hide PlaylistOf, Run, Numbered, Spaced;
    PlaylistRight(cs);
    i := 0;
    if cs != [] {
      var r, t := Recent(cs), PlaylistOf(Run(cs)).targetDuration;
      var k :| 0 <= k < |r| && r[k].item.duration / 1000 == t - 1;
      i := k + (|cs| - |r|);
      assert r[k] == cs[i];
    }
  }

  class TSCacheItem {
    const num: nat
    var ll: seq<Path>
    var lm: map<Path, TSItem>

    ghost predicate Valid()
      reads this
    {
      num == MAX_ITEMS && |ll| <= num
    }

    function Contents(): Window
      reads this
    {
      Window(ll, lm)
    }

    constructor ()
      ensures Valid() && Contents() == Run([])
    {
      num, ll, lm := MAX_ITEMS, [], map[];
    }

    method SetItem(key: Path, item: TSItem)
      requires Valid()
      modifies this
      ensures Valid() && Contents() == Set(old(Contents()), Call(key, item))
    {
      if |ll| == num {
        var k := ll[0];
        ll := ll[1..];
        lm := lm - {k};
      }
      lm := lm[key := item];
      ll := ll + [key];
    }

    method GetItem(key: Path) returns (item: Option<TSItem>)
      ensures item == if key in lm then Some(lm[key]) else None
    {
      if key !in lm {
        return None;
      }
      item := Some(lm[key]);
    }

    method GenM3U8PlayList() returns (p: Playlist)
      ensures p == PlaylistOf(Contents())
    {
      hide Longest, Listed;
      NothingListed(lm);
      var seqNum, getSeq, maxDuration := 0, false, 0;
      var body: seq<Entry> := [];
      ghost var items: seq<TSItem> := [];
      for i := 0 to |ll|
        invariant items == Listed(Window(ll[..i], lm))
        invariant getSeq == (items != []) && seqNum == (if items == [] then 0 else items[0].seqNum)
        invariant maxDuration == Longest(items) && body == Entries(items)
      {
        var key := ll[i];
        ListedNext(ll, lm, i);
        if key in lm {
          var v := lm[key];
          if v.duration > maxDuration {
            maxDuration := v.duration;
          }
          if !getSeq {
            getSeq, seqNum := true, v.seqNum;
          }
          body := body + [Entry(v.duration, v.name)];
          OneLonger(items, v);
          items := items + [v];
        }
      }
      assert ll[..|ll|] == ll;
      p := Playlist(maxDuration / 1000 + 1, seqNum, body);
    }
  }
}
