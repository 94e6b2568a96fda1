/** H.264 NAL units, length-prefixed as in a tag and behind start codes as in Annex B. */
module H264Spec {
  import opened Bytes

  type Nal = seq<byte>

  const NAL_SLICE := 1
  const NAL_IDR := 5
  const NAL_SEI := 6
  const NAL_SPS := 7
  const NAL_PPS := 8

  const START_CODE: seq<byte> := [0, 0, 0, 1]
  const AUD: Nal := [0x09, 0xf0]

  function Type(n: Nal): nat
    requires n != []
  {
    n[0] % 32
  }

  predicate Kept(n: Nal) { n != [] && Type(n) in {NAL_SLICE, NAL_IDR, NAL_SEI} }

  predicate Idr(n: Nal) { n != [] && Type(n) == NAL_IDR }

  predicate Param(n: Nal) { n != [] && Type(n) in {NAL_SPS, NAL_PPS} }

  // ---- Length-prefixed units ---------------------------------------------

  predicate Sized(n: Nal) { 0 < |n| < 0x1_0000_0000 }

  ghost predicate AllSized(ns: seq<Nal>) {
    forall i | 0 <= i < |ns| :: Sized(ns[i])
  }

  function Framed(ns: seq<Nal>): seq<byte> {
    if ns == [] then [] else BE(|ns[0]|, 4) + ns[0] + Framed(ns[1..])
  }

  datatype Error = VideoDataInvalid | DataSizeNotMatch | NaluBodyLenError | DecDataNil | SpsDataError | PpsHeaderError | PpsDataError

  datatype Status = Done | Failed(error: Error)

  datatype Units = Units(nals: seq<Nal>, status: Status)

  /** As many whole units as the bytes begin with, and whether they end there. */
  function UnitsOf(src: seq<byte>): Units {
    if src == [] then Units([], Done)
    else if |src| < 4 then Units([], Failed(DataSizeNotMatch))
    else
      var n := FromBE(src[..4]);
      if 0 < n <= |src| - 4 then
        var u := UnitsOf(src[4 + n..]);
        Units([src[4..4 + n]] + u.nals, u.status)
      else Units([], Failed(NaluBodyLenError))
  }

  lemma FramedParts(ns: seq<Nal>)
    requires ns != [] && AllSized(ns)
    ensures var src, n := Framed(ns), |ns[0]|;
            && 4 + n <= |src| && FromBE(src[..4]) == n
            && src[4..4 + n] == ns[0] && src[4 + n..] == Framed(ns[1..])
  {
    var n := |ns[0]|;
    var h, rest := BE(n, 4), Framed(ns[1..]);
    assert Framed(ns) == h + ns[0] + rest;
    hide *;
    Parts(h, ns[0], rest);
    BERoundTrip(n, 4);
    assert n % Pow256(4) == n by { Fits(ns, n); }
  }

  lemma Fits(ns: seq<Nal>, n: nat)
    requires ns != [] && AllSized(ns) && n == |ns[0]|
    ensures n % Pow256(4) == n
  {
    assert Sized(ns[0]);
    Pow256Values();
  }

  lemma Parts(a: seq<byte>, b: seq<byte>, c: seq<byte>)
    ensures var s := a + b + c;
            s[..|a|] == a && s[|a|..|a| + |b|] == b && s[|a| + |b|..] == c
  {
  }

  lemma {:induction false} UnitsOfFramed(ns: seq<Nal>)
    requires AllSized(ns)
    ensures UnitsOf(Framed(ns)) == Units(ns, Done)
  {
    hide Framed;
    if ns == [] {
      assert Framed(ns) == [] by { FramedNone(); }
    } else {
      UnitsOfFramed(ns[1..]);
      FramedParts(ns);
      assert [ns[0]] + ns[1..] == ns;
    }
  }

  lemma FramedNone()
    ensures Framed([]) == []
  {
  }

  lemma {:induction false} UnitsAreFramed(src: seq<byte>)
    ensures var u := UnitsOf(src);
            AllSized(u.nals) && (u.status == Done ==> src == Framed(u.nals))
  {
    hide BE, FromBE;
    if |src| >= 4 && 0 < FromBE(src[..4]) <= |src| - 4 {
      var n := FromBE(src[..4]);
      UnitsAreFramed(src[4 + n..]);
      FromBEBound(src[..4]);
      Pow256Values();
      var u := UnitsOf(src);
      assert u.nals[1..] == UnitsOf(src[4 + n..]).nals;
      BEOf(src[..4]);
      if u.status == Done {
        assert src == src[..4] + src[4..4 + n] + src[4 + n..];
      }
    }
  }

  /** A tag body converts exactly when it is one or more non-empty units behind 4-byte lengths. */
  lemma ConvertsExactly(src: seq<byte>)
    ensures (|src| >= 4 && UnitsOf(src).status == Done)
       <==> exists ns: seq<Nal> :: ns != [] && AllSized(ns) && src == Framed(ns)
  {
    if |src| >= 4 && UnitsOf(src).status == Done {
      UnitsAreFramed(src);
      assert UnitsOf(src).nals != [];
    }
    if ns: seq<Nal> :| ns != [] && AllSized(ns) && src == Framed(ns) {
      UnitsOfFramed(ns);
    }
  }

  // ---- Annex B -----------------------------------------------------------

  function Annexed(ns: seq<Nal>): seq<byte> {
    if ns == [] then [] else START_CODE + ns[0] + Annexed(ns[1..])
  }

  function Slices(ns: seq<Nal>): seq<Nal> {
    if ns == [] then [] else Slices(ns[..|ns| - 1]) + (if Kept(ns[|ns| - 1]) then [ns[|ns| - 1]] else [])
  }

  function Params(ns: seq<Nal>): seq<Nal> {
    if ns == [] then [] else Params(ns[..|ns| - 1]) + (if Param(ns[|ns| - 1]) then [ns[|ns| - 1]] else [])
  }

  /** The position of the first IDR unit, or the length. */
  function FirstIdr(ns: seq<Nal>): (i: nat)
    ensures i <= |ns|
    ensures forall j | 0 <= j < i :: !Idr(ns[j])
    ensures i < |ns| ==> Idr(ns[i])
  {
    if ns == [] || Idr(ns[0]) then 0 else 1 + FirstIdr(ns[1..])
  }

  /** The parameter sets an IDR unit goes out behind: those seen before it, else the stored ones. */
  function ParamsFor(before: seq<Nal>, info: seq<Nal>): seq<Nal> {
    if Params(before) == [] then info else Params(before)
  }

  /**
   What one access unit becomes: the delimiter, then the slices and SEI in
   order, with parameter sets once, before the first IDR unit.
   */
  function Output(ns: seq<Nal>, info: seq<Nal>): seq<Nal> {
    var i := FirstIdr(ns);
    [AUD] + Slices(ns[..i]) + (if i < |ns| then ParamsFor(ns[..i], info) else []) + Slices(ns[i..])
  }

  lemma {:induction false} AnnexedConcat(a: seq<Nal>, b: seq<Nal>)
    ensures Annexed(a + b) == Annexed(a) + Annexed(b)
  {
    if a == [] {
      assert a + b == b;
    } else {
      AnnexedConcat(a[1..], b);
      assert (a + b)[1..] == a[1..] + b;
      Assoc(START_CODE + a[0], Annexed(a[1..]), Annexed(b));
    }
  }

  lemma AnnexedOne(n: Nal)
    ensures Annexed([n]) == START_CODE + n
  {
    assert [n][1..] == [];
  }

  lemma FirstIdrIs(ns: seq<Nal>, i: nat)
    requires i <= |ns| && (forall j | 0 <= j < i :: !Idr(ns[j])) && (i < |ns| ==> Idr(ns[i]))
    ensures FirstIdr(ns) == i
  {
  }

  lemma SlicesSnoc(ns: seq<Nal>, n: Nal)
    ensures Slices(ns + [n]) == Slices(ns) + if Kept(n) then [n] else []
    ensures Params(ns + [n]) == Params(ns) + if Param(n) then [n] else []
  {
    assert (ns + [n])[..|ns + [n]| - 1] == ns;
  }

  lemma FirstIdrSnoc(ns: seq<Nal>, n: Nal)
    ensures FirstIdr(ns + [n]) == if FirstIdr(ns) < |ns| || Idr(n) then FirstIdr(ns) else |ns| + 1
  {
    FirstIdrIs(ns + [n], if FirstIdr(ns) < |ns| || Idr(n) then FirstIdr(ns) else |ns| + 1);
  }

  lemma SnocSlices<T>(s: seq<T>, x: T, i: nat)
    requires i <= |s|
    ensures (s + [x])[..i] == s[..i] && (s + [x])[i..] == s[i..] + [x]
    ensures s[..|s|] == s && s[|s|..] == []
  {
  }

  lemma Regroup<T>(a: seq<T>, b: seq<T>, c: seq<T>, d: seq<T>)
    ensures a + b + (c + d) == a + b + c + [] + d
    ensures a + (b + c) + [] + [] == a + b + [] + [] + [] + c
    ensures a + [] + [] + b + c == a + b + c
  {
    assert a + [] == a;
    assert a + b + [] == a + b;
    assert a + b + c + [] == a + b + c;
    assert a + b + (c + d) == a + b + c + d;
    assert a + (b + c) + [] + [] == a + (b + c) == a + b + c;
  }

  ghost predicate OutputGrows(ns: seq<Nal>, n: Nal, info: seq<Nal>) {
    Output(ns + [n], info) == Output(ns, info)
      + (if FirstIdr(ns) == |ns| && Idr(n) then ParamsFor(ns, info) else [])
      + (if Kept(n) then [n] else [])
  }

  lemma AfterIdr(ns: seq<Nal>, n: Nal, info: seq<Nal>)
    requires FirstIdr(ns) < |ns|
    ensures OutputGrows(ns, n, info)
  {
    var i := FirstIdr(ns);
    FirstIdrSnoc(ns, n);
    SlicesSnoc(ns[i..], n);
    SnocSlices(ns, n, i);
    hide FirstIdr, Kept, Params, Slices, ParamsFor, Idr;
    Regroup([AUD] + Slices(ns[..i]), ParamsFor(ns[..i], info), Slices(ns[i..]), if Kept(n) then [n] else []);
  }

  lemma AtIdr(ns: seq<Nal>, n: Nal, info: seq<Nal>)
    requires FirstIdr(ns) == |ns| && Idr(n)
    ensures OutputGrows(ns, n, info)
  {
    var i := |ns|;
    FirstIdrSnoc(ns, n);
    SlicesSnoc([], n);
    SlicesNone();
    SnocSlices(ns, n, i);
    hide FirstIdr, Kept, Params, Slices, ParamsFor, Idr;
    var last := if Kept(n) then [n] else [];
    assert [] + last == last && [] + [n] == [n];
    Regroup([AUD] + Slices(ns), ParamsFor(ns, info), last, []);
  }

  lemma BeforeIdr(ns: seq<Nal>, n: Nal, info: seq<Nal>)
    requires FirstIdr(ns) == |ns| && !Idr(n)
    ensures OutputGrows(ns, n, info)
  {
    FirstIdrSnoc(ns, n);
    SlicesSnoc(ns, n);
    SlicesNone();
    SnocSlices(ns, n, |ns|);
    SnocSlices(ns + [n], n, 0);
    hide FirstIdr, Kept, Params, Slices, ParamsFor, Idr;
    Regroup([AUD], Slices(ns), if Kept(n) then [n] else [], []);
  }

  /** How one more unit changes the output. */
  lemma OutputSnoc(ns: seq<Nal>, n: Nal, info: seq<Nal>)
    ensures OutputGrows(ns, n, info)
  {
    hide OutputGrows, Idr;
    if FirstIdr(ns) < |ns| {
      AfterIdr(ns, n, info);
    } else if Idr(n) {
      AtIdr(ns, n, info);
    } else {
      BeforeIdr(ns, n, info);
    }
  }

  lemma SlicesNone()
    ensures Slices([]) == []
  {
  }

  /** The units of these types. */
  function OfTypes(ns: seq<Nal>, types: set<int>): seq<Nal> {
    if ns == [] then []
    else (if ns[0] != [] && ns[0][0] % 32 in types then [ns[0]] else []) + OfTypes(ns[1..], types)
  }

  lemma {:induction false} OfTypesSnoc(ns: seq<Nal>, n: Nal, types: set<int>)
    ensures OfTypes(ns + [n], types) == OfTypes(ns, types) + if n != [] && n[0] % 32 in types then [n] else []
  {
    if ns == [] {
      assert [n][1..] == [];
    } else {
      OfTypesSnoc(ns[1..], n, types);
      assert (ns + [n])[1..] == ns[1..] + [n];
    }
  }

  lemma {:induction false} SlicesAre(ns: seq<Nal>)
    ensures Slices(ns) == OfTypes(ns, {1, 5, 6}) && Params(ns) == OfTypes(ns, {7, 8})
  {
    if ns != [] {
      var init, n := ns[..|ns| - 1], ns[|ns| - 1];
      SlicesAre(init);
      assert ns == init + [n];
      OfTypesSnoc(init, n, {1, 5, 6});
      OfTypesSnoc(init, n, {7, 8});
    }
  }

  /**
   A unit of type 5 is the first of an IDR picture. Before the first of them at `i`
   go a delimiter and the slices and SEI so far; then the parameter sets so far,
   types 7 and 8, or the stored ones if there are none; then the slices and SEI
   from there on. Nothing else goes out.
   */
  lemma OutputIs(ns: seq<Nal>, info: seq<Nal>, i: nat)
    requires i <= |ns| && (i < |ns| ==> ns[i] != [] && ns[i][0] % 32 == 5)
    requires forall j | 0 <= j < i :: !(ns[j] != [] && ns[j][0] % 32 == 5)
    ensures Output(ns, info) == [[0x09, 0xf0]] + OfTypes(ns[..i], {1, 5, 6})
              + (if i == |ns| then [] else if OfTypes(ns[..i], {7, 8}) == [] then info else OfTypes(ns[..i], {7, 8}))
              + OfTypes(ns[i..], {1, 5, 6})
  {
    FirstIdrIs(ns, i);
    SlicesAre(ns[..i]);
    SlicesAre(ns[i..]);
  }

  /** Each unit behind a start code of four bytes. */
  function AnnexB(ns: seq<Nal>): seq<byte> {
    if ns == [] then [] else AnnexB(ns[..|ns| - 1]) + [0, 0, 0, 1] + ns[|ns| - 1]
  }

  lemma {:induction false} AnnexedIs(ns: seq<Nal>)
    ensures Annexed(ns) == AnnexB(ns)
  {
    if ns != [] {
      var init, n := ns[..|ns| - 1], ns[|ns| - 1];
      AnnexedIs(init);
      assert ns == init + [n];
      AnnexedConcat(init, [n]);
      AnnexedOne(n);
      Assoc(AnnexB(init), [0, 0, 0, 1], n);
    }
  }

  // ---- Splitting at start codes ------------------------------------------

  /** Where a unit must end: three zero bytes, or a start code prefix. */
  predicate EndsAt(s: seq<byte>, k: nat) {
    k + 3 <= |s| && s[k] == 0 && s[k + 1] == 0 && s[k + 2] <= 1
  }

  /** The length of the unit that `s` begins with. */
  function UnitLength(s: seq<byte>): (k: nat)
    ensures k <= |s|
    ensures k == |s| || EndsAt(s, k)
    ensures forall j: nat | j < k :: !EndsAt(s, j)
  {
    if s == [] || EndsAt(s, 0) then 0
    else
      var k := UnitLength(s[1..]);
      assert forall j: nat | 0 < j :: EndsAt(s, j) <==> EndsAt(s[1..], j - 1);
      1 + k
  }

  /** What follows the next start code prefix, over zero bytes only. */
  function AfterPrefix(s: seq<byte>): (r: Option<seq<byte>>)
    ensures r.Some? ==> |r.value| < |s|
  {
    if |s| < 3 || s[0] != 0 then None
    else if s[1] == 0 && s[2] == 1 then Some(s[3..])
    else AfterPrefix(s[1..])
  }

  /** The units of a byte stream. */
  function Split(s: seq<byte>): Option<seq<Nal>>
    decreases |s|
  {
    if s == [] then Some([])
    else
      match AfterPrefix(s)
      case None => None
      case Some(t) =>
        var k := UnitLength(t);
        match Split(t[k..])
        case None => None
        case Some(ns) => Some([t[..k]] + ns)
  }

  /** Nothing in a unit looks like the end of one. */
  ghost predicate Clean(n: Nal, last: bool) {
    && (forall k: nat :: !EndsAt(n, k))
    && (last || n == [] || n[|n| - 1] != 0)
  }

  ghost predicate AllClean(ns: seq<Nal>) {
    forall i | 0 <= i < |ns| :: Clean(ns[i], i == |ns| - 1)
  }

  lemma PrefixOf(s: seq<byte>)
    ensures AfterPrefix(START_CODE + s) == Some(s)
  {
    var t := START_CODE + s;
    assert t[1..] == [0, 0, 1] + s;
    assert t[1..][3..] == s;
  }

  lemma UnitLengthIs(s: seq<byte>, k: nat)
    requires k <= |s| && (k == |s| || EndsAt(s, k)) && forall j: nat | j < k :: !EndsAt(s, j)
    ensures UnitLength(s) == k
  {
  }

  lemma EndsWithin(n: Nal, t: seq<byte>, k: nat)
    requires EndsAt(n, k)
    ensures EndsAt(n + t, k)
  {
    var s := n + t;
    assert s[k] == n[k] && s[k + 1] == n[k + 1] && s[k + 2] == n[k + 2];
  }

  /** A clean unit does not end early, even with a start code behind it. */
  lemma NotWithin(n: Nal, t: seq<byte>, j: nat)
    requires j < |n| && !EndsAt(n, j)
    requires t == [] || n[|n| - 1] != 0
    ensures !EndsAt(n + t, j)
  {
    var s := n + t;
    assert s[j] == n[j];
    if j + 1 < |n| { assert s[j + 1] == n[j + 1]; }
    if j + 2 < |n| { assert s[j + 2] == n[j + 2]; }
    if j + 2 == |n| && t != [] { assert s[j + 1] == n[|n| - 1]; }
  }

  lemma BeforeStartCode(n: Nal, t: seq<byte>)
    requires START_CODE <= t
    ensures EndsAt(n + t, |n|)
    ensures n != [] && n[|n| - 1] == 0 ==> EndsAt(n + t, |n| - 1)
  {
    var s := n + t;
    assert s[|n|] == t[0] && s[|n| + 1] == t[1] && s[|n| + 2] == t[2];
    if n != [] { assert s[|n| - 1] == n[|n| - 1]; }
  }

  /** Before a start code, and before the end, a unit is taken whole exactly when it is clean. */
  lemma TakenWhole(n: Nal, t: seq<byte>)
    requires t == [] || START_CODE <= t
    ensures UnitLength(n + t) == |n| <==> Clean(n, t == [])
  {
    hide EndsAt, UnitLength;
    if t != [] {
      BeforeStartCode(n, t);
    }
    if Clean(n, t == []) {
      forall j: nat | j < |n|
        ensures !EndsAt(n + t, j)
      {
        NotWithin(n, t, j);
      }
      UnitLengthIs(n + t, |n|);
    } else if k: nat :| EndsAt(n, k) {
      EndsWithin(n, t, k);
      assert k < |n| by { Within(n, k); }
    }
  }

  lemma Within(n: Nal, k: nat)
    requires EndsAt(n, k)
    ensures k < |n|
  {
  }

  /** Splitting recovers exactly the lists whose units are all clean. */
  lemma {:induction false} SplitExact(ns: seq<Nal>)
    ensures Split(Annexed(ns)) == Some(ns) <==> AllClean(ns)
  {
    if ns != [] {
      var n, rest := ns[0], ns[1..];
      var t := n + Annexed(rest);
      assert Annexed(ns) == START_CODE + t;
      PrefixOf(t);
      TakenWhole(n, Annexed(rest));
      SplitExact(rest);
      CleanCons(ns);
      var k := UnitLength(t);
      if k == |n| {
        assert t[..k] == n && t[k..] == Annexed(rest);
        assert [n] + rest == ns;
        if Split(Annexed(ns)) == Some(ns) {
          assert Split(t[k..]).value == ns[1..];
        }
      }
    }
  }

  lemma CleanCons(ns: seq<Nal>)
    requires ns != []
    ensures AllClean(ns) <==> Clean(ns[0], ns[1..] == []) && AllClean(ns[1..])
  {
    hide Clean;
    if Clean(ns[0], ns[1..] == []) && AllClean(ns[1..]) {
      forall i | 0 <= i < |ns|
        ensures Clean(ns[i], i == |ns| - 1)
      {
        if i > 0 { assert Clean(ns[1..][i - 1], i - 1 == |ns[1..]| - 1); }
      }
    }
    if AllClean(ns) {
      forall i | 0 <= i < |ns[1..]|
        ensures Clean(ns[1..][i], i == |ns[1..]| - 1)
      {
        assert Clean(ns[i + 1], i + 1 == |ns| - 1);
      }
    }
  }

  // ---- What is recovered from a converted access unit --------------------

  lemma {:induction false} SlicesFrom(ns: seq<Nal>, n: Nal)
    requires n in Slices(ns) || n in Params(ns)
    ensures n in ns
  {
    if n !in ns[|ns| - 1..] {
      SlicesFrom(ns[..|ns| - 1], n);
    }
  }

  lemma OutputFrom(ns: seq<Nal>, info: seq<Nal>, n: Nal)
    requires n in Output(ns, info)
    ensures n == AUD || n in ns || n in info
  {
    var i := FirstIdr(ns);
    if n in Slices(ns[..i]) || n in Params(ns[..i]) {
      SlicesFrom(ns[..i], n);
    } else if n in Slices(ns[i..]) {
      SlicesFrom(ns[i..], n);
    }
  }

  /**
   Splitting a converted access unit at its start codes gives back exactly the
   delimiter, the parameter sets and the slices, if and only if they are clean;
   which they are whenever the units that came in and the stored ones are, and
   none of them ends in a zero byte.
   */
  lemma ConversionSplits(ns: seq<Nal>, info: seq<Nal>)
    ensures Split(Annexed(Output(ns, info))) == Some(Output(ns, info)) <==> AllClean(Output(ns, info))
    ensures (forall n | n in ns || n in info :: Clean(n, false)) ==> AllClean(Output(ns, info))
  {
    SplitExact(Output(ns, info));
    if forall n | n in ns || n in info :: Clean(n, false) {
      var out := Output(ns, info);
      forall i | 0 <= i < |out|
        ensures Clean(out[i], i == |out| - 1)
      {
        OutputFrom(ns, info, out[i]);
        assert Clean(AUD, false);
      }
    }
  }

  // ---- The sequence header -----------------------------------------------

  datatype Specific = Sets(sps: Nal, pps: Nal) | Bad(error: Error)

  /** The parameter sets taken from a sequence header: the second one runs to the end of the bytes. */
  function SpecificOf(src: seq<byte>): Specific {
    if |src| < 9 then Bad(DecDataNil)
    else
      var spsLen := FromBE(src[6..8]);
      if |src| - 8 < spsLen || spsLen == 0 then Bad(SpsDataError)
      else
        var rest := src[8 + spsLen..];
        if |rest| < 4 then Bad(PpsHeaderError)
        else
          var ppsLen := FromBE(rest[1..3]);
          if |rest| - 3 < ppsLen || ppsLen == 0 then Bad(PpsDataError)
          else Sets(src[8..8 + spsLen], rest[3..])
  }

  /** A configuration record with one parameter set of each kind and whatever follows them. */
  function Record(head: seq<byte>, sps: Nal, count: byte, pps: Nal, tail: seq<byte>): seq<byte> {
    head + BE(|sps|, 2) + sps + [count] + BE(|pps|, 2) + pps + tail
  }

  lemma TwoBytes(n: nat)
    requires n < 0x1_0000
    ensures FromBE(BE(n, 2)) == n
  {
    BERoundTrip(n, 2);
    Pow256Values();
  }

  /** A header that is taken: 6 bytes, a set behind its length, a count, and a length that what follows it reaches. */
  ghost predicate Taken(src: seq<byte>, sps: Nal, pps: Nal) {
    exists count: byte, n: nat ::
      && 0 < |sps| < 0x1_0000 && 0 < n <= |pps| && n < 0x1_0000 && |src| >= 6
      && src == src[..6] + BE(|sps|, 2) + sps + [count] + BE(n, 2) + pps
  }

  /** Exactly such headers are taken; one of fewer than 9 bytes is refused as no data. */
  lemma SpecificExact(src: seq<byte>, sps: Nal, pps: Nal)
    ensures SpecificOf(src) == Sets(sps, pps) <==> Taken(src, sps, pps)
    ensures |src| < 9 <==> SpecificOf(src) == Bad(DecDataNil)
  {
    hide BE, FromBE;
    if SpecificOf(src) == Sets(sps, pps) {
      TakenParts(src);
    }
    if count: byte, n: nat :|
      && 0 < |sps| < 0x1_0000 && 0 < n <= |pps| && n < 0x1_0000 && |src| >= 6
      && src == src[..6] + BE(|sps|, 2) + sps + [count] + BE(n, 2) + pps
    {
      assert src == Record(src[..6], sps, count, pps[..n], pps[n..]) by {
        RecordOf(src[..6] + BE(|sps|, 2) + sps + [count] + BE(n, 2), pps, n);
      }
      RecordExact(src[..6], sps, count, pps[..n], pps[n..]);
      assert pps[..n] + pps[n..] == pps;
    }
  }

  lemma RecordOf(front: seq<byte>, pps: seq<byte>, n: nat)
    requires n <= |pps|
    ensures front + pps == front + pps[..n] + pps[n..]
  {
  }

  lemma TakenParts(src: seq<byte>)
    requires SpecificOf(src).Sets?
    ensures Taken(src, SpecificOf(src).sps, SpecificOf(src).pps)
  {
    hide BE, FromBE;
    Pow256Values();
    var m := FromBE(src[6..8]);
    var rest := src[8 + m..];
    var n := FromBE(rest[1..3]);
    FromBEBound(src[6..8]);
    FromBEBound(rest[1..3]);
    BEOf(src[6..8]);
    BEOf(rest[1..3]);
    assert src == src[..6] + src[6..8] + src[8..8 + m] + rest;
    assert rest == [rest[0]] + rest[1..3] + rest[3..];
    Seven(src[..6], src[6..8], src[8..8 + m], [rest[0]], rest[1..3], rest[3..]);
  }

  lemma Seven(a: seq<byte>, b: seq<byte>, c: seq<byte>, d: seq<byte>, e: seq<byte>, f: seq<byte>)
    ensures a + b + c + (d + e + f) == a + b + c + d + e + f
  {
  }

  /** The sets are read back exactly when nothing follows the picture parameter set. */
  lemma RecordExact(head: seq<byte>, sps: Nal, count: byte, pps: Nal, tail: seq<byte>)
    requires |head| == 6 && 0 < |sps| < 0x1_0000 && 0 < |pps| < 0x1_0000
    ensures SpecificOf(Record(head, sps, count, pps, tail)) == Sets(sps, pps + tail)
    ensures SpecificOf(Record(head, sps, count, pps, tail)) == Sets(sps, pps) <==> tail == []
  {
    hide BE, FromBE;
    var src := Record(head, sps, count, pps, tail);
    TwoBytes(|sps|);
    TwoBytes(|pps|);
    assert src[6..8] == BE(|sps|, 2);
    assert src[8..8 + |sps|] == sps;
    var rest := src[8 + |sps|..];
    assert rest == [count] + BE(|pps|, 2) + pps + tail;
    assert rest[1..3] == BE(|pps|, 2);
    assert rest[3..] == pps + tail;
    if tail != [] { assert |pps + tail| > |pps|; } else { assert pps + tail == pps; }
  }

  /** A single-byte first unit makes a tag body look like Annex B already. */
  lemma OneByteUnit(ns: seq<Nal>)
    requires ns != [] && AllSized(ns)
    ensures START_CODE <= Framed(ns) <==> |ns[0]| == 1
  {
    var src := Framed(ns);
    FramedParts(ns);
    assert src[..4] == START_CODE <==> START_CODE <= src;
    OneBE();
    BERoundTrip(1, 4);
    Pow256Values();
    assert FromBE(START_CODE) == 1;
    BEOf(src[..4]);
  }

  lemma OneBE()
    ensures BE(1, 4) == START_CODE
  {
    assert BE(1, 1) == [1] by { assert BE(0, 0) == []; }
    assert BE(0, 1) == [0] && BE(0, 2) == [0, 0] && BE(0, 3) == [0, 0, 0];
  }

  // ---- Sequence headers over a run ---------------------------------------

  /** What the parser is called with: a sequence header, or an access unit. */
  datatype Tag = Tag(data: seq<byte>, isSeq: bool)
  {
    predicate Accepted() { isSeq && SpecificOf(data).Sets? }
  }

  /** The parameter sets stored after a run of calls. */
  function InfoAfter(tags: seq<Tag>): seq<Nal> {
    if tags == [] then []
    else InfoAfter(tags[..|tags| - 1]) + SetsOf(tags[|tags| - 1])
  }

  function SetsOf(t: Tag): seq<Nal> {
    if t.Accepted() then [SpecificOf(t.data).sps, SpecificOf(t.data).pps] else []
  }

  /** The sequence headers among them that were accepted. */
  function Headers(tags: seq<Tag>): seq<Tag> {
    if tags == [] then []
    else Headers(tags[..|tags| - 1]) + (if tags[|tags| - 1].Accepted() then [tags[|tags| - 1]] else [])
  }

  /** The parameter sets of the last one. */
  function LastSets(tags: seq<Tag>): seq<Nal> {
    var hs := Headers(tags);
    if hs == [] then [] else SetsOf(hs[|hs| - 1])
  }

  /** All headers are stored one after another, the last one behind those before it. */
  lemma {:induction false} InfoIsAll(tags: seq<Tag>)
    ensures |InfoAfter(tags)| == 2 * |Headers(tags)|
    ensures forall i | 0 <= i < |Headers(tags)| :: Headers(tags)[i].Accepted()
    ensures forall i | 0 <= i < |Headers(tags)| :: InfoAfter(tags)[2 * i..2 * i + 2] == SetsOf(Headers(tags)[i])
  {
    hide SpecificOf;
    if tags != [] {
      var init, t := tags[..|tags| - 1], tags[|tags| - 1];
      InfoIsAll(init);
      var before, hs := InfoAfter(init), Headers(tags);
      assert SetsOf(t) == [] || |SetsOf(t)| == 2;
      forall i | 0 <= i < |hs|
        ensures InfoAfter(tags)[2 * i..2 * i + 2] == SetsOf(hs[i])
      {
        if i < |Headers(init)| {
          assert InfoAfter(tags)[2 * i..2 * i + 2] == before[2 * i..2 * i + 2];
        }
      }
    }
  }

  lemma {:induction false} AnnexedGrows(ns: seq<Nal>)
    ensures |Annexed(ns)| >= 4 * |ns|
  {
    if ns != [] {
      AnnexedGrows(ns[1..]);
    }
  }

  /** With no parameter sets in it, an access unit is longer by those that go out before its IDR unit. */
  lemma StoredSetsLength(ns: seq<Nal>, info: seq<Nal>)
    requires FirstIdr(ns) < |ns| && Params(ns[..FirstIdr(ns)]) == []
    ensures |Annexed(Output(ns, info))| == |Annexed(Output(ns, []))| + |Annexed(info)|
  {
    hide Annexed, Slices, Params, FirstIdr;
    var i := FirstIdr(ns);
    var head, tail := [AUD] + Slices(ns[..i]), Slices(ns[i..]);
    AnnexedConcat(head + info, tail);
    AnnexedConcat(head, info);
    AnnexedConcat(head + [], tail);
    AnnexedConcat(head, []);
    assert Annexed([]) == [] by { NothingAnnexed(); }
  }

  lemma NothingAnnexed()
    ensures Annexed([]) == []
  {
  }

  /**
   What goes out before an IDR unit that brings no parameter sets along are those
   of the last sequence header exactly as long as no more than one was accepted.
   */
  lemma LastSetsExact(tags: seq<Tag>, ns: seq<Nal>)
    requires FirstIdr(ns) < |ns| && Params(ns[..FirstIdr(ns)]) == []
    ensures Annexed(Output(ns, InfoAfter(tags))) == Annexed(Output(ns, LastSets(tags))) <==> |Headers(tags)| <= 1
  {
    hide Annexed, Output, InfoAfter, Headers, LastSets, Params, FirstIdr;
    var info, last := InfoAfter(tags), LastSets(tags);
    var head := BeforeLast(tags);
    if head != [] {
      AnnexedConcat(head, last);
      AnnexedGrows(head);
      StoredSetsLength(ns, info);
      StoredSetsLength(ns, last);
    } else {
      assert head + last == last;
    }
  }

  /** What is stored before the last header's parameter sets. */
  lemma BeforeLast(tags: seq<Tag>) returns (head: seq<Nal>)
    ensures InfoAfter(tags) == head + LastSets(tags)
    ensures head == [] <==> |Headers(tags)| <= 1
  {
    hide InfoAfter, Headers, SetsOf;
    var info, hs := InfoAfter(tags), Headers(tags);
    InfoIsAll(tags);
    if hs == [] {
      head := [];
    } else {
      var n := |hs| - 1;
      head := info[..2 * n];
      assert info[2 * n..2 * n + 2] == info[2 * n..];
    }
  }
}
