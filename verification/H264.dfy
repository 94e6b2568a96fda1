/** The H.264 parser: turns tag bodies into Annex B, and remembers parameter sets. */
module H264 {
  import opened Bytes
  import opened Buffers
  import opened H264Spec

  class Parser {
    var specificInfo: seq<byte>
    var pps: seq<byte>
    /** The parameter sets of every sequence header so far. */
    ghost var info: seq<Nal>
    /** Every call so far. */
    ghost var tags: seq<Tag>

    ghost predicate Valid()
      reads this
    {
      specificInfo == Annexed(info) && info == InfoAfter(tags)
    }

    constructor ()
      ensures Valid() && info == [] && tags == []
    {
      specificInfo, pps, info, tags := [], seq(2048, _ => 0), [], [];
    }

    static method NaluSize(src: seq<byte>) returns (size: nat, ok: bool)
      ensures ok == (|src| >= 4)
      ensures ok ==> size == FromBE(src[..4])
    {
      size, ok := 0, |src| >= 4;
      if ok {
        for i := 0 to 4
          invariant size == FromBE(src[..i])
        {
          assert src[..i + 1][..i] == src[..i];
          size := size * 256 + src[i];
        }
      }
    }

    static method IsNaluHeader(src: seq<byte>) returns (ok: bool)
      ensures ok == (START_CODE <= src)
    {
      if |src| < 4 {
        return false;
      }
      ok := src[0] == 0 && src[1] == 0 && src[2] == 0 && src[3] == 1;
    }

    /** Adds the parameter sets of a sequence header to those already stored. */
    method ParseSpecificInfo(src: seq<byte>) returns (status: Status)
      requires Valid()
      modifies this`specificInfo, this`info, this`tags
      ensures Valid() && tags == old(tags) + [Tag(src, true)]
      ensures match SpecificOf(src)
              case Bad(error) => status == Failed(error) && info == old(info)
              case Sets(sps, pps) => status == Done && info == old(info) + [sps, pps]
    {
      hide Annexed, InfoAfter;
      InfoSnoc(tags, Tag(src, true));
      tags := tags + [Tag(src, true)];
      if |src| < 9 {
        return Failed(DecDataNil);
      }
      TwoBE(src[6..8]);
      var spsLen := src[6] as int * 256 + src[7];
      if |src| - 8 < spsLen || spsLen <= 0 {
        return Failed(SpsDataError);
      }
      var sps := START_CODE + src[8..8 + spsLen];
      var tmpBuf := src[8 + spsLen..];
      if |tmpBuf| < 4 {
        return Failed(PpsHeaderError);
      }
      TwoBE(tmpBuf[1..3]);
      var ppsLen := tmpBuf[1] as int * 256 + tmpBuf[2];
      if |tmpBuf| - 3 < ppsLen || ppsLen <= 0 {
        return Failed(PpsDataError);
      }
      var pps := START_CODE + tmpBuf[3..];
      TwoAnnexed(info, src[8..8 + spsLen], tmpBuf[3..]);
      specificInfo := specificInfo + sps;
      specificInfo := specificInfo + pps;
      info := info + [src[8..8 + spsLen], tmpBuf[3..]];
      status := Done;
    }

    /** Writes the delimiter and as many whole units as there are, even if an error follows them. */
    method GetAnnexbH264(src: seq<byte>, w: Buffer) returns (status: Status)
      requires Valid()
      modifies this`pps, w
      ensures |src| < 4 ==> status == Failed(VideoDataInvalid) && w.bytes == old(w.bytes)
      ensures |src| >= 4 ==> var u := UnitsOf(src);
                             status == u.status && w.bytes == old(w.bytes) + Annexed(Output(u.nals, info))
    {
      hide UnitsOf, Written, Reached, FromBE, Annexed, Output, InfoAfter;
      var dataSize := |src|;
      if dataSize < 4 {
        return Failed(VideoDataInvalid);
      }
      pps := [];
      w.Write(START_CODE + AUD);
      var index := 0;
      var hasSpsPps, hasWriteSpsPps := false, false;
      ghost var done: seq<Nal> := [];
      ghost var out := START_CODE + AUD;
      Begin(src, info);
      while dataSize > 0
        invariant 0 <= dataSize == |src| - index
        invariant Reached(src, index, done)
        invariant Written(done, info, hasSpsPps, hasWriteSpsPps, pps, out)
        invariant w.bytes == old(w.bytes) + out
      {
        var nalLen, ok := NaluSize(src[index..]);
        Reach(src, index, done);
        IsWritten(done, info, hasSpsPps, hasWriteSpsPps, pps, out);
        if !ok {
          return Failed(DataSizeNotMatch);
        }
        index, dataSize := index + 4, dataSize - 4;
        if dataSize >= nalLen && nalLen > 0 {
          var n := src[index..index + nalLen];
          ghost var more;
          hasSpsPps, hasWriteSpsPps, more := WriteUnit(n, hasSpsPps, hasWriteSpsPps, w, done, out);
          done, out := done + [n], out + more;
          index, dataSize := index + nalLen, dataSize - nalLen;
        } else {
          return Failed(NaluBodyLenError);
        }
      }
      End(src, index, done);
      IsWritten(done, info, hasSpsPps, hasWriteSpsPps, pps, out);
      status := Done;
    }

    /** The switch on the unit's type; `done` and `out` follow what has been read and written. */
    method WriteUnit(n: Nal, hasSpsPps: bool, hasWriteSpsPps: bool, w: Buffer, ghost done: seq<Nal>, ghost out: seq<byte>)
      returns (hasSpsPps': bool, hasWriteSpsPps': bool, ghost more: seq<byte>)
      requires Valid() && n != [] && Written(done, info, hasSpsPps, hasWriteSpsPps, pps, out)
      modifies this`pps, w
      ensures Written(done + [n], info, hasSpsPps', hasWriteSpsPps', pps, out + more)
      ensures w.bytes == old(w.bytes) + more
    {
      hide Annexed, Output, FirstIdr, Params, InfoAfter;
      NextUnit(done, n, info);
      hasSpsPps', hasWriteSpsPps' := hasSpsPps, hasWriteSpsPps;
      more := [];
      var nalType := n[0] % 32;
      if nalType == NAL_IDR || nalType == NAL_SLICE || nalType == NAL_SEI {
        if nalType == NAL_IDR && !hasWriteSpsPps {
          hasWriteSpsPps' := true;
          if !hasSpsPps {
            w.Write(specificInfo);
            more := specificInfo;
          } else {
            w.Write(pps);
            more := pps;
          }
        }
        w.Write(START_CODE);
        w.Write(n);
        more := more + (START_CODE + n);
      } else if nalType == NAL_SPS || nalType == NAL_PPS {
        hasSpsPps' := true;
        pps := pps + START_CODE;
        pps := pps + n;
      }
    }

    /** One tag body: a sequence header, bytes that are Annex B already, or units to convert. */
    method Parse(b: seq<byte>, isSeq: bool, w: Buffer) returns (status: Status)
      requires Valid()
      modifies this, w
      ensures Valid() && tags == old(tags) + [Tag(b, isSeq)]
      ensures isSeq ==> w.bytes == old(w.bytes)
      ensures isSeq && SpecificOf(b).Bad? ==> status == Failed(SpecificOf(b).error) && info == old(info)
      ensures isSeq && SpecificOf(b).Sets? ==> status == Done && info == old(info) + [SpecificOf(b).sps, SpecificOf(b).pps]
      ensures !isSeq ==> info == old(info)
      ensures !isSeq && START_CODE <= b ==> status == Done && w.bytes == old(w.bytes) + b
      ensures !isSeq && !(START_CODE <= b) && |b| < 4 ==> status == Failed(VideoDataInvalid) && w.bytes == old(w.bytes)
      ensures !isSeq && !(START_CODE <= b) && |b| >= 4 ==>
                status == UnitsOf(b).status && w.bytes == old(w.bytes) + Annexed(Output(UnitsOf(b).nals, info))
    {
      if isSeq {
        status := ParseSpecificInfo(b);
      } else {
        InfoSnoc(tags, Tag(b, false));
        tags := tags + [Tag(b, false)];
        var annexB := IsNaluHeader(b);
        if annexB {
          w.Write(b);
          status := Done;
        } else {
          status := GetAnnexbH264(b, w);
        }
      }
    }
  }

  lemma InfoSnoc(tags: seq<Tag>, t: Tag)
    ensures InfoAfter(tags + [t]) == InfoAfter(tags) + SetsOf(t)
  {
    assert (tags + [t])[..|tags + [t]| - 1] == tags;
  }

  lemma TwoBE(s: seq<byte>)
    requires |s| == 2
    ensures FromBE(s) == s[0] as int * 256 + s[1]
  {
    assert FromBE(s[..1]) == s[0] by { assert s[..1][..0] == []; }
  }

  lemma TwoAnnexed(ns: seq<Nal>, a: Nal, b: Nal)
    ensures Annexed(ns + [a, b]) == Annexed(ns) + (START_CODE + a) + (START_CODE + b)
  {
    hide Annexed;
    assert ns + [a, b] == ns + [a] + [b];
    AnnexedConcat(ns + [a], [b]);
    AnnexedConcat(ns, [a]);
    AnnexedOne(a);
    AnnexedOne(b);
  }

  /** The units in `done` are what `src` holds before position `index`. */
  ghost predicate Reached(src: seq<byte>, index: nat, done: seq<Nal>) {
    && index <= |src|
    && UnitsOf(src) == Units(done + UnitsOf(src[index..]).nals, UnitsOf(src[index..]).status)
  }

  /** The loop's flags and buffers say what they should of the units in `done`. */
  ghost predicate Written(done: seq<Nal>, info: seq<Nal>, hasSpsPps: bool, hasWriteSpsPps: bool,
                          pps: seq<byte>, out: seq<byte>)
  {
    && hasWriteSpsPps == (FirstIdr(done) < |done|)
    && hasSpsPps == (Params(done) != []) && pps == Annexed(Params(done))
    && out == Annexed(Output(done, info))
  }

  lemma IsWritten(done: seq<Nal>, info: seq<Nal>, hasSpsPps: bool, hasWriteSpsPps: bool, pps: seq<byte>, out: seq<byte>)
    requires Written(done, info, hasSpsPps, hasWriteSpsPps, pps, out)
    ensures out == Annexed(Output(done, info))
  {
  }

  lemma Within(src: seq<byte>, index: nat, n: nat)
    requires index + 4 + n <= |src|
    ensures src[index..][4..4 + n] == src[index + 4..index + 4 + n]
    ensures src[index..][4 + n..] == src[index + 4 + n..]
  {
  }

  lemma Reach(src: seq<byte>, index: nat, done: seq<Nal>)
    requires Reached(src, index, done) && index < |src|
    ensures |src| - index < 4 ==> UnitsOf(src) == Units(done, Failed(DataSizeNotMatch))
    ensures |src| - index >= 4 ==>
              var n := FromBE(src[index..][..4]);
              if 0 < n <= |src| - index - 4
              then Reached(src, index + 4 + n, done + [src[index + 4..index + 4 + n]])
              else UnitsOf(src) == Units(done, Failed(NaluBodyLenError))
  {
    hide FromBE, UnitsOf;
    var rest := src[index..];
    UnitsStep(rest);
    NoMore(done);
    if |rest| >= 4 && 0 < FromBE(rest[..4]) <= |rest| - 4 {
      ReachNext(src, index, done, FromBE(rest[..4]));
    }
  }

  lemma ReachNext(src: seq<byte>, index: nat, done: seq<Nal>, n: nat)
    requires Reached(src, index, done) && n > 0 && index + 4 + n <= |src|
    requires var rest := src[index..];
             UnitsOf(rest) == Units([rest[4..4 + n]] + UnitsOf(rest[4 + n..]).nals, UnitsOf(rest[4 + n..]).status)
    ensures Reached(src, index + 4 + n, done + [src[index + 4..index + 4 + n]])
  {
    hide UnitsOf;
    Within(src, index, n);
    OneMore(done, src[index + 4..index + 4 + n], UnitsOf(src[index + 4 + n..]).nals);
  }

  lemma UnitsStep(rest: seq<byte>)
    requires rest != []
    ensures |rest| < 4 ==> UnitsOf(rest) == Units([], Failed(DataSizeNotMatch))
    ensures |rest| >= 4 ==>
              var n := FromBE(rest[..4]);
              if 0 < n <= |rest| - 4
              then UnitsOf(rest) == Units([rest[4..4 + n]] + UnitsOf(rest[4 + n..]).nals, UnitsOf(rest[4 + n..]).status)
              else UnitsOf(rest) == Units([], Failed(NaluBodyLenError))
  {
    hide FromBE;
  }

  lemma NoMore<T>(a: seq<T>)
    ensures a + [] == a
  {
  }

  lemma OneMore<T>(a: seq<T>, x: T, b: seq<T>)
    ensures a + ([x] + b) == (a + [x]) + b
  {
  }

  lemma Begin(src: seq<byte>, info: seq<Nal>)
    ensures Reached(src, 0, [])
    ensures Written([], info, false, false, [], START_CODE + AUD)
  {
    assert src[0..] == src;
    var us := UnitsOf(src).nals;
    assert [] + us == us;
    NothingDone(info);
  }

  lemma End(src: seq<byte>, index: nat, done: seq<Nal>)
    requires Reached(src, index, done) && index == |src|
    ensures UnitsOf(src) == Units(done, Done)
  {
    NoMore(done);
  }

  lemma NothingDone(info: seq<Nal>)
    ensures Annexed(Output([], info)) == START_CODE + AUD
    ensures FirstIdr([]) == 0 && Params([]) == [] && Annexed([]) == []
  {
    assert Output([], info) == [AUD];
    AnnexedOne(AUD);
  }

  /** What one more unit adds to the output and to the parameter sets. */
  lemma NextUnit(done: seq<Nal>, n: Nal, info: seq<Nal>)
    requires n != []
    ensures Annexed(Output(done + [n], info)) == Annexed(Output(done, info))
              + (if FirstIdr(done) == |done| && Idr(n) then Annexed(if Params(done) == [] then info else Params(done)) else [])
              + (if Kept(n) then START_CODE + n else [])
    ensures FirstIdr(done + [n]) == if FirstIdr(done) < |done| || Idr(n) then FirstIdr(done) else |done| + 1
    ensures Params(done + [n]) == Params(done) + if Param(n) then [n] else []
    ensures Annexed(Params(done + [n])) == Annexed(Params(done)) + if Param(n) then START_CODE + n else []
  {
    hide Annexed, Params, FirstIdr, Idr, Kept, Param, Output;
    OutputSnoc(done, n, info);
    FirstIdrSnoc(done, n);
    SlicesSnoc(done, n);
    var sets := if FirstIdr(done) == |done| && Idr(n) then ParamsFor(done, info) else [];
    var last := if Kept(n) then [n] else [];
    AnnexedConcat(Output(done, info) + sets, last);
    AnnexedConcat(Output(done, info), sets);
    AnnexedConcat(Params(done), if Param(n) then [n] else []);
    AnnexedOne(n);
    NothingAnnexed();
  }
}
