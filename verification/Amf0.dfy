/** The AMF0 encoder and decoder as they run: over a buffer, value by value. */
module Amf0 {
  import opened Bytes
  import opened Buffers
  import opened AmfReaders
  import opened Amf0Spec

  // ---- The decoder -------------------------------------------------------

  /** A string behind a length of `w` bytes. */
  method ReadText(r: Reader, w: nat) returns (text: Text, ok: bool)
    modifies r
    ensures ok == TakeText(r.kind, old(r.input), w).Ok?
    ensures ok ==> Ok(text, r.input) == TakeText(r.kind, old(r.input), w)
    ensures !ok ==> r.input == []
  {
    text := [];
    var length;
    length, ok := r.ReadBytes(w);
    if ok {
      text, ok := r.ReadBytes(FromBE(length));
    }
  }

  /** The router. */
  method DecodeAmf0(r: Reader) returns (v: Option<Value>)
    modifies r
    ensures Decoded(Decode(r.kind, old(r.input)), v, r.input) && |r.input| <= |old(r.input)|
    decreases |r.input|, 0
  {
    hide TakeText, DecodeFields, DecodeItems;
    var marker, ok := r.ReadBytes(1);
    if !ok {
      return None;
    }
    v := None;
    ghost var t := r.input;
    match marker[0]
    case 0x00 => v := DecodeAmf0Number(r);
    case 0x01 =>
      var b, got := r.ReadBytes(1);
      if got && b[0] <= 1 { v := Some(Bool(b[0] == 1)); }
    case 0x02 => v := DecodeAmf0String(r, 2);
    case 0x03 =>
      var m := DecodeAmf0Object(r);
      if m.Some? { v := Some(Obj(m.value)); }
    case 0x05 => v := Some(Null);
    case 0x06 => v := Some(Null);
    case 0x08 =>
      var length, got := r.ReadBytes(4);
      var m := DecodeAmf0Object(r);
      if m.Some? { v := Some(Obj(m.value)); }
      if !got { NoFields(r.kind, map[]); }
    case 0x0a => v := DecodeAmf0StrictArray(r);
    case 0x0b =>
      v := DecodeAmf0Number(r);
      if v.Some? {
        var trail, got := r.ReadBytes(2);
        if !got { v := None; }
      }
    case 0x0c => v := DecodeAmf0String(r, 4);
    case 0x0d => v := Some(Null);
    case 0x0f => v := DecodeAmf0String(r, 4);
    case 0x10 => v := DecodeAmf0TypedObject(r);
    case _ =>
  }

  lemma NoFields(kind: Kind, acc: map<Text, Value>)
    ensures DecodeFields(kind, [], acc).Fail?
  {
  }

  method DecodeAmf0Number(r: Reader) returns (v: Option<Value>)
    modifies r
    ensures Decoded(DecodeNumber(old(r.input)), v, r.input) && |r.input| <= |old(r.input)|
  {
    var bits, ok := r.ReadBytes(8);
    v := if ok then Some(Number(bits)) else None;
  }

  method DecodeAmf0String(r: Reader, w: nat) returns (v: Option<Value>)
    modifies r
    ensures Decoded(AsStr(TakeText(r.kind, old(r.input), w)), v, r.input) && |r.input| <= |old(r.input)|
  {
    var text, ok := ReadText(r, w);
    v := if ok then Some(Str(text)) else None;
  }

  method DecodeAmf0Object(r: Reader) returns (m: Option<map<Text, Value>>)
    modifies r
    ensures Decoded(DecodeFields(r.kind, old(r.input), map[]), m, r.input) && |r.input| <= |old(r.input)|
    decreases |r.input|, 1
  {
    hide TakeText, Decode;
    ghost var s := r.input;
    var result: map<Text, Value> := map[];
    while true
      invariant |r.input| <= |s|
      invariant DecodeFields(r.kind, s, map[]) == DecodeFields(r.kind, r.input, result)
      decreases |r.input|
    {
      var key, ok := ReadText(r, 2);
      if !ok {
        return None;
      }
      if key == [] {
        var marker, got := r.ReadBytes(1);
        if !got || marker[0] != OBJECT_END {
          return None;
        }
        return Some(result);
      }
      var value := DecodeAmf0(r);
      if value == None {
        return None;
      }
      result := result[key := value.value];
    }
  }

  method DecodeAmf0StrictArray(r: Reader) returns (v: Option<Value>)
    modifies r
    ensures |r.input| <= |old(r.input)|
    ensures var t := old(r.input);
            Decoded(if |t| >= 4 then AsArr(DecodeItems(r.kind, t[4..], FromBE(t[..4]), [])) else Fail, v, r.input)
    decreases |r.input|, 1
  {
    hide Decode;
    var length, ok := r.ReadBytes(4);
    if !ok {
      return None;
    }
    var n := FromBE(length);
    ghost var s := r.input;
    var result: seq<Value> := [];
    for i := 0 to n
      invariant |r.input| <= |s|
      invariant DecodeItems(r.kind, s, n, []) == DecodeItems(r.kind, r.input, n - i, result)
    {
      var item := DecodeAmf0(r);
      if item == None {
        return None;
      }
      result := result + [item.value];
    }
    v := Some(Arr(result));
  }

  method DecodeAmf0TypedObject(r: Reader) returns (v: Option<Value>)
    modifies r
    ensures Decoded(DecodeTyped(r.kind, old(r.input)), v, r.input) && |r.input| <= |old(r.input)|
    decreases |r.input|, 2
  {
    hide TakeText, DecodeFields;
    var name, ok := ReadText(r, 2);
    if !ok {
      return None;
    }
    var m := DecodeAmf0Object(r);
    v := if m.Some? then Some(Typed(name, m.value)) else None;
  }

  /** Every value up to the first error. */
  method DecodeAll(r: Reader) returns (values: seq<Value>)
    modifies r
    ensures values == DecodeBatch(r.kind, old(r.input), []).0
  {
    hide Decode;
    ghost var s := r.input;
    values := [];
    while true
      invariant DecodeBatch(r.kind, s, []) == DecodeBatch(r.kind, r.input, values)
      decreases |r.input|
    {
      var v := DecodeAmf0(r);
      if v == None {
        return;
      }
      values := values + [v.value];
    }
  }

  // ---- The encoder -------------------------------------------------------

  /** The encoder takes everything but typed objects. */
  predicate Encodable(v: Value) {
    match v
    case Arr(vs) => forall i | 0 <= i < |vs| :: Encodable(vs[i])
    case Obj(m) => forall k <- m :: Encodable(m[k])
    case Typed(_, _) => false
    case _ => true
  }

  /** The fields without what ends them. */
  function EncodePairs(fs: seq<Field>): seq<byte> {
    if fs == [] then []
    else EncodePairs(fs[..|fs| - 1]) + (EncodeKey(fs[|fs| - 1].key) + Encode(fs[|fs| - 1].value))
  }

  lemma {:induction false} PairsThenEnd(fs: seq<Field>, gs: seq<Field>)
    ensures EncodePairs(fs) + EncodeFields(gs) == EncodeFields(fs + gs)
    decreases |fs|
  {
    hide Encode, EncodeKey;
    if fs == [] {
      assert fs + gs == gs;
    } else {
      var init, f := fs[..|fs| - 1], fs[|fs| - 1];
      PairsThenEnd(init, [f] + gs);
      assert init + ([f] + gs) == fs + gs;
      assert ([f] + gs)[1..] == gs;
      Assoc(EncodePairs(init), EncodeKey(f.key) + Encode(f.value), EncodeFields(gs));
      Assoc(EncodeKey(f.key), Encode(f.value), EncodeFields(gs));
    }
  }

  lemma {:induction false} ItemsSnoc(ts: seq<Tree>, t: Tree)
    ensures EncodeItems(ts + [t]) == EncodeItems(ts) + Encode(t)
    ensures StripAll(ts + [t]) == StripAll(ts) + [Strip(t)]
  {
    hide Encode, Strip;
    if ts == [] {
      assert [t][1..] == [] && [] + [t] == [t];
      assert Encode(t) + [] == Encode(t);
    } else {
      ItemsSnoc(ts[1..], t);
      assert (ts + [t])[1..] == ts[1..] + [t];
      Assoc(Encode(ts[0]), EncodeItems(ts[1..]), Encode(t));
    }
  }

  lemma {:induction false} StripKeys(fs: seq<Field>, acc: map<Text, Value>)
    ensures StripFields(fs, acc).Keys == acc.Keys + set i | 0 <= i < |fs| :: fs[i].key
  {
    hide Strip;
    if fs != [] {
      StripKeys(fs[1..], acc[fs[0].key := Strip(fs[0].value)]);
      assert forall i | 0 < i < |fs| :: fs[i] == fs[1..][i - 1];
    }
  }

  /** The fields walked so far, of object `m`, when the keys in `rest` are left. */
  ghost predicate Walked(fs: seq<Field>, m: map<Text, Value>, rest: set<Text>) {
    && rest <= m.Keys
    && (forall i | 0 <= i < |fs| :: fs[i].key in m && fs[i].key !in rest && Strip(fs[i].value) == m[fs[i].key] && Distinct(fs[i].value))
    && (forall i, j | 0 <= i < j < |fs| :: fs[i].key != fs[j].key)
    && (forall k <- m :: k in rest || exists i :: 0 <= i < |fs| && fs[i].key == k)
  }

  lemma WalkedOne(fs: seq<Field>, m: map<Text, Value>, rest: set<Text>, f: Field)
    requires Walked(fs, m, rest) && f.key in rest && Strip(f.value) == m[f.key] && Distinct(f.value)
    ensures Walked(fs + [f], m, rest - {f.key})
  {
    hide Strip, Distinct;
    var gs := fs + [f];
    forall k <- m
      ensures k in rest - {f.key} || exists i :: 0 <= i < |gs| && gs[i].key == k
    {
      if k == f.key {
        assert gs[|fs|].key == k;
      } else if k !in rest {
        var i :| 0 <= i < |fs| && fs[i].key == k;
        assert gs[i].key == k;
      }
    }
  }

  lemma WalkedAll(fs: seq<Field>, m: map<Text, Value>)
    requires Walked(fs, m, {})
    ensures StripFields(fs, map[]) == m && Distinct(TObj(fs))
  {
    hide Strip;
    StripFieldsAt(fs, map[]);
    StripKeys(fs, map[]);
    var r := StripFields(fs, map[]);
    assert r.Keys == m.Keys;
    forall k <- m
      ensures r[k] == m[k]
    {
      var i :| 0 <= i < |fs| && fs[i].key == k;
      assert r[fs[i].key] == Strip(fs[i].value);
    }
  }

  method EncodeAmf0Key(w: Buffer, k: Text) returns (n: nat)
    modifies w
    ensures w.bytes == old(w.bytes) + EncodeKey(k) && n == |EncodeKey(k)|
  {
    w.Write(BE(|k|, 2));
    w.Write(k);
    n := 2 + |k|;
  }

  method EncodeAmf0String(w: Buffer, text: Text) returns (n: nat)
    modifies w
    ensures w.bytes == old(w.bytes) + EncodeStr(text) && n == |EncodeStr(text)|
  {
    hide BE;
    ghost var before := w.bytes;
    if |text| <= STRING_MAX {
      w.Write([STRING]);
      n := EncodeAmf0Key(w, text);
      n := n + 1;
      Assoc(before, [STRING], EncodeKey(text));
    } else {
      Assoc(before, [LONG_STRING], BE(|text|, 4));
      Assoc(before, [LONG_STRING] + BE(|text|, 4), text);
      Assoc([LONG_STRING], BE(|text|, 4), text);
      w.Write([LONG_STRING]);
      w.Write(BE(|text|, 4));
      w.Write(text);
      n := 5 + |text|;
    }
  }

  /** The router: writes a value in some order of its keys, and counts the bytes. */
  method EncodeAmf0(w: Buffer, v: Value) returns (n: nat, ok: bool, ghost t: Tree)
    modifies w
    ensures ok == Encodable(v)
    ensures ok ==> Strip(t) == v && Distinct(t) && w.bytes == old(w.bytes) + Encode(t) && n == |Encode(t)|
    decreases v, 1
  {
    n, ok, t := 0, true, TNull;
    match v
    case Null =>
      w.Write([NULL]);
      n := 1;
    case Bool(b) =>
      w.Write([BOOLEAN]);
      w.Write([if b then 1 else 0]);
      n, t := 2, TBool(b);
    case Number(bits) =>
      w.Write([NUMBER]);
      w.Write(bits);
      n, t := 9, TNumber(bits);
    case Str(text) =>
      n := EncodeAmf0String(w, text);
      t := TStr(text);
    case Arr(vs) =>
      n, ok, t := EncodeAmf0StrictArray(w, v);
    case Obj(m) =>
      n, ok, t := EncodeAmf0Object(w, v);
    case Typed(_, _) =>
      ok := false;
  }

  method EncodeAmf0StrictArray(w: Buffer, v: Value) returns (n: nat, ok: bool, ghost t: Tree)
    requires v.Arr?
    modifies w
    ensures ok == Encodable(v)
    ensures ok ==> Strip(t) == v && Distinct(t) && w.bytes == old(w.bytes) + Encode(t) && n == |Encode(t)|
    decreases v, 0
  {
    hide BE, Encode, EncodeItems, Strip, StripAll, Distinct;
    t := TNull;
    ghost var ts: seq<Tree> := [];
    ghost var written := [STRICT_ARRAY] + BE(|v.items|, 4);
    w.Write([STRICT_ARRAY]);
    w.Write(BE(|v.items|, 4));
    n := 5;
    NoItems();
    for i := 0 to |v.items|
      invariant |ts| == i && StripAll(ts) == v.items[..i]
      invariant forall j | 0 <= j < i :: Distinct(ts[j]) && Encodable(v.items[j])
      invariant w.bytes == old(w.bytes) + (written + EncodeItems(ts)) && n == |written + EncodeItems(ts)|
    {
      var m;
      ghost var item;
      m, ok, item := EncodeAmf0(w, v.items[i]);
      if !ok {
        return 0, false, TNull;
      }
      ItemsSnoc(ts, item);
      ts := ts + [item];
      n := n + m;
    }
    ok, t := true, TArr(ts);
    assert v.items[..|v.items|] == v.items;
    ArrayWritten(ts, v.items);
  }

  lemma NoItems()
    ensures EncodeItems([]) == [] && StripAll([]) == []
  {
  }

  lemma ArrayWritten(ts: seq<Tree>, vs: seq<Value>)
    requires StripAll(ts) == vs && forall j | 0 <= j < |ts| :: Distinct(ts[j])
    ensures Strip(TArr(ts)) == Arr(vs) && Distinct(TArr(ts))
    ensures Encode(TArr(ts)) == ([STRICT_ARRAY] + BE(|ts|, 4)) + EncodeItems(ts)
  {
    Assoc([STRICT_ARRAY], BE(|ts|, 4), EncodeItems(ts));
  }

  method EncodeAmf0Object(w: Buffer, v: Value) returns (n: nat, ok: bool, ghost t: Tree)
    requires v.Obj?
    modifies w
    ensures ok == Encodable(v)
    ensures ok ==> Strip(t) == v && Distinct(t) && w.bytes == old(w.bytes) + Encode(t) && n == |Encode(t)|
    decreases v, 0
  {
    hide EncodeKey, Encode, EncodePairs, Strip, Distinct, Walked;
    t := TNull;
    ghost var fs: seq<Field> := [];
    ghost var o := w.bytes;
    w.Write([OBJECT]);
    n := 1;
    var rest := v.fields.Keys;
    WalkedNone(v.fields);
    while rest != {}
      invariant rest <= v.fields.Keys && Walked(fs, v.fields, rest)
      invariant forall k <- v.fields.Keys - rest :: Encodable(v.fields[k])
      invariant w.bytes == old(w.bytes) + ([OBJECT] + EncodePairs(fs)) && n == |[OBJECT] + EncodePairs(fs)|
      decreases |rest|
    {
      var k :| k in rest;
      var a := EncodeAmf0Key(w, k);
      var b;
      ghost var item;
      b, ok, item := EncodeAmf0(w, v.fields[k]);
      if !ok {
        return 0, false, TNull;
      }
      WalkedOne(fs, v.fields, rest, Field(k, item));
      OnePairMore(o, fs, Field(k, item));
      fs := fs + [Field(k, item)];
      n := n + a + b;
      rest := rest - {k};
    }
    var a := EncodeAmf0Key(w, []);
    w.Write([OBJECT_END]);
    n := n + a + 1;
    ok, t := true, TObj(fs);
    WalkedAll(fs, v.fields);
    ObjectWritten(fs, v.fields);
  }

  lemma WalkedNone(m: map<Text, Value>)
    ensures Walked([], m, m.Keys) && EncodePairs([]) == []
  {
  }

  lemma PairsSnoc(fs: seq<Field>, f: Field)
    ensures EncodePairs(fs + [f]) == EncodePairs(fs) + (EncodeKey(f.key) + Encode(f.value))
  {
    hide EncodeKey, Encode;
    assert (fs + [f])[..|fs + [f]| - 1] == fs;
  }

  /** What has been written once one more key and value are. */
  lemma OnePairMore(o: seq<byte>, fs: seq<Field>, f: Field)
    ensures var head := [OBJECT] + EncodePairs(fs);
            && o + head + EncodeKey(f.key) + Encode(f.value) == o + ([OBJECT] + EncodePairs(fs + [f]))
            && |[OBJECT] + EncodePairs(fs + [f])| == |head| + |EncodeKey(f.key)| + |Encode(f.value)|
  {
    hide EncodeKey, Encode, EncodePairs;
    var head, a, b := [OBJECT] + EncodePairs(fs), EncodeKey(f.key), Encode(f.value);
    PairsSnoc(fs, f);
    Assoc([OBJECT], EncodePairs(fs), a + b);
    Assoc(o + head, a, b);
    Assoc(o, head, a + b);
  }

  lemma ObjectWritten(fs: seq<Field>, m: map<Text, Value>)
    requires StripFields(fs, map[]) == m
    ensures Strip(TObj(fs)) == Obj(m)
    ensures Encode(TObj(fs)) == ([OBJECT] + EncodePairs(fs)) + (EncodeKey([]) + [OBJECT_END])
  {
    hide EncodeKey, EncodePairs;
    PairsThenEnd(fs, []);
    assert fs + [] == fs;
    Assoc([OBJECT], EncodePairs(fs), EncodeKey([]) + [OBJECT_END]);
  }

  /** A batch is written value after value, and stops at the first error; the count it returns is always 0. */
  method EncodeBatch(w: Buffer, vs: seq<Value>) returns (n: nat, ok: bool, ghost ts: seq<Tree>)
    modifies w
    ensures n == 0 && ok == forall i | 0 <= i < |vs| :: Encodable(vs[i])
    ensures ok ==> StripAll(ts) == vs && (forall i | 0 <= i < |ts| :: Distinct(ts[i]))
    ensures ok ==> w.bytes == old(w.bytes) + EncodeItems(ts)
  {
    hide Encode, EncodeItems, Strip, StripAll, Distinct;
    n, ok, ts := 0, true, [];
    NoItems();
    for i := 0 to |vs|
      invariant |ts| == i && StripAll(ts) == vs[..i]
      invariant forall j | 0 <= j < i :: Distinct(ts[j]) && Encodable(vs[j])
      invariant w.bytes == old(w.bytes) + EncodeItems(ts)
    {
      var m, done;
      ghost var item;
      m, done, item := EncodeAmf0(w, vs[i]);
      if !done {
        return 0, false, [];
      }
      ItemsSnoc(ts, item);
      ts := ts + [item];
    }
    ok := true;
    assert vs[..|vs|] == vs;
  }
}
