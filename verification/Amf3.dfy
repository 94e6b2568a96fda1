/** The AMF3 encoder and decoder as they run, for what the encoder's router writes. */
module Amf3 {
  import opened Bytes
  import opened Buffers
  import opened AmfReaders
  import opened Amf3Spec

  // ---- The decoder -------------------------------------------------------

  method DecodeU29(r: Reader) returns (v: Option<nat>)
    modifies r
    ensures Decoded(ReadU29(old(r.input)), v, r.input) && |r.input| <= |old(r.input)|
    ensures v.Some? ==> |r.input| < |old(r.input)|
  {
    var result: nat := 0;
    ghost var s := r.input;
    for i := 0 to 3
      invariant ReadU29(s) == U29From(r.input, i, result) && |r.input| <= |s|
    {
      var b, ok := r.ReadBytes(1);
      if !ok {
        return None;
      }
      result := result * 128 + b[0] % 128;
      if b[0] < 128 {
        return Some(result);
      }
    }
    var b, ok := r.ReadBytes(1);
    if !ok {
      return None;
    }
    v := Some(result * 256 + b[0]);
  }

  method DecodeAmf3String(r: Reader) returns (text: Option<Text>)
    modifies r
    ensures Decoded(ReadText(r.kind, old(r.input)), text, r.input) && |r.input| <= |old(r.input)|
  {
    hide U29From;
    var u := DecodeU29(r);
    if u == None || u.value % 2 == 0 {
      return None;
    }
    var bytes, ok := r.Read(u.value / 2);
    text := if ok then Some(bytes) else None;
  }

  /** The router. */
  method DecodeAmf3(r: Reader) returns (v: Option<Value>)
    modifies r
    ensures Decoded(Decode(r.kind, old(r.input)), v, r.input) && |r.input| <= |old(r.input)|
    decreases |r.input|, 0
  {
    hide ReadText, ReadU29, DecodeArray, DecodeObject;
    var marker, ok := r.ReadBytes(1);
    if !ok {
      return None;
    }
    v := None;
    match marker[0]
    case 0x00 => v := Some(Null);
    case 0x01 => v := Some(Null);
    case 0x02 => v := Some(Bool(false));
    case 0x03 => v := Some(Bool(true));
    case 0x04 =>
      var u := DecodeU29(r);
      if u.Some? { v := Some(Int(Signed(u.value))); }
    case 0x05 =>
      var bits, got := r.ReadBytes(8);
      if got { v := Some(Number(bits)); }
    case 0x06 =>
      var text := DecodeAmf3String(r);
      if text.Some? { v := Some(Str(text.value)); }
    case 0x09 => v := DecodeAmf3Array(r);
    case 0x0a => v := DecodeAmf3Object(r);
    case _ =>
  }

  method DecodeAmf3Array(r: Reader) returns (v: Option<Value>)
    modifies r
    ensures Decoded(DecodeArray(r.kind, old(r.input)), v, r.input) && |r.input| <= |old(r.input)|
    decreases |r.input|, 3
  {
    hide ReadText, ReadU29, Decode;
    var u := DecodeU29(r);
    if u == None || u.value % 2 == 0 {
      return None;
    }
    var key := DecodeAmf3String(r);
    if key == None || key.value != [] {
      return None;
    }
    var n := u.value / 2;
    ghost var s := r.input;
    var result: seq<Value> := [];
    for i := 0 to n
      invariant |r.input| <= |s|
      invariant DecodeItems(r.kind, s, n, []) == DecodeItems(r.kind, r.input, n - i, result)
    {
      var item := DecodeAmf3(r);
      if item == None {
        return None;
      }
      result := result + [item.value];
    }
    v := Some(Arr(result));
  }

  method DecodeAmf3Keys(r: Reader, n: nat) returns (keys: Option<seq<Text>>)
    modifies r
    ensures Decoded(DecodeKeys(r.kind, old(r.input), n, []), keys, r.input) && |r.input| <= |old(r.input)|
  {
    hide ReadText;
    ghost var s := r.input;
    var result: seq<Text> := [];
    for i := 0 to n
      invariant |r.input| <= |s|
      invariant DecodeKeys(r.kind, s, n, []) == DecodeKeys(r.kind, r.input, n - i, result)
    {
      var key := DecodeAmf3String(r);
      if key == None {
        return None;
      }
      result := result + [key.value];
    }
    keys := Some(result);
  }

  method DecodeAmf3Object(r: Reader) returns (v: Option<Value>)
    modifies r
    ensures Decoded(DecodeObject(r.kind, old(r.input)), v, r.input) && |r.input| <= |old(r.input)|
    decreases |r.input|, 3
  {
    hide ReadText, ReadU29, Decode, DecodeKeys;
    var u := DecodeU29(r);
    if u == None || u.value % 16 != 3 {
      return None;
    }
    var name := DecodeAmf3String(r);
    if name == None {
      return None;
    }
    var keys := DecodeAmf3Keys(r, u.value / 16);
    if keys == None {
      return None;
    }
    ghost var s := r.input;
    var ks := keys.value;
    var obj: map<Text, Value> := map[];
    assert ks[0..] == ks;
    for i := 0 to |ks|
      invariant |r.input| <= |s|
      invariant DecodeValues(r.kind, s, ks, map[]) == DecodeValues(r.kind, r.input, ks[i..], obj)
    {
      var val := DecodeAmf3(r);
      if val == None {
        return None;
      }
      assert ks[i..][1..] == ks[i + 1..];
      obj := obj[ks[i] := val.value];
    }
    v := Some(Obj(obj));
  }

  // ---- The encoder -------------------------------------------------------

  /** Integers the router writes as integers; others it turns into doubles. */
  predicate InRange(v: Value) {
    match v
    case Int(i) => 0 <= i <= U29_MAX
    case Arr(vs) => forall i | 0 <= i < |vs| :: InRange(vs[i])
    case Obj(m) => forall k <- m :: InRange(m[k])
    case _ => true
  }

  /** Every length and count fits its integer. */
  predicate Encodable(v: Value) {
    match v
    case Str(text) => Header(|text|) <= U29_MAX
    case Arr(vs) => Header(|vs|) <= U29_MAX && forall i | 0 <= i < |vs| :: Encodable(vs[i])
    case Obj(m) => FieldsHeader(|m|) <= U29_MAX && forall k <- m :: Header(|k|) <= U29_MAX && Encodable(m[k])
    case _ => true
  }

  /** Nothing is written for a value out of range. */
  method EncodeUint29(w: Buffer, v: nat) returns (n: nat, ok: bool)
    modifies w
    ensures ok == (v <= U29_MAX) && w.bytes == old(w.bytes) + U29(v) && n == |U29(v)|
  {
    n, ok := 0, true;
    if v <= 0x7f {
      w.Write([v]);
      n := 1;
    } else if v <= 0x3fff {
      w.Write([v / 0x80 + 128, v % 0x80]);
      n := 2;
    } else if v <= 0x1f_ffff {
      w.Write([v / 0x4000 + 128, v / 0x80 % 0x80 + 128, v % 0x80]);
      n := 3;
    } else if v <= U29_MAX {
      w.Write([v / 0x40_0000 + 128, v / 0x8000 % 0x80 + 128, v / 0x100 % 0x80 + 128, v % 0x100]);
      n := 4;
    } else {
      ok := false;
    }
  }

  method EncodeUtf8(w: Buffer, text: Text) returns (n: nat, ok: bool)
    modifies w
    ensures ok == (Header(|text|) <= U29_MAX)
    ensures ok ==> w.bytes == old(w.bytes) + EncodeText(text) && n == |EncodeText(text)|
  {
    hide U29;
    n, ok := EncodeUint29(w, Header(|text|));
    if ok {
      Assoc(old(w.bytes), U29(Header(|text|)), text);
      w.Write(text);
      n := n + |text|;
    }
  }

  /** Inserts a key where it belongs. */
  function Insert(ks: seq<Text>, k: Text): (r: seq<Text>)
    ensures |r| == |ks| + 1
  {
    if ks == [] || Less(k, ks[0]) then [k] + ks else [ks[0]] + Insert(ks[1..], k)
  }

  ghost predicate Up(ks: seq<Text>) {
    forall i, j | 0 <= i < j < |ks| :: Less(ks[i], ks[j])
  }

  lemma {:induction false} InsertUp(ks: seq<Text>, k: Text)
    requires Up(ks) && k !in ks
    ensures Up(Insert(ks, k)) && forall x: Text :: x in Insert(ks, k) <==> x == k || x in ks
  {
    hide Less;
    if ks == [] {
    } else if Less(k, ks[0]) {
      forall j | 0 <= j < |ks|
        ensures Less(k, ks[j])
      {
        if j > 0 { LessTransitive(k, ks[0], ks[j]); }
      }
    } else {
      InsertUp(ks[1..], k);
      LessTotal(k, ks[0]);
      var r := Insert(ks[1..], k);
      forall j | 0 <= j < |r|
        ensures Less(ks[0], r[j])
      {
        assert r[j] in r;
        if r[j] != k {
          var i :| 0 <= i < |ks[1..]| && ks[1..][i] == r[j];
          assert ks[i + 1] == r[j];
        }
      }
      assert Insert(ks, k) == [ks[0]] + r;
    }
  }

  /** The keys of an object, sorted. */
  method SortedKeys(m: map<Text, Value>) returns (ks: seq<Text>)
    ensures Up(ks) && |ks| == |m| && forall k: Text :: k in ks <==> k in m
  {
    hide Less, Insert;
    ks := [];
    var rest := m.Keys;
    while rest != {}
      invariant rest <= m.Keys && Up(ks) && |ks| + |rest| == |m|
      invariant forall k: Text :: k in ks <==> k in m && k !in rest
      decreases |rest|
    {
      var k :| k in rest;
      InsertUp(ks, k);
      ks := Insert(ks, k);
      rest := rest - {k};
    }
  }

  function EncodeTexts(ks: seq<Text>): seq<byte> {
    if ks == [] then [] else EncodeTexts(ks[..|ks| - 1]) + EncodeText(ks[|ks| - 1])
  }

  lemma {:induction false} ItemsSnoc(ts: seq<Tree>, t: Tree)
    ensures EncodeItems(ts + [t]) == EncodeItems(ts) + Encode(t)
    ensures StripAll(ts + [t]) == StripAll(ts) + [Strip(t)]
  {
    hide Encode, Strip;
    if ts == [] {
      assert [t][1..] == [] && [] + [t] == [t];
      assert Encode(t) + [] == Encode(t);
    } else {
      ItemsSnoc(ts[1..], t);
      assert (ts + [t])[1..] == ts[1..] + [t];
      Assoc(Encode(ts[0]), EncodeItems(ts[1..]), Encode(t));
    }
  }

  lemma {:induction false} FieldsSnoc(fs: seq<Field>, f: Field)
    ensures EncodeValues(fs + [f]) == EncodeValues(fs) + Encode(f.value)
    ensures EncodeKeys(fs + [f]) == EncodeKeys(fs) + EncodeText(f.key)
  {
    hide Encode, EncodeText;
    if fs == [] {
      assert [f][1..] == [] && [] + [f] == [f];
      assert Encode(f.value) + [] == Encode(f.value) && EncodeText(f.key) + [] == EncodeText(f.key);
    } else {
      FieldsSnoc(fs[1..], f);
      assert (fs + [f])[1..] == fs[1..] + [f];
      Assoc(Encode(fs[0].value), EncodeValues(fs[1..]), Encode(f.value));
      Assoc(EncodeText(fs[0].key), EncodeKeys(fs[1..]), EncodeText(f.key));
    }
  }

  /** The first fields of object `m`, whose sorted keys are `ks`. */
  ghost predicate Walked(fs: seq<Field>, ks: seq<Text>, m: map<Text, Value>) {
    && |fs| <= |ks|
    && forall i | 0 <= i < |fs| :: fs[i].key == ks[i] && ks[i] in m && Strip(fs[i].value) == m[ks[i]] && Sorted(fs[i].value)
  }

  lemma WalkedAll(fs: seq<Field>, ks: seq<Text>, m: map<Text, Value>)
    requires Walked(fs, ks, m) && |fs| == |ks| && Up(ks) && forall k: Text :: k in ks <==> k in m
    ensures Sorted(TObj(fs)) && Strip(TObj(fs)) == Obj(m)
  {
    hide Less, Strip, StripFields;
    assert Ascending(fs);
    HeldBy(fs);
    var r := StripFields(fs, map[]);
    forall k <- m
      ensures k in r && r[k] == m[k]
    {
      assert k in ks;
      var i :| 0 <= i < |ks| && ks[i] == k;
      assert fs[i].key == k;
    }
    forall k <- r
      ensures k in m
    {
      var i :| 0 <= i < |fs| && fs[i].key == k;
    }
    assert r == m;
    StripObj(fs);
  }

  lemma StripObj(fs: seq<Field>)
    ensures Strip(TObj(fs)) == Obj(StripFields(fs, map[]))
  {
  }

  /** The router: the bytes are those of the one tree that has its keys in order. */
  method EncodeAmf3(w: Buffer, v: Value) returns (n: nat, ok: bool, ghost t: Tree)
    requires InRange(v)
    modifies w
    ensures ok == Encodable(v)
    ensures ok ==> Strip(t) == v && Sorted(t) && w.bytes == old(w.bytes) + Encode(t) && n == |Encode(t)|
    decreases v, 1
  {
    hide U29, EncodeText;
    n, ok, t := 0, true, TNull;
    match v
    case Null =>
      w.Write([NULL]);
      n := 1;
    case Bool(b) =>
      w.Write([if b then TRUE else FALSE]);
      n, t := 1, TBool(b);
    case Int(i) =>
      Assoc(old(w.bytes), [INTEGER], U29(i));
      w.Write([INTEGER]);
      n, ok := EncodeUint29(w, i);
      n, t := n + 1, TInt(i);
    case Number(bits) =>
      w.Write([DOUBLE]);
      w.Write(bits);
      n, t := 9, TNumber(bits);
    case Str(text) =>
      Assoc(old(w.bytes), [STRING], EncodeText(text));
      w.Write([STRING]);
      n, ok := EncodeUtf8(w, text);
      n, t := n + 1, TStr(text);
    case Arr(vs) =>
      n, ok, t := EncodeAmf3Array(w, v);
    case Obj(m) =>
      n, ok, t := EncodeAmf3Object(w, v);
  }

  method EncodeAmf3Array(w: Buffer, v: Value) returns (n: nat, ok: bool, ghost t: Tree)
    requires v.Arr? && InRange(v)
    modifies w
    ensures ok == Encodable(v)
    ensures ok ==> Strip(t) == v && Sorted(t) && w.bytes == old(w.bytes) + Encode(t) && n == |Encode(t)|
    decreases v, 0
  {
    hide U29, EncodeText, Encode, EncodeItems, Strip, StripAll, Sorted;
    t := TNull;
    ghost var before := w.bytes;
    ghost var ts: seq<Tree> := [];
    w.Write([ARRAY]);
    var m;
    m, ok := EncodeUint29(w, Header(|v.items|));
    if !ok {
      return 0, false, TNull;
    }
    n := 1 + m;
    m, ok := EncodeUtf8(w, []);
    n := n + m;
    ghost var head := [ARRAY] + U29(Header(|v.items|)) + EncodeText([]);
    Assoc(before, [ARRAY], U29(Header(|v.items|)));
    Assoc(before, [ARRAY] + U29(Header(|v.items|)), EncodeText([]));
    NoItems(head);
    for i := 0 to |v.items|
      invariant |ts| == i && StripAll(ts) == v.items[..i]
      invariant forall j | 0 <= j < i :: Sorted(ts[j]) && Encodable(v.items[j])
      invariant w.bytes == before + (head + EncodeItems(ts)) && n == |head + EncodeItems(ts)|
    {
      ghost var item;
      m, ok, item := EncodeAmf3(w, v.items[i]);
      if !ok {
        return 0, false, TNull;
      }
      ItemsSnoc(ts, item);
      Assoc(head, EncodeItems(ts), Encode(item));
      Assoc(before, head + EncodeItems(ts), Encode(item));
      ts := ts + [item];
      n := n + m;
    }
    ok, t := true, TArr(ts);
    assert v.items[..|v.items|] == v.items;
    ArrayWritten(ts, v.items);
  }

  lemma NoItems(head: seq<byte>)
    ensures EncodeItems([]) == [] && StripAll([]) == [] && head + [] == head
  {
  }

  lemma ArrayWritten(ts: seq<Tree>, vs: seq<Value>)
    requires StripAll(ts) == vs && forall j | 0 <= j < |ts| :: Sorted(ts[j])
    ensures Strip(TArr(ts)) == Arr(vs) && Sorted(TArr(ts))
    ensures Encode(TArr(ts)) == [ARRAY] + U29(Header(|ts|)) + EncodeText([]) + EncodeItems(ts)
  {
    hide U29, EncodeText, EncodeItems;
    Assoc([ARRAY], U29(Header(|ts|)), EncodeText([]) + EncodeItems(ts));
    Assoc([ARRAY] + U29(Header(|ts|)), EncodeText([]), EncodeItems(ts));
  }

  /** The property names, one after another, up to the first that is too long. */
  method EncodeKeysOf(w: Buffer, ks: seq<Text>) returns (n: nat, ok: bool)
    modifies w
    ensures ok == forall i | 0 <= i < |ks| :: Header(|ks[i]|) <= U29_MAX
    ensures ok ==> w.bytes == old(w.bytes) + EncodeTexts(ks) && n == |EncodeTexts(ks)|
  {
    hide EncodeText, Header;
    n, ok := 0, true;
    for i := 0 to |ks|
      invariant w.bytes == old(w.bytes) + EncodeTexts(ks[..i]) && n == |EncodeTexts(ks[..i])|
      invariant forall j | 0 <= j < i :: Header(|ks[j]|) <= U29_MAX
    {
      var m;
      m, ok := EncodeUtf8(w, ks[i]);
      if !ok {
        return 0, false;
      }
      assert ks[..i + 1][..i] == ks[..i];
      n := n + m;
    }
    ok := true;
    assert ks[..|ks|] == ks;
  }

  lemma {:induction false} KeysWritten(fs: seq<Field>, ks: seq<Text>)
    requires |fs| == |ks| && forall i | 0 <= i < |fs| :: fs[i].key == ks[i]
    ensures EncodeKeys(fs) == EncodeTexts(ks)
    decreases |fs|
  {
    hide EncodeText;
    if fs != [] {
      var n := |fs| - 1;
      KeysWritten(fs[..n], ks[..n]);
      FieldsSnoc(fs[..n], fs[n]);
      assert fs == fs[..n] + [fs[n]];
    }
  }

  method EncodeAmf3Object(w: Buffer, v: Value) returns (n: nat, ok: bool, ghost t: Tree)
    requires v.Obj? && InRange(v)
    modifies w
    ensures ok == Encodable(v)
    ensures ok ==> Strip(t) == v && Sorted(t) && w.bytes == old(w.bytes) + Encode(t) && n == |Encode(t)|
    decreases v, 0
  {
    hide U29, EncodeText, Encode, EncodeValues, EncodeTexts, Strip, Sorted, Walked, Up, Header;
    t := TNull;
    ghost var before := w.bytes;
    w.Write([OBJECT]);
    var ks := SortedKeys(v.fields);
    var m;
    m, ok := EncodeUint29(w, FieldsHeader(|ks|));
    if !ok {
      return 0, false, TNull;
    }
    n := 1 + m;
    m, ok := EncodeUtf8(w, []);
    n := n + m;
    assert ok by { SmallHeader(0); }
    m, ok := EncodeKeysOf(w, ks);
    if !ok {
      return 0, false, TNull;
    }
    n := n + m;
    ghost var head := [OBJECT] + U29(FieldsHeader(|ks|)) + EncodeText([]) + EncodeTexts(ks);
    assert w.bytes == before + head;
    ghost var fs: seq<Field> := [];
    NoFields(head, ks, v.fields);
    for i := 0 to |ks|
      invariant |fs| == i && Walked(fs, ks, v.fields)
      invariant forall j | 0 <= j < i :: ks[j] in v.fields && Encodable(v.fields[ks[j]])
      invariant w.bytes == before + (head + EncodeValues(fs)) && n == |head + EncodeValues(fs)|
    {
      assert ks[i] in v.fields;
      ghost var item;
      m, ok, item := EncodeAmf3(w, v.fields[ks[i]]);
      if !ok {
        return 0, false, TNull;
      }
      FieldsSnoc(fs, Field(ks[i], item));
      WalkedOne(fs, ks, v.fields, item);
      Assoc(head, EncodeValues(fs), Encode(item));
      Assoc(before, head + EncodeValues(fs), Encode(item));
      fs := fs + [Field(ks[i], item)];
      n := n + m;
    }
    ok, t := true, TObj(fs);
    WalkedAll(fs, ks, v.fields);
    ObjectWritten(fs, ks, v.fields);
  }

  lemma NoFields(head: seq<byte>, ks: seq<Text>, m: map<Text, Value>)
    ensures EncodeValues([]) == [] && head + [] == head && Walked([], ks, m)
  {
  }

  lemma WalkedOne(fs: seq<Field>, ks: seq<Text>, m: map<Text, Value>, item: Tree)
    requires Walked(fs, ks, m) && |fs| < |ks| && ks[|fs|] in m && Strip(item) == m[ks[|fs|]] && Sorted(item)
    ensures Walked(fs + [Field(ks[|fs|], item)], ks, m)
  {
    hide Strip, Sorted;
  }

  lemma ObjectWritten(fs: seq<Field>, ks: seq<Text>, m: map<Text, Value>)
    requires Walked(fs, ks, m) && |fs| == |ks|
    ensures Encode(TObj(fs)) == [OBJECT] + U29(FieldsHeader(|ks|)) + EncodeText([]) + EncodeTexts(ks) + EncodeValues(fs)
  {
    hide U29, EncodeText, EncodeKeys, EncodeValues, EncodeTexts, Strip, Sorted;
    KeysWritten(fs, ks);
    var h, c, keys, values := U29(FieldsHeader(|fs|)), EncodeText([]), EncodeKeys(fs), EncodeValues(fs);
    Assoc([OBJECT], h, c + (keys + values));
    Assoc([OBJECT] + h, c, keys + values);
    Assoc([OBJECT] + h + c, keys, values);
  }
}
