/**
 AMF0 on values: what the encoder writes for a value and a choice of key orders,
 what the decoder makes of any bytes, and when the one undoes the other.
 */
module Amf0Spec {
  import opened Bytes
  import opened AmfReaders

  const NUMBER := 0x00
  const BOOLEAN := 0x01
  const STRING := 0x02
  const OBJECT := 0x03
  const NULL := 0x05
  const OBJECT_END := 0x09
  const STRICT_ARRAY := 0x0a
  const LONG_STRING := 0x0c

  const STRING_MAX := 65535
  const LENGTH_LIMIT := 0x1_0000_0000

  datatype Value =
    | Null | Bool(b: bool) | Number(bits: Double) | Str(text: Text)
    | Arr(items: seq<Value>) | Obj(fields: map<Text, Value>) | Typed(name: Text, fields: map<Text, Value>)

  /** A value with an order of the keys of each object, as the encoder walks it. */
  datatype Tree =
    | TNull | TBool(b: bool) | TNumber(bits: Double) | TStr(text: Text)
    | TArr(items: seq<Tree>) | TObj(fields: seq<Field>)

  datatype Field = Field(key: Text, value: Tree)

  /** The value a tree is an order of. */
  function Strip(t: Tree): Value {
    match t
    case TNull => Null
    case TBool(b) => Bool(b)
    case TNumber(bits) => Number(bits)
    case TStr(text) => Str(text)
    case TArr(ts) => Arr(StripAll(ts))
    case TObj(fs) => Obj(StripFields(fs, map[]))
  }

  function StripAll(ts: seq<Tree>): (r: seq<Value>)
    ensures |r| == |ts|
  {
    if ts == [] then [] else [Strip(ts[0])] + StripAll(ts[1..])
  }

  function StripFields(fs: seq<Field>, acc: map<Text, Value>): map<Text, Value> {
    if fs == [] then acc else StripFields(fs[1..], acc[fs[0].key := Strip(fs[0].value)])
  }

  /** No object names a key twice. */
  ghost predicate Distinct(t: Tree) {
    match t
    case TArr(ts) => forall i | 0 <= i < |ts| :: Distinct(ts[i])
    case TObj(fs) =>
      && (forall i, j | 0 <= i < j < |fs| :: fs[i].key != fs[j].key)
      && forall i | 0 <= i < |fs| :: Distinct(fs[i].value)
    case _ => true
  }

  // ---- The encoder -------------------------------------------------------

  /** A string without marker, as keys are written. */
  function EncodeKey(k: Text): seq<byte> {
    BE(|k|, 2) + k
  }

  function EncodeStr(text: Text): seq<byte> {
    if |text| <= STRING_MAX then [STRING] + EncodeKey(text) else [LONG_STRING] + (BE(|text|, 4) + text)
  }

  function Encode(t: Tree): (s: seq<byte>)
    ensures s != []
  {
    match t
    case TNull => [NULL]
    case TBool(b) => [BOOLEAN, if b then 1 else 0]
    case TNumber(bits) => [NUMBER] + bits
    case TStr(text) => EncodeStr(text)
    case TArr(ts) => [STRICT_ARRAY] + (BE(|ts|, 4) + EncodeItems(ts))
    case TObj(fs) => [OBJECT] + EncodeFields(fs)
  }

  function EncodeItems(ts: seq<Tree>): seq<byte> {
    if ts == [] then [] else Encode(ts[0]) + EncodeItems(ts[1..])
  }

  /** The fields, and what ends them: an empty key and a marker. */
  function EncodeFields(fs: seq<Field>): seq<byte> {
    if fs == [] then EncodeKey([]) + [OBJECT_END]
    else EncodeKey(fs[0].key) + (Encode(fs[0].value) + EncodeFields(fs[1..]))
  }

  // ---- The decoder -------------------------------------------------------

  /** A string behind a length of `w` bytes. */
  function TakeText(kind: Kind, s: seq<byte>, w: nat): (r: Result<Text>)
    ensures r.Ok? ==> |r.rest| + w <= |s|
  {
    match Take(kind, s, w)
    case Fail => Fail
    case Ok(h, t) => Take(kind, t, FromBE(h))
  }

  function Decode(kind: Kind, s: seq<byte>): (r: Result<Value>)
    ensures r.Ok? ==> |r.rest| < |s|
    decreases |s|, 0
  {
    if s == [] then Fail
    else
      var t := s[1..];
      match s[0]
      case 0x00 => DecodeNumber(t)
      case 0x01 => if t != [] && t[0] <= 1 then Ok(Bool(t[0] == 1), t[1..]) else Fail
      case 0x02 => AsStr(TakeText(kind, t, 2))
      case 0x03 => AsObj(DecodeFields(kind, t, map[]))
      case 0x05 => Ok(Null, t)
      case 0x06 => Ok(Null, t)
      case 0x08 => if |t| >= 4 then AsObj(DecodeFields(kind, t[4..], map[])) else Fail
      case 0x0a => if |t| >= 4 then AsArr(DecodeItems(kind, t[4..], FromBE(t[..4]), [])) else Fail
      case 0x0b => if |t| >= 10 then Ok(Number(t[..8]), t[10..]) else Fail
      case 0x0c => AsStr(TakeText(kind, t, 4))
      case 0x0d => Ok(Null, t)
      case 0x0f => AsStr(TakeText(kind, t, 4))
      case 0x10 => DecodeTyped(kind, t)
      case _ => Fail
  }

  function DecodeNumber(t: seq<byte>): (r: Result<Value>)
    ensures r.Ok? ==> |r.rest| <= |t|
  {
    if |t| >= 8 then Ok(Number(t[..8]), t[8..]) else Fail
  }

  function AsStr(r: Result<Text>): (q: Result<Value>)
    ensures q.Ok? <==> r.Ok?
    ensures q.Ok? ==> q.rest == r.rest && q.value == Str(r.value)
  {
    match r case Fail => Fail case Ok(text, rest) => Ok(Str(text), rest)
  }

  function AsObj(r: Result<map<Text, Value>>): (q: Result<Value>)
    ensures q.Ok? <==> r.Ok?
    ensures q.Ok? ==> q.rest == r.rest && q.value == Obj(r.value)
  {
    match r case Fail => Fail case Ok(m, rest) => Ok(Obj(m), rest)
  }

  function AsArr(r: Result<seq<Value>>): (q: Result<Value>)
    ensures q.Ok? <==> r.Ok?
    ensures q.Ok? ==> q.rest == r.rest && q.value == Arr(r.value)
  {
    match r case Fail => Fail case Ok(items, rest) => Ok(Arr(items), rest)
  }

  function DecodeItems(kind: Kind, s: seq<byte>, n: nat, acc: seq<Value>): (r: Result<seq<Value>>)
    ensures r.Ok? ==> |r.rest| <= |s|
    decreases |s|, 1, n
  {
    if n == 0 then Ok(acc, s)
    else
      match Decode(kind, s)
      case Fail => Fail
      case Ok(v, t) => DecodeItems(kind, t, n - 1, acc + [v])
  }

  /** Keys and values up to an empty key, which an end marker must follow; a key that comes again replaces its value. */
  function DecodeFields(kind: Kind, s: seq<byte>, acc: map<Text, Value>): (r: Result<map<Text, Value>>)
    ensures r.Ok? ==> |r.rest| <= |s|
    decreases |s|, 1
  {
    match TakeText(kind, s, 2)
    case Fail => Fail
    case Ok(k, t) =>
      if k == [] then
        if t != [] && t[0] == OBJECT_END then Ok(acc, t[1..]) else Fail
      else
        match Decode(kind, t)
        case Fail => Fail
        case Ok(v, u) => DecodeFields(kind, u, acc[k := v])
  }

  function DecodeTyped(kind: Kind, t: seq<byte>): (r: Result<Value>)
    ensures r.Ok? ==> |r.rest| <= |t|
    decreases |t|, 2
  {
    match TakeText(kind, t, 2)
    case Fail => Fail
    case Ok(name, u) =>
      match DecodeFields(kind, u, map[])
      case Fail => Fail
      case Ok(m, rest) => Ok(Typed(name, m), rest)
  }

  // ---- What fits ---------------------------------------------------------

  /** What the length fields can hold, and keys that are not the end of an object. */
  ghost predicate Representable(t: Tree) {
    match t
    case TStr(text) => |text| < LENGTH_LIMIT
    case TArr(ts) => |ts| < LENGTH_LIMIT && forall i | 0 <= i < |ts| :: Representable(ts[i])
    case TObj(fs) => forall i | 0 <= i < |fs| :: 1 <= |fs[i].key| <= STRING_MAX && Representable(fs[i].value)
    case _ => true
  }

  ghost predicate Bounded(v: Value) {
    match v
    case Str(text) => |text| < LENGTH_LIMIT
    case Arr(vs) => |vs| < LENGTH_LIMIT && forall i | 0 <= i < |vs| :: Bounded(vs[i])
    case Obj(m) => forall k <- m :: 1 <= |k| <= STRING_MAX && Bounded(m[k])
    case Typed(name, m) => forall k <- m :: 1 <= |k| <= STRING_MAX && Bounded(m[k])
    case _ => true
  }

  ghost predicate BoundedFields(m: map<Text, Value>) {
    forall k <- m :: 1 <= |k| <= STRING_MAX && Bounded(m[k])
  }

  // ---- Where an empty read is refused ------------------------------------

  /** The last thing written is the empty body of a string: nothing ends an array. */
  predicate EndsEmpty(t: Tree) {
    match t
    case TStr(text) => text == []
    case TArr(ts) => ts != [] && EndsEmpty(ts[|ts| - 1])
    case _ => false
  }

  /** A reader that refuses empty reads at its end gets to no such string there. */
  predicate Reachable(kind: Kind, t: Tree, rest: seq<byte>) {
    kind.BytesBuffer? || rest != [] || !EndsEmpty(t)
  }

  // ---- Texts behind their lengths ----------------------------------------

  lemma TakeFirst(kind: Kind, a: seq<byte>, b: seq<byte>)
    requires kind.BytesBuffer? || a != [] || b != []
    ensures Take(kind, a + b, |a|) == Ok(a, b)
  {
  }

  lemma TakeTextOf(kind: Kind, text: Text, w: nat, rest: seq<byte>)
    requires |text| < Pow256(w) && w > 0
    requires kind.BytesBuffer? || text != [] || rest != []
    ensures TakeText(kind, BE(|text|, w) + text + rest, w) == Ok(text, rest)
  {
    hide BE, FromBE, Take;
    Assoc(BE(|text|, w), text, rest);
    TakeFirst(kind, BE(|text|, w), text + rest);
    BERoundTrip(|text|, w);
    SmallMod(|text|, Pow256(w));
    TakeFirst(kind, text, rest);
  }

  lemma Limits()
    ensures Pow256(2) == STRING_MAX + 1 && Pow256(4) == LENGTH_LIMIT
  {
    Pow256Values();
  }

  // ---- The format --------------------------------------------------------

  /** What bytes say, form by form. The encoder writes some of the forms; a peer may send any. */
  datatype Wire =
    | WNumber(bits: Double) | WBool(b: bool) | WShort(text: Text) | WObject(members: seq<Member>)
    | WNull | WUndefined | WEcma(count: seq<byte>, members: seq<Member>) | WStrict(items: seq<Wire>)
    | WDate(bits: Double, zone: seq<byte>) | WLong(text: Text) | WUnsupported | WXml(text: Text)
    | WTyped(name: Text, members: seq<Member>)

  datatype Member = Member(key: Text, value: Wire)

  function Length2(n: nat): seq<byte> {
    [n / 0x100 % 0x100, n % 0x100]
  }

  function Length4(n: nat): seq<byte> {
    [n / 0x100_0000 % 0x100, n / 0x1_0000 % 0x100, n / 0x100 % 0x100, n % 0x100]
  }

  /** The bytes of each form. */
  function BytesOf(w: Wire): (s: seq<byte>)
    ensures s != []
  {
    match w
    case WNumber(bits) => [0x00] + bits
    case WBool(b) => [0x01, if b then 0x01 else 0x00]
    case WShort(text) => [0x02] + (Length2(|text|) + text)
    case WObject(ms) => [0x03] + MemberBytes(ms)
    case WNull => [0x05]
    case WUndefined => [0x06]
    case WEcma(count, ms) => [0x08] + (count + MemberBytes(ms))
    case WStrict(ws) => [0x0a] + (Length4(|ws|) + ItemBytes(ws))
    case WDate(bits, zone) => [0x0b] + (bits + zone)
    case WLong(text) => [0x0c] + (Length4(|text|) + text)
    case WUnsupported => [0x0d]
    case WXml(text) => [0x0f] + (Length4(|text|) + text)
    case WTyped(name, ms) => [0x10] + (Length2(|name|) + name + MemberBytes(ms))
  }

  function ItemBytes(ws: seq<Wire>): seq<byte> {
    if ws == [] then [] else BytesOf(ws[0]) + ItemBytes(ws[1..])
  }

  function MemberBytes(ms: seq<Member>): (s: seq<byte>)
    ensures s != []
  {
    if ms == [] then [0x00, 0x00, 0x09]
    else Length2(|ms[0].key|) + ms[0].key + (BytesOf(ms[0].value) + MemberBytes(ms[1..]))
  }

  /** The value each form stands for. */
  function Meaning(w: Wire): Value {
    match w
    case WNumber(bits) => Number(bits)
    case WBool(b) => Bool(b)
    case WNull => Null
    case WUndefined => Null
    case WUnsupported => Null
    case WShort(text) => Str(text)
    case WLong(text) => Str(text)
    case WXml(text) => Str(text)
    case WObject(ms) => Obj(Fields(ms))
    case WEcma(_, ms) => Obj(Fields(ms))
    case WTyped(name, ms) => Typed(name, Fields(ms))
    case WStrict(ws) => Arr(Meanings(ws))
    case WDate(bits, _) => Number(bits)
  }

  function Meanings(ws: seq<Wire>): seq<Value> {
    if ws == [] then [] else [Meaning(ws[0])] + Meanings(ws[1..])
  }

  /** Of members with the same key the last one counts. */
  function Fields(ms: seq<Member>): map<Text, Value> {
    if ms == [] then map[] else map[ms[0].key := Meaning(ms[0].value)] + Fields(ms[1..])
  }

  /** What its lengths and counts can say, and no member without a key. */
  ghost predicate Proper(w: Wire) {
    match w
    case WShort(text) => |text| < 0x1_0000
    case WLong(text) => |text| < 0x1_0000_0000
    case WXml(text) => |text| < 0x1_0000_0000
    case WStrict(ws) => |ws| < 0x1_0000_0000 && forall i | 0 <= i < |ws| :: Proper(ws[i])
    case WDate(_, zone) => |zone| == 2
    case WObject(ms) => forall i | 0 <= i < |ms| :: 1 <= |ms[i].key| < 0x1_0000 && Proper(ms[i].value)
    case WEcma(count, ms) =>
      |count| == 4 && forall i | 0 <= i < |ms| :: 1 <= |ms[i].key| < 0x1_0000 && Proper(ms[i].value)
    case WTyped(name, ms) =>
      |name| < 0x1_0000 && forall i | 0 <= i < |ms| :: 1 <= |ms[i].key| < 0x1_0000 && Proper(ms[i].value)
    case _ => true
  }

  ghost predicate ProperMembers(ms: seq<Member>) {
    forall i | 0 <= i < |ms| :: 1 <= |ms[i].key| < 0x1_0000 && Proper(ms[i].value)
  }

  /** The form ends with the empty body of a string. */
  predicate Open(w: Wire) {
    match w
    case WShort(text) => text == []
    case WLong(text) => text == []
    case WXml(text) => text == []
    case WStrict(ws) => ws != [] && Open(ws[|ws| - 1])
    case _ => false
  }

  /** A reader that refuses empty reads at its end is not made to read there. */
  predicate Gets(kind: Kind, w: Wire, rest: seq<byte>) {
    kind.BytesBuffer? || rest != [] || !Open(w)
  }

  lemma Lengths(n: nat)
    ensures Length2(n) == BE(n, 2) && Length4(n) == BE(n, 4)
  {
    DivDiv(n, 0x100, 0x100);
    DivDiv(n, 0x1_0000, 0x100);
    assert BE(n, 2) == BE(n / 256, 1) + [n % 256];
    assert BE(n / 256, 1) == [n / 256 % 256];
    assert BE(n, 4) == BE(n / 256 / 256, 2) + [n / 256 % 256] + [n % 256];
    assert BE(n / 256 / 256, 2) == [n / 256 / 256 / 256 % 256] + [n / 256 / 256 % 256];
  }

  // ---- Every proper form is read -----------------------------------------

  lemma ReadsText(kind: Kind, w: Wire, rest: seq<byte>)
    requires (w.WShort? || w.WLong? || w.WXml?) && Proper(w) && Gets(kind, w, rest)
    ensures Decode(kind, BytesOf(w) + rest) == Ok(Str(w.text), rest)
  {
    hide BE, FromBE, Take, TakeText, Length2, Length4;
    Limits();
    Lengths(|w.text|);
    var n := if w.WShort? then 2 else 4;
    TakeTextOf(kind, w.text, n, rest);
    AfterMarker(BytesOf(w)[0], BE(|w.text|, n) + w.text, rest);
  }

  lemma ReadsLeaf(kind: Kind, w: Wire, rest: seq<byte>)
    requires w.WNumber? || w.WBool? || w.WNull? || w.WUndefined? || w.WUnsupported? || w.WDate?
    requires Proper(w)
    ensures Decode(kind, BytesOf(w) + rest) == Ok(Meaning(w), rest)
  {
    var s := BytesOf(w) + rest;
    if w.WNumber? {
      assert s[1..] == w.bits + rest;
      assert s[1..][..8] == w.bits && s[1..][8..] == rest;
    } else if w.WDate? {
      assert s[1..] == w.bits + w.zone + rest;
      assert s[1..][..8] == w.bits && s[1..][10..] == rest;
    } else if w.WBool? {
      assert s[1..] == [if w.b then 1 else 0] + rest;
      assert s[1..][1..] == rest;
    } else {
      assert s[1..] == rest;
    }
  }

  /** Whatever proper bytes a peer sends, the decoder returns what they stand for and leaves what follows. */
  lemma {:induction false} Reads(kind: Kind, w: Wire, rest: seq<byte>)
    requires Proper(w) && Gets(kind, w, rest)
    ensures Decode(kind, BytesOf(w) + rest) == Ok(Meaning(w), rest)
    decreases w
  {
    hide Decode, BytesOf, ItemBytes, MemberBytes, DecodeItems, DecodeFields, Meanings, Fields;
    if w.WStrict? {
      ReadsItems(kind, w.items, [], rest);
      StrictHead(kind, w.items, rest);
      assert [] + Meanings(w.items) == Meanings(w.items);
    } else if w.WObject? || w.WEcma? || w.WTyped? {
      ReadsMembers(kind, w.members, map[], rest);
      assert map[] + Fields(w.members) == Fields(w.members);
      if w.WTyped? { TypedHead(kind, w, rest); } else { ObjectHead(kind, w, rest); }
    } else if w.WShort? || w.WLong? || w.WXml? {
      ReadsText(kind, w, rest);
    } else {
      ReadsLeaf(kind, w, rest);
    }
  }

  lemma StrictHead(kind: Kind, ws: seq<Wire>, rest: seq<byte>)
    requires |ws| < 0x1_0000_0000
    ensures Decode(kind, BytesOf(WStrict(ws)) + rest) == AsArr(DecodeItems(kind, ItemBytes(ws) + rest, |ws|, []))
  {
    hide ItemBytes, BE, FromBE, DecodeItems, Length4;
    var s, h := BytesOf(WStrict(ws)) + rest, Length4(|ws|);
    Lengths(|ws|);
    assert s[1..] == h + ItemBytes(ws) + rest;
    assert s[1..][..4] == h && s[1..][4..] == ItemBytes(ws) + rest;
    Limits();
    BERoundTrip(|ws|, 4);
    SmallMod(|ws|, Pow256(4));
  }

  lemma ObjectHead(kind: Kind, w: Wire, rest: seq<byte>)
    requires w.WObject? || (w.WEcma? && |w.count| == 4)
    ensures Decode(kind, BytesOf(w) + rest) == AsObj(DecodeFields(kind, MemberBytes(w.members) + rest, map[]))
  {
    hide MemberBytes, DecodeFields;
    var s := BytesOf(w) + rest;
    if w.WObject? {
      assert s[1..] == MemberBytes(w.members) + rest;
    } else {
      assert s[1..][4..] == MemberBytes(w.members) + rest;
    }
  }

  lemma TypedHead(kind: Kind, w: Wire, rest: seq<byte>)
    requires w.WTyped? && |w.name| < 0x1_0000
    ensures Decode(kind, BytesOf(w) + rest)
            == match DecodeFields(kind, MemberBytes(w.members) + rest, map[])
               case Fail => Fail
               case Ok(m, end) => Ok(Typed(w.name, m), end)
  {
    hide MemberBytes, DecodeFields, BE, FromBE, Take, TakeText, Length2;
    var more := MemberBytes(w.members);
    Limits();
    Lengths(|w.name|);
    AfterMarker(0x10, Length2(|w.name|) + w.name + more, rest);
    Assoc(Length2(|w.name|) + w.name, more, rest);
    TakeTextOf(kind, w.name, 2, more + rest);
  }

  lemma {:induction false} ReadsItems(kind: Kind, ws: seq<Wire>, acc: seq<Value>, rest: seq<byte>)
    requires forall i | 0 <= i < |ws| :: Proper(ws[i])
    requires ws != [] ==> Gets(kind, ws[|ws| - 1], rest)
    ensures DecodeItems(kind, ItemBytes(ws) + rest, |ws|, acc) == Ok(acc + Meanings(ws), rest)
    decreases ws
  {
    hide Decode, BytesOf, Proper;
    if ws == [] {
      assert [] + rest == rest;
      assert acc + [] == acc;
    } else {
      Reads(kind, ws[0], ItemBytes(ws[1..]) + rest);
      Assoc(BytesOf(ws[0]), ItemBytes(ws[1..]), rest);
      ReadsItems(kind, ws[1..], acc + [Meaning(ws[0])], rest);
      Assoc(acc, [Meaning(ws[0])], Meanings(ws[1..]));
    }
  }

  lemma {:induction false} ReadsMembers(kind: Kind, ms: seq<Member>, acc: map<Text, Value>, rest: seq<byte>)
    requires ProperMembers(ms)
    ensures DecodeFields(kind, MemberBytes(ms) + rest, acc) == Ok(acc + Fields(ms), rest)
    decreases ms
  {
    if ms == [] {
      EndOfMembers(kind, acc, rest);
      assert acc + map[] == acc;
    } else {
      Reads(kind, ms[0].value, MemberBytes(ms[1..]) + rest);
      ReadsMembers(kind, ms[1..], acc[ms[0].key := Meaning(ms[0].value)], rest);
      MemberHead(kind, ms, acc, rest);
      Merge(acc, ms[0].key, Meaning(ms[0].value), Fields(ms[1..]));
    }
  }

  lemma Merge(acc: map<Text, Value>, k: Text, v: Value, more: map<Text, Value>)
    ensures acc[k := v] + more == acc + (map[k := v] + more)
  {
  }

  lemma EndOfMembers(kind: Kind, acc: map<Text, Value>, rest: seq<byte>)
    ensures DecodeFields(kind, [0x00, 0x00, 0x09] + rest, acc) == Ok(acc, rest)
  {
    hide BE, FromBE, Take;
    Limits();
    Lengths(0);
    var s := [0x00, 0x00, 0x09] + rest;
    assert s == BE(0, 2) + [] + ([OBJECT_END] + rest);
    TakeTextOf(kind, [], 2, [OBJECT_END] + rest);
    assert ([OBJECT_END] + rest)[1..] == rest;
  }

  lemma MemberHead(kind: Kind, ms: seq<Member>, acc: map<Text, Value>, rest: seq<byte>)
    requires ms != [] && 1 <= |ms[0].key| < 0x1_0000
    requires Decode(kind, BytesOf(ms[0].value) + (MemberBytes(ms[1..]) + rest))
             == Ok(Meaning(ms[0].value), MemberBytes(ms[1..]) + rest)
    ensures DecodeFields(kind, MemberBytes(ms) + rest, acc)
            == DecodeFields(kind, MemberBytes(ms[1..]) + rest, acc[ms[0].key := Meaning(ms[0].value)])
  {
    Limits();
    var k, v, more := ms[0].key, BytesOf(ms[0].value), MemberBytes(ms[1..]);
    assert MemberBytes(ms) == Length2(|k|) + k + (v + more);
    hide BE, FromBE, Take, TakeText, Decode, BytesOf, MemberBytes, Length2;
    Lengths(|k|);
    Assoc(Length2(|k|) + k, v + more, rest);
    Assoc(v, more, rest);
    TakeTextOf(kind, k, 2, v + (more + rest));
  }

  // ---- Nothing else is read ----------------------------------------------

  lemma TextTaken(kind: Kind, s: seq<byte>, w: nat)
    requires TakeText(kind, s, w).Ok?
    ensures var r := TakeText(kind, s, w);
            && s == BE(|r.value|, w) + r.value + r.rest && |r.value| < Pow256(w)
            && (kind.BytesBuffer? || r.value != [] || r.rest != [])
  {
    hide BE, FromBE;
    BEOf(s[..w]);
    FromBEBound(s[..w]);
  }

  /** These bytes are a proper form, one the reader can read. */
  ghost predicate IsForm(kind: Kind, s: seq<byte>, w: Wire, v: Value, rest: seq<byte>) {
    Proper(w) && Gets(kind, w, rest) && s == BytesOf(w) + rest && Meaning(w) == v
  }

  /** Whatever is decoded, the bytes consumed are a proper form of it. */
  lemma {:induction false} FormOf(kind: Kind, s: seq<byte>) returns (w: Wire)
    requires Decode(kind, s).Ok?
    ensures IsForm(kind, s, w, Decode(kind, s).value, Decode(kind, s).rest)
    decreases |s|, 0
  {
    hide IsForm, Decode, TakeText;
    Known(kind, s);
    if s[0] == 0x0a {
      w := StrictForm(kind, s);
    } else if s[0] == 0x10 {
      w := TypedForm(kind, s);
    } else if s[0] in [0x03, 0x08] {
      w := ObjectForm(kind, s);
    } else if s[0] in [0x02, 0x0c, 0x0f] {
      w := TextForm(kind, s);
    } else {
      w := LeafForm(kind, s);
    }
  }

  lemma Known(kind: Kind, s: seq<byte>)
    requires Decode(kind, s).Ok?
    ensures s != [] && s[0] in [0x00, 0x01, 0x02, 0x03, 0x05, 0x06, 0x08, 0x0a, 0x0b, 0x0c, 0x0d, 0x0f, 0x10]
  {
  }

  lemma LeafForm(kind: Kind, s: seq<byte>) returns (w: Wire)
    requires Decode(kind, s).Ok? && s[0] in [0x00, 0x01, 0x05, 0x06, 0x0b, 0x0d]
    ensures IsForm(kind, s, w, Decode(kind, s).value, Decode(kind, s).rest)
  {
    hide MemberBytes, ItemBytes, Fields, Meanings, DecodeFields, DecodeItems, TakeText, DecodeTyped;
    if s[0] in [0x00, 0x0b] {
      w := NumberForm(kind, s);
    } else if s[0] == 0x01 {
      w := WBool(s[1..][0] == 1);
      assert s == [s[0]] + ([s[1..][0]] + s[1..][1..]);
    } else {
      w := if s[0] == 0x05 then WNull else if s[0] == 0x06 then WUndefined else WUnsupported;
      assert s == [s[0]] + s[1..];
    }
  }

  lemma NumberForm(kind: Kind, s: seq<byte>) returns (w: Wire)
    requires Decode(kind, s).Ok? && s[0] in [0x00, 0x0b]
    ensures IsForm(kind, s, w, Decode(kind, s).value, Decode(kind, s).rest)
  {
    hide MemberBytes, ItemBytes, Fields, Meanings, DecodeFields, DecodeItems, TakeText, DecodeTyped;
    var t := s[1..];
    assert s == [s[0]] + t;
    if s[0] == 0x00 {
      w := WNumber(t[..8]);
      assert t == t[..8] + t[8..];
    } else {
      w := WDate(t[..8], t[8..10]);
      assert t == t[..8] + t[8..10] + t[10..];
    }
  }

  lemma TextForm(kind: Kind, s: seq<byte>) returns (w: Wire)
    requires Decode(kind, s).Ok? && s[0] in [0x02, 0x0c, 0x0f]
    ensures IsForm(kind, s, w, Decode(kind, s).value, Decode(kind, s).rest)
  {
    hide BE, FromBE, TakeText, Length2, Length4;
    var t := s[1..];
    var r := TakeText(kind, t, if s[0] == 0x02 then 2 else 4);
    TextTaken(kind, t, if s[0] == 0x02 then 2 else 4);
    Limits();
    Lengths(|r.value|);
    w := if s[0] == 0x02 then WShort(r.value) else if s[0] == 0x0c then WLong(r.value) else WXml(r.value);
    assert s == [s[0]] + t;
  }

  lemma ObjectForm(kind: Kind, s: seq<byte>) returns (w: Wire)
    requires Decode(kind, s).Ok? && s[0] in [0x03, 0x08]
    ensures IsForm(kind, s, w, Decode(kind, s).value, Decode(kind, s).rest)
    decreases |s| - 1, 3
  {
    hide Decode, DecodeFields, MemberBytes, Fields, Meanings, ItemBytes, IsForm;
    var n := if s[0] == 0x03 then 1 else 5;
    ObjectBody(kind, s);
    var ms := MembersOf(kind, s[n..], map[]);
    assert map[] + Fields(ms) == Fields(ms);
    w := if n == 1 then WObject(ms) else WEcma(s[1..5], ms);
    ObjectIs(kind, s, ms, Decode(kind, s).rest);
  }

  lemma ObjectIs(kind: Kind, s: seq<byte>, ms: seq<Member>, rest: seq<byte>)
    requires s != [] && s[0] in [0x03, 0x08] && ProperMembers(ms) && (s[0] == 0x08 ==> |s| >= 5)
    requires s[if s[0] == 0x03 then 1 else 5..] == MemberBytes(ms) + rest
    ensures IsForm(kind, s, if s[0] == 0x03 then WObject(ms) else WEcma(s[1..5], ms), Obj(Fields(ms)), rest)
  {
    hide MemberBytes, Fields;
    if s[0] == 0x03 {
      assert s == [s[0]] + s[1..];
    } else {
      assert s == [s[0]] + (s[1..5] + s[5..]);
    }
  }

  lemma ObjectBody(kind: Kind, s: seq<byte>)
    requires Decode(kind, s).Ok? && s[0] in [0x03, 0x08]
    ensures var n := if s[0] == 0x03 then 1 else 5;
            n <= |s| && Decode(kind, s) == AsObj(DecodeFields(kind, s[n..], map[]))
  {
    hide DecodeFields;
    if s[0] == 0x08 {
      assert s[1..][4..] == s[5..];
    }
  }

  lemma StrictForm(kind: Kind, s: seq<byte>) returns (w: Wire)
    requires Decode(kind, s).Ok? && s[0] == 0x0a
    ensures IsForm(kind, s, w, Decode(kind, s).value, Decode(kind, s).rest)
    decreases |s| - 1, 3
  {
    hide BE, FromBE, Length4, DecodeItems, ItemBytes, Meanings;
    var t := s[1..];
    var n := FromBE(t[..4]);
    var ws := ItemsOf(kind, t[4..], n, []);
    w := WStrict(ws);
    BEOf(t[..4]);
    FromBEBound(t[..4]);
    Limits();
    Lengths(n);
    assert s == [s[0]] + (t[..4] + t[4..]);
    assert [] + Meanings(ws) == Meanings(ws);
  }

  lemma TypedForm(kind: Kind, s: seq<byte>) returns (w: Wire)
    requires Decode(kind, s).Ok? && s[0] == 0x10
    ensures IsForm(kind, s, w, Decode(kind, s).value, Decode(kind, s).rest)
    decreases |s| - 1, 3
  {
    hide BE, FromBE, TakeText, Length2, DecodeFields, MemberBytes, Fields;
    var t := s[1..];
    var r := TakeText(kind, t, 2);
    TextTaken(kind, t, 2);
    Limits();
    Lengths(|r.value|);
    var ms := MembersOf(kind, r.rest, map[]);
    w := WTyped(r.value, ms);
    assert s == [s[0]] + t;
    assert map[] + Fields(ms) == Fields(ms);
    Assoc(Length2(|r.value|) + r.value, MemberBytes(ms), Decode(kind, s).rest);
  }

  lemma {:induction false} ItemsOf(kind: Kind, s: seq<byte>, n: nat, acc: seq<Value>) returns (ws: seq<Wire>)
    requires DecodeItems(kind, s, n, acc).Ok?
    ensures var r := DecodeItems(kind, s, n, acc);
            && |ws| == n && (forall i | 0 <= i < |ws| :: Proper(ws[i])) && (ws != [] ==> Gets(kind, ws[|ws| - 1], r.rest))
            && s == ItemBytes(ws) + r.rest && r.value == acc + Meanings(ws)
    decreases |s|, 1, n
  {
    hide Decode, BytesOf, Proper, Meaning;
    if n == 0 {
      ws := [];
      assert s == [] + s && acc + [] == acc;
    } else {
      var w := FormOf(kind, s);
      var t := Decode(kind, s).rest;
      var more := ItemsOf(kind, t, n - 1, acc + [Meaning(w)]);
      ws := [w] + more;
      assert ws[1..] == more;
      Assoc(BytesOf(w), ItemBytes(more), DecodeItems(kind, s, n, acc).rest);
      Assoc(acc, [Meaning(w)], Meanings(more));
    }
  }

  lemma {:induction false} MembersOf(kind: Kind, s: seq<byte>, acc: map<Text, Value>) returns (ms: seq<Member>)
    requires DecodeFields(kind, s, acc).Ok?
    ensures var r := DecodeFields(kind, s, acc);
            ProperMembers(ms) && s == MemberBytes(ms) + r.rest && r.value == acc + Fields(ms)
    decreases |s|, 1
  {
    hide Decode, BytesOf, Proper, Meaning, BE, FromBE, TakeText, Length2;
    TextTaken(kind, s, 2);
    Limits();
    var k, t := TakeText(kind, s, 2).value, TakeText(kind, s, 2).rest;
    Lengths(|k|);
    var r := DecodeFields(kind, s, acc);
    if k == [] {
      ms := [];
      NoMembers(s, t);
      assert acc + map[] == acc;
    } else {
      var w := FormOf(kind, t);
      var u := Decode(kind, t).rest;
      var more := MembersOf(kind, u, acc[k := Meaning(w)]);
      ms := [Member(k, w)] + more;
      assert ms[1..] == more;
      Merge(acc, k, Meaning(w), Fields(more));
      Assoc(BytesOf(w), MemberBytes(more), r.rest);
      Assoc(Length2(|k|) + k, BytesOf(w) + MemberBytes(more), r.rest);
    }
  }

  lemma NoMembers(s: seq<byte>, t: seq<byte>)
    requires s == Length2(0) + [] + t && t != [] && t[0] == 0x09
    ensures s == MemberBytes([]) + t[1..]
  {
  }

  /**
   The decoder is exact: it returns a value and leaves a rest if and only if the
   bytes before that rest are a proper form of the value. Anything else, a marker
   that is not in the format, a truth value of neither 0 nor 1, an object that is
   not ended, or bytes that end too early, is an error.
   */
  lemma DecodeExact(kind: Kind, s: seq<byte>, v: Value, rest: seq<byte>)
    ensures Decode(kind, s) == Ok(v, rest) <==> exists w: Wire :: IsForm(kind, s, w, v, rest)
  {
    hide Decode, Proper, Gets, BytesOf, Meaning;
    if Decode(kind, s) == Ok(v, rest) {
      var w := FormOf(kind, s);
    }
    if exists w: Wire :: IsForm(kind, s, w, v, rest) {
      var w: Wire :| IsForm(kind, s, w, v, rest);
      Reads(kind, w, rest);
    }
  }

  // ---- Decoding what was encoded -----------------------------------------

  /** The form the encoder writes: the short string if the text fits. */
  function WireOf(t: Tree): Wire {
    match t
    case TNull => WNull
    case TBool(b) => WBool(b)
    case TNumber(bits) => WNumber(bits)
    case TStr(text) => if |text| <= 65535 then WShort(text) else WLong(text)
    case TArr(ts) => WStrict(WiresOf(ts))
    case TObj(fs) => WObject(MembersFor(fs))
  }

  function WiresOf(ts: seq<Tree>): (r: seq<Wire>)
    ensures |r| == |ts|
  {
    if ts == [] then [] else [WireOf(ts[0])] + WiresOf(ts[1..])
  }

  function MembersFor(fs: seq<Field>): (r: seq<Member>)
    ensures |r| == |fs|
  {
    if fs == [] then [] else [Member(fs[0].key, WireOf(fs[0].value))] + MembersFor(fs[1..])
  }

  /** What the encoder writes for a tree that fits is a proper form of its value. */
  lemma {:induction false} Writes(t: Tree)
    requires Representable(t)
    ensures Proper(WireOf(t)) && Encode(t) == BytesOf(WireOf(t)) && Meaning(WireOf(t)) == Strip(t)
    ensures t.TStr? ==> (WireOf(t).WShort? <==> |t.text| <= 65535)
    ensures Open(WireOf(t)) == EndsEmpty(t)
  {
    hide BE, Length2, Length4, EncodeItems, EncodeFields, ItemBytes, MemberBytes, StripAll, StripFields, Meanings, Fields,
         WiresOf, MembersFor;
    if t.TStr? {
      Lengths(|t.text|);
    } else if t.TArr? {
      Lengths(|t.items|);
      WritesItems(t.items);
    } else if t.TObj? {
      WritesFields(t.fields, map[]);
      assert map[] + Fields(MembersFor(t.fields)) == Fields(MembersFor(t.fields));
    }
  }

  lemma {:induction false} WritesItems(ts: seq<Tree>)
    requires forall i | 0 <= i < |ts| :: Representable(ts[i])
    ensures var ws := WiresOf(ts);
            && (forall i | 0 <= i < |ws| :: Proper(ws[i])) && EncodeItems(ts) == ItemBytes(ws) && Meanings(ws) == StripAll(ts)
            && (ts != [] ==> Open(ws[|ws| - 1]) == EndsEmpty(ts[|ts| - 1]))
  {
    hide Encode, BytesOf, Proper, Meaning, Strip, Open, EndsEmpty, WireOf, Representable;
    if ts != [] {
      Writes(ts[0]);
      WritesItems(ts[1..]);
      assert WiresOf(ts)[1..] == WiresOf(ts[1..]);
    }
  }

  lemma {:induction false} WritesFields(fs: seq<Field>, acc: map<Text, Value>)
    requires forall i | 0 <= i < |fs| :: 1 <= |fs[i].key| <= STRING_MAX && Representable(fs[i].value)
    ensures var ms := MembersFor(fs);
            ProperMembers(ms) && EncodeFields(fs) == MemberBytes(ms) && StripFields(fs, acc) == acc + Fields(ms)
  {
    hide Encode, BytesOf, Proper, Meaning, Strip, WireOf, Representable, BE;
    if fs == [] {
      Lengths(0);
      assert acc + map[] == acc;
    } else {
      var f, ms := fs[0], MembersFor(fs[1..]);
      Writes(f.value);
      Lengths(|f.key|);
      WritesFields(fs[1..], acc[f.key := Strip(f.value)]);
      Merge(acc, f.key, Strip(f.value), Fields(ms));
      assert MembersFor(fs)[1..] == ms;
    }
  }

  /** For every tree that fits, whatever follows it. */
  lemma RoundTrip(kind: Kind, t: Tree, rest: seq<byte>)
    requires Representable(t) && Reachable(kind, t, rest)
    ensures Decode(kind, Encode(t) + rest) == Ok(Strip(t), rest)
  {
    hide Encode, Decode, Representable, Strip, WireOf, Proper, Open, EndsEmpty;
    Writes(t);
    Reads(kind, WireOf(t), rest);
  }

  // ---- Nothing else comes back -------------------------------------------

  lemma TextBound(kind: Kind, s: seq<byte>, w: nat)
    ensures TakeText(kind, s, w).Ok? ==> |TakeText(kind, s, w).value| < Pow256(w)
  {
    if w <= |s| {
      FromBEBound(s[..w]);
    }
  }

  /** Whatever the bytes, a decoded value is within the limits of the length fields. */
  lemma {:induction false} DecodedBounded(kind: Kind, s: seq<byte>)
    ensures Decode(kind, s).Ok? ==> Bounded(Decode(kind, s).value)
    decreases |s|, 0
  {
    hide TakeText;
    Limits();
    if s != [] {
      var t := s[1..];
      TextBound(kind, t, 2);
      TextBound(kind, t, 4);
      match s[0]
      case 0x03 => DecodedFieldsBounded(kind, t, map[]);
      case 0x08 => if |t| >= 4 { DecodedFieldsBounded(kind, t[4..], map[]); }
      case 0x0a =>
        if |t| >= 4 {
          FromBEBound(t[..4]);
          DecodedItemsBounded(kind, t[4..], FromBE(t[..4]), []);
        }
      case 0x10 =>
        if TakeText(kind, t, 2).Ok? { DecodedFieldsBounded(kind, TakeText(kind, t, 2).rest, map[]); }
      case _ =>
    }
  }

  lemma {:induction false} DecodedItemsBounded(kind: Kind, s: seq<byte>, n: nat, acc: seq<Value>)
    requires forall i | 0 <= i < |acc| :: Bounded(acc[i])
    ensures var r := DecodeItems(kind, s, n, acc);
            r.Ok? ==> |r.value| == |acc| + n && forall i | 0 <= i < |r.value| :: Bounded(r.value[i])
    decreases |s|, 1, n
  {
    hide Decode, Bounded;
    if n > 0 && Decode(kind, s).Ok? {
      DecodedBounded(kind, s);
      DecodedItemsBounded(kind, Decode(kind, s).rest, n - 1, acc + [Decode(kind, s).value]);
    }
  }

  lemma {:induction false} DecodedFieldsBounded(kind: Kind, s: seq<byte>, acc: map<Text, Value>)
    requires BoundedFields(acc)
    ensures var r := DecodeFields(kind, s, acc); r.Ok? ==> BoundedFields(r.value)
    decreases |s|, 1
  {
    hide Decode, Bounded, TakeText;
    Limits();
    TextBound(kind, s, 2);
    if TakeText(kind, s, 2).Ok? && TakeText(kind, s, 2).value != [] {
      var k, t := TakeText(kind, s, 2).value, TakeText(kind, s, 2).rest;
      if Decode(kind, t).Ok? {
        DecodedBounded(kind, t);
        DecodedFieldsBounded(kind, Decode(kind, t).rest, acc[k := Decode(kind, t).value]);
      }
    }
  }

  lemma {:induction false} StripAllAt(ts: seq<Tree>, i: nat)
    requires i < |ts|
    ensures StripAll(ts)[i] == Strip(ts[i])
  {
    if i > 0 {
      StripAllAt(ts[1..], i - 1);
    }
  }

  /** With distinct keys nothing is replaced. */
  lemma {:induction false} StripFieldsAt(fs: seq<Field>, acc: map<Text, Value>)
    requires forall i, j | 0 <= i < j < |fs| :: fs[i].key != fs[j].key
    requires forall i | 0 <= i < |fs| :: fs[i].key !in acc
    ensures forall i | 0 <= i < |fs| :: fs[i].key in StripFields(fs, acc) && StripFields(fs, acc)[fs[i].key] == Strip(fs[i].value)
    ensures forall k <- acc :: k in StripFields(fs, acc) && StripFields(fs, acc)[k] == acc[k]
  {
    if fs != [] {
      hide Strip;
      StripFieldsAt(fs[1..], acc[fs[0].key := Strip(fs[0].value)]);
      forall i | 0 <= i < |fs|
        ensures fs[i].key in StripFields(fs, acc) && StripFields(fs, acc)[fs[i].key] == Strip(fs[i].value)
      {
        if i > 0 { assert fs[i] == fs[1..][i - 1]; }
      }
    }
  }

  lemma {:induction false} BoundedFits(t: Tree)
    requires Distinct(t) && Bounded(Strip(t))
    ensures Representable(t)
  {
    match t
    case TArr(ts) =>
      forall i | 0 <= i < |ts|
        ensures Representable(ts[i])
      {
        StripAllAt(ts, i);
        BoundedFits(ts[i]);
      }
    case TObj(fs) =>
      StripFieldsAt(fs, map[]);
      forall i | 0 <= i < |fs|
        ensures 1 <= |fs[i].key| <= STRING_MAX && Representable(fs[i].value)
      {
        BoundedFits(fs[i].value);
      }
    case _ =>
  }

  lemma ArrayHead(kind: Kind, ts: seq<Tree>, rest: seq<byte>)
    requires |ts| < LENGTH_LIMIT
    ensures Decode(kind, Encode(TArr(ts)) + rest) == AsArr(DecodeItems(kind, EncodeItems(ts) + rest, |ts|, []))
  {
    hide EncodeItems, BE, FromBE, DecodeItems;
    var s, h := Encode(TArr(ts)) + rest, BE(|ts|, 4);
    assert s[1..] == h + EncodeItems(ts) + rest;
    assert s[1..][..4] == h && s[1..][4..] == EncodeItems(ts) + rest;
    Limits();
    BERoundTrip(|ts|, 4);
    SmallMod(|ts|, Pow256(4));
  }

  /** A reader that refuses empty reads never gets to an empty string at its end. */
  lemma {:induction false} EmptyLost(t: Tree)
    requires Representable(t) && EndsEmpty(t)
    ensures Decode(BytesReader, Encode(t)).Fail?
    decreases t
  {
    match t
    case TStr(text) => EmptyStringLost();
    case TArr(ts) =>
      EmptyItemLost(ts, []);
      ArrayHead(BytesReader, ts, []);
      NothingMore(Encode(t), EncodeItems(ts));
  }

  lemma EmptyStringLost()
    ensures Decode(BytesReader, EncodeStr([])).Fail?
  {
    hide BE, FromBE;
    Limits();
    var h := BE(0, 2);
    assert EncodeStr([])[1..] == h && h[..2] == h && h[2..] == [];
    BERoundTrip(0, 2);
    SmallMod(0, Pow256(2));
  }

  lemma {:induction false} EmptyItemLost(ts: seq<Tree>, acc: seq<Value>)
    requires ts != [] && EndsEmpty(ts[|ts| - 1]) && forall i | 0 <= i < |ts| :: Representable(ts[i])
    ensures DecodeItems(BytesReader, EncodeItems(ts), |ts|, acc).Fail?
    decreases ts
  {
    hide Decode, Encode, Representable, EndsEmpty;
    if |ts| == 1 {
      EmptyLost(ts[0]);
      assert ts[1..] == [];
      NothingMore<byte, byte>(Encode(ts[0]), []);
    } else {
      assert EncodeItems(ts[1..]) == Encode(ts[1]) + EncodeItems(ts[1..][1..]);
      RoundTrip(BytesReader, ts[0], EncodeItems(ts[1..]));
      EmptyItemLost(ts[1..], acc + [Strip(ts[0])]);
    }
  }

  /**
   For every value tree and every order of the keys of its objects, decoding what
   was encoded gives the value back and leaves what follows, exactly if strings
   and arrays are shorter than 2^32 and keys have 1 to 65535 bytes; and, for a
   reader that refuses empty reads at its end, if no empty string ends there.
   */
  lemma RoundTripExact(kind: Kind, t: Tree, rest: seq<byte>)
    requires Distinct(t)
    ensures Decode(kind, Encode(t) + rest) == Ok(Strip(t), rest) <==> Representable(t) && Reachable(kind, t, rest)
  {
    if Representable(t) && Reachable(kind, t, rest) {
      RoundTrip(kind, t, rest);
    }
    if Decode(kind, Encode(t) + rest) == Ok(Strip(t), rest) {
      DecodedBounded(kind, Encode(t) + rest);
      BoundedFits(t);
      if !Reachable(kind, t, rest) {
        EmptyLost(t);
        NothingMore(Encode(t), rest);
      }
    }
  }

  // ---- Batches -----------------------------------------------------------

  /** `DecodeBatch`: the values up to the first error, and the bytes it stopped at. */
  function DecodeBatch(kind: Kind, s: seq<byte>, acc: seq<Value>): (seq<Value>, seq<byte>)
    decreases |s|
  {
    match Decode(kind, s)
    case Fail => (acc, s)
    case Ok(v, t) => DecodeBatch(kind, t, acc + [v])
  }

  /** The batch is read up to its last value, and that one too if it can be. */
  lemma {:induction false} BatchFrom(kind: Kind, ts: seq<Tree>, acc: seq<Value>)
    requires forall i | 0 <= i < |ts| :: Representable(ts[i])
    ensures DecodeBatch(kind, EncodeItems(ts), acc)
            == if ts == [] || Reachable(kind, ts[|ts| - 1], []) then (acc + StripAll(ts), [])
               else (acc + StripAll(ts)[..|ts| - 1], Encode(ts[|ts| - 1]))
    decreases ts
  {
    hide Encode, Representable, Strip, EndsEmpty;
    if ts == [] {
      assert acc + [] == acc;
      assert Decode(kind, []).Fail?;
    } else if |ts| == 1 && !Reachable(kind, ts[0], []) {
      EmptyLost(ts[0]);
      assert ts[1..] == [];
      NothingMore<byte, byte>(Encode(ts[0]), []);
      assert acc + StripAll(ts)[..0] == acc;
    } else {
      if |ts| > 1 {
        assert EncodeItems(ts[1..]) == Encode(ts[1]) + EncodeItems(ts[1..][1..]);
      }
      RoundTrip(kind, ts[0], EncodeItems(ts[1..]));
      BatchFrom(kind, ts[1..], acc + [Strip(ts[0])]);
      Assoc(acc, [Strip(ts[0])], StripAll(ts[1..]));
      if |ts| > 1 {
        Assoc(acc, [Strip(ts[0])], StripAll(ts[1..])[..|ts| - 2]);
        assert [Strip(ts[0])] + StripAll(ts[1..])[..|ts| - 2] == StripAll(ts)[..|ts| - 1];
      }
    }
  }

  /**
   Decoding a batch gives back every value of the batch and stops at the end of
   the bytes, exactly unless the reader refuses empty reads there and the last
   value ends in an empty string; that value is then lost.
   */
  lemma BatchExact(kind: Kind, ts: seq<Tree>)
    requires forall i | 0 <= i < |ts| :: Representable(ts[i])
    ensures var whole := ts == [] || Reachable(kind, ts[|ts| - 1], []);
            && (DecodeBatch(kind, EncodeItems(ts), []) == (StripAll(ts), []) <==> whole)
            && (!whole ==> DecodeBatch(kind, EncodeItems(ts), []).0 == StripAll(ts)[..|ts| - 1])
  {
    BatchFrom(kind, ts, []);
    assert [] + StripAll(ts) == StripAll(ts);
  }
}
