/**
 AMF3 on values: variable-length integers, and the trees the encoder's router
 produces without references; objects are written in the order of their keys.
 */
module Amf3Spec {
  import opened Bytes
  import opened AmfReaders

  const NULL := 0x01
  const FALSE := 0x02
  const TRUE := 0x03
  const INTEGER := 0x04
  const DOUBLE := 0x05
  const STRING := 0x06
  const ARRAY := 0x09
  const OBJECT := 0x0a

  const U29_MAX := 0x1fff_ffff
  const UINT32 := 0x1_0000_0000
  /** The first integer that is read back as a negative one. */
  const SIGN := 0x1000_0000
  const LENGTH_LIMIT := 0x1000_0000
  const FIELDS_LIMIT := 0x200_0000

  // ---- Integers of 29 bits -----------------------------------------------

  /** One to four bytes; nothing for a value out of range, which is an error. */
  function U29(v: nat): (s: seq<byte>)
    ensures v <= U29_MAX ==> 1 <= |s| <= 4
  {
    if v <= 0x7f then [v]
    else if v <= 0x3fff then [v / 0x80 + 128, v % 0x80]
    else if v <= 0x1f_ffff then [v / 0x4000 + 128, v / 0x80 % 0x80 + 128, v % 0x80]
    else if v <= U29_MAX then [v / 0x40_0000 + 128, v / 0x8000 % 0x80 + 128, v / 0x100 % 0x80 + 128, v % 0x100]
    else []
  }

  /** Seven bits a byte while the top bit is set, and eight bits of a fourth byte. */
  function U29From(s: seq<byte>, i: nat, acc: nat): (r: Result<nat>)
    requires i <= 3
    ensures r.Ok? ==> |r.rest| < |s|
    decreases 3 - i
  {
    if s == [] then Fail
    else if i == 3 then Ok(acc * 256 + s[0], s[1..])
    else
      var acc' := acc * 128 + s[0] % 128;
      if s[0] < 128 then Ok(acc', s[1..]) else U29From(s[1..], i + 1, acc')
  }

  function ReadU29(s: seq<byte>): (r: Result<nat>)
    ensures r.Ok? ==> |r.rest| < |s|
  {
    U29From(s, 0, 0)
  }

  lemma {:induction false} U29FromBound(s: seq<byte>, i: nat, acc: nat)
    requires i <= 3
    requires acc <= (match i case 0 => 0 case 1 => 0x7f case 2 => 0x3fff case _ => 0x1f_ffff)
    ensures U29From(s, i, acc).Ok? ==> U29From(s, i, acc).value <= U29_MAX
    decreases 3 - i
  {
    if s != [] && i < 3 && s[0] >= 128 {
      U29FromBound(s[1..], i + 1, acc * 128 + s[0] % 128);
    }
  }

  lemma Digits(v: nat)
    ensures v / 0x80 == v / 0x4000 * 128 + v / 0x80 % 0x80
    ensures v == v / 0x80 * 128 + v % 0x80
    ensures v / 0x8000 == v / 0x40_0000 * 128 + v / 0x8000 % 0x80
    ensures v / 0x100 == v / 0x8000 * 128 + v / 0x100 % 0x80
    ensures v == v / 0x100 * 256 + v % 0x100
  {
    DivDiv(v, 0x80, 128);
    DivDiv(v, 0x8000, 128);
    DivDiv(v, 0x100, 128);
  }

  lemma Sevens(b: byte, t: seq<byte>, i: nat, acc: nat)
    requires i < 3 && b < 128
    ensures U29From([b + 128] + t, i, acc) == U29From(t, i + 1, acc * 128 + b)
    ensures U29From([b] + t, i, acc) == Ok(acc * 128 + b, t)
  {
    assert ([b + 128] + t)[1..] == t && ([b] + t)[1..] == t;
  }

  lemma Eight(b: byte, t: seq<byte>, acc: nat)
    ensures U29From([b] + t, 3, acc) == Ok(acc * 256 + b, t)
  {
    assert ([b] + t)[1..] == t;
  }

  /** One to four bytes, all but the last with the top bit set; a fourth byte is all value. */
  predicate IsU29(d: seq<byte>) {
    1 <= |d| <= 4 && (forall i | 0 <= i < |d| - 1 :: d[i] >= 0x80) && (|d| < 4 ==> d[|d| - 1] < 0x80)
  }

  /** The value of such bytes, digit by digit. */
  function NumOf(d: seq<byte>): nat
    requires IsU29(d)
  {
    match |d|
    case 1 => d[0]
    case 2 => (d[0] as int - 128) * 0x80 + d[1]
    case 3 => (d[0] as int - 128) * 0x4000 + (d[1] as int - 128) * 0x80 + d[2]
    case _ => (d[0] as int - 128) * 0x40_0000 + (d[1] as int - 128) * 0x8000 + (d[2] as int - 128) * 0x100 + d[3]
  }

  lemma U29Reads(d: seq<byte>, rest: seq<byte>)
    requires IsU29(d)
    ensures ReadU29(d + rest) == Ok(NumOf(d), rest)
  {
    hide U29From;
    if |d| == 1 {
      assert d + rest == [d[0]] + rest;
      Sevens(d[0], rest, 0, 0);
    } else {
      var t := d[1..] + rest;
      assert d + rest == [d[0]] + t;
      Sevens(d[0] - 128, t, 0, 0);
      if |d| == 2 {
        assert t == [d[1]] + rest;
        Sevens(d[1], rest, 1, d[0] - 128);
      } else {
        var u, acc := d[2..] + rest, (d[0] as int - 128) * 128 + (d[1] - 128);
        assert t == [d[1]] + u;
        Sevens(d[1] - 128, u, 1, d[0] - 128);
        LastDigits(d, rest, acc);
      }
    }
  }

  lemma LastDigits(d: seq<byte>, rest: seq<byte>, acc: nat)
    requires IsU29(d) && |d| > 2
    ensures U29From(d[2..] + rest, 2, acc)
            == Ok(if |d| == 3 then acc * 128 + d[2] else (acc * 128 + (d[2] - 128)) * 256 + d[3], rest)
  {
    hide U29From;
    if |d| == 3 {
      assert d[2..] + rest == [d[2]] + rest;
      Sevens(d[2], rest, 2, acc);
    } else {
      assert d[2..] + rest == [d[2]] + ([d[3]] + rest);
      Sevens(d[2] - 128, [d[3]] + rest, 2, acc);
      Eight(d[3], rest, acc * 128 + (d[2] - 128));
    }
  }

  /** What is written for a value in range stands for it, in as few bytes as can. */
  lemma U29Form(v: nat)
    requires v <= U29_MAX
    ensures IsU29(U29(v)) && NumOf(U29(v)) == v
    ensures |U29(v)| == if v < 0x80 then 1 else if v < 0x4000 then 2 else if v < 0x20_0000 then 3 else 4
  {
    Digits(v);
  }

  lemma U29Taken(s: seq<byte>) returns (d: seq<byte>)
    requires ReadU29(s).Ok?
    ensures IsU29(d) && s == d + ReadU29(s).rest && ReadU29(s).value == NumOf(d)
  {
    var n := if s[0] < 128 then 1 else if s[1] < 128 then 2 else if s[2] < 128 then 3 else 4;
    d := s[..n];
    assert s == d + s[n..];
    U29Reads(d, s[n..]);
  }

  /** Every value in range is read back, from exactly the bytes it was written as. */
  lemma U29RoundTrip(v: nat, rest: seq<byte>)
    requires v <= U29_MAX
    ensures ReadU29(U29(v) + rest) == Ok(v, rest)
  {
    hide U29, ReadU29;
    U29Form(v);
    U29Reads(U29(v), rest);
  }

  // ---- Values ------------------------------------------------------------

  datatype Value =
    | Null | Bool(b: bool) | Int(i: int) | Number(bits: Double) | Str(text: Text)
    | Arr(items: seq<Value>) | Obj(fields: map<Text, Value>)

  /** A value with its keys in some order; integers as the encoder takes them, from 0 to 2^29 - 1. */
  datatype Tree =
    | TNull | TBool(b: bool) | TInt(i: nat) | TNumber(bits: Double) | TStr(text: Text)
    | TArr(items: seq<Tree>) | TObj(fields: seq<Field>)

  datatype Field = Field(key: Text, value: Tree)

  function Strip(t: Tree): Value {
    match t
    case TNull => Null
    case TBool(b) => Bool(b)
    case TInt(i) => Int(i)
    case TNumber(bits) => Number(bits)
    case TStr(text) => Str(text)
    case TArr(ts) => Arr(StripAll(ts))
    case TObj(fs) => Obj(StripFields(fs, map[]))
  }

  function StripAll(ts: seq<Tree>): (r: seq<Value>)
    ensures |r| == |ts|
  {
    if ts == [] then [] else [Strip(ts[0])] + StripAll(ts[1..])
  }

  function StripFields(fs: seq<Field>, acc: map<Text, Value>): map<Text, Value> {
    if fs == [] then acc else StripFields(fs[1..], acc[fs[0].key := Strip(fs[0].value)])
  }

  // ---- Key order ---------------------------------------------------------

  /** Go's order of strings, byte by byte. */
  predicate Less(a: Text, b: Text) {
    b != [] && (a == [] || a[0] < b[0] || (a[0] == b[0] && Less(a[1..], b[1..])))
  }

  lemma {:induction false} LessTotal(a: Text, b: Text)
    ensures Less(a, b) || a == b || Less(b, a)
    ensures !(Less(a, b) && Less(b, a)) && !Less(a, a)
  {
    if a != [] {
      if b != [] {
        LessTotal(a[1..], b[1..]);
        assert a == [a[0]] + a[1..] && b == [b[0]] + b[1..];
      }
      LessTotal(a[1..], a[1..]);
    }
  }

  lemma {:induction false} LessTransitive(a: Text, b: Text, c: Text)
    requires Less(a, b) && Less(b, c)
    ensures Less(a, c)
  {
    if a != [] && a[0] == b[0] == c[0] {
      LessTransitive(a[1..], b[1..], c[1..]);
    }
  }

  ghost predicate Ascending(fs: seq<Field>) {
    forall i, j | 0 <= i < j < |fs| :: Less(fs[i].key, fs[j].key)
  }

  /** Every object has its keys in ascending order, which makes them distinct. */
  ghost predicate Sorted(t: Tree) {
    match t
    case TArr(ts) => forall i | 0 <= i < |ts| :: Sorted(ts[i])
    case TObj(fs) => Ascending(fs) && forall i | 0 <= i < |fs| :: Sorted(fs[i].value)
    case _ => true
  }

  lemma {:induction false} StripAllAt(ts: seq<Tree>, i: nat)
    requires i < |ts|
    ensures StripAll(ts)[i] == Strip(ts[i])
  {
    if i > 0 {
      StripAllAt(ts[1..], i - 1);
    }
  }

  /** With distinct keys nothing is replaced, and nothing else is there. */
  lemma {:induction false} StripFieldsAt(fs: seq<Field>, acc: map<Text, Value>)
    requires forall i, j | 0 <= i < j < |fs| :: fs[i].key != fs[j].key
    requires forall i | 0 <= i < |fs| :: fs[i].key !in acc
    ensures forall i | 0 <= i < |fs| :: fs[i].key in StripFields(fs, acc) && StripFields(fs, acc)[fs[i].key] == Strip(fs[i].value)
    ensures forall k <- acc :: k in StripFields(fs, acc) && StripFields(fs, acc)[k] == acc[k]
    ensures forall k <- StripFields(fs, acc) :: k in acc || exists i :: 0 <= i < |fs| && fs[i].key == k
    ensures |StripFields(fs, acc)| == |acc| + |fs|
  {
    if fs != [] {
      hide Strip;
      StripFieldsAt(fs[1..], acc[fs[0].key := Strip(fs[0].value)]);
      forall i | 0 <= i < |fs|
        ensures fs[i].key in StripFields(fs, acc) && StripFields(fs, acc)[fs[i].key] == Strip(fs[i].value)
      {
        if i > 0 { assert fs[i] == fs[1..][i - 1]; }
      }
      forall k <- StripFields(fs, acc)
        ensures k in acc || exists i :: 0 <= i < |fs| && fs[i].key == k
      {
        if k != fs[0].key && k !in acc {
          var i :| 0 <= i < |fs[1..]| && fs[1..][i].key == k;
          assert fs[i + 1].key == k;
        }
      }
    }
  }

  lemma AscendingDistinct(fs: seq<Field>)
    requires Ascending(fs)
    ensures forall i, j | 0 <= i < j < |fs| :: fs[i].key != fs[j].key
  {
    forall i, j | 0 <= i < j < |fs|
      ensures fs[i].key != fs[j].key
    {
      LessTotal(fs[i].key, fs[j].key);
    }
  }

  /** Equal objects in ascending order have the same first key. */
  lemma SameFirst(fs: seq<Field>, gs: seq<Field>)
    requires Ascending(fs) && Ascending(gs) && fs != [] && gs != []
    requires StripFields(fs, map[]).Keys == StripFields(gs, map[]).Keys
    ensures fs[0].key == gs[0].key
  {
    hide Less, StripFields, Ascending;
    FirstLeast(fs, gs[0].key);
    FirstLeast(gs, fs[0].key);
    LessTotal(fs[0].key, gs[0].key);
  }

  lemma FirstLeast(fs: seq<Field>, k: Text)
    requires Ascending(fs) && fs != []
    ensures fs[0].key in StripFields(fs, map[])
    ensures k in StripFields(fs, map[]) ==> k == fs[0].key || Less(fs[0].key, k)
  {
    hide Less, Strip, StripFields;
    AscendingDistinct(fs);
    StripFieldsAt(fs, map[]);
    if k in StripFields(fs, map[]) {
      var j :| 0 <= j < |fs| && fs[j].key == k;
    }
  }

  /** `m` holds these fields and no others. */
  ghost predicate Holds(m: map<Text, Value>, fs: seq<Field>) {
    && (forall i | 0 <= i < |fs| :: fs[i].key in m && m[fs[i].key] == Strip(fs[i].value))
    && (forall k <- m :: exists i :: 0 <= i < |fs| && fs[i].key == k)
  }

  lemma HeldBy(fs: seq<Field>)
    requires Ascending(fs)
    ensures Holds(StripFields(fs, map[]), fs)
  {
    hide Less, Strip, StripFields;
    AscendingDistinct(fs);
    StripFieldsAt(fs, map[]);
  }

  lemma TailHolds(fs: seq<Field>, a: map<Text, Value>, b: map<Text, Value>)
    requires fs != [] && Holds(a, fs) && Holds(b, fs[1..])
    requires forall i | 0 < i < |fs| :: fs[i].key != fs[0].key
    ensures b == a - {fs[0].key}
  {
    hide Strip;
    var rest, r := fs[1..], a - {fs[0].key};
    forall k <- r
      ensures k in b && b[k] == r[k]
    {
      var i :| 0 <= i < |fs| && fs[i].key == k;
      assert rest[i - 1] == fs[i];
    }
    forall k <- b
      ensures k in r
    {
      var i :| 0 <= i < |rest| && rest[i].key == k;
      assert rest[i] == fs[i + 1];
    }
  }

  lemma TailFields(fs: seq<Field>)
    requires fs != [] && Ascending(fs)
    ensures Ascending(fs[1..])
    ensures StripFields(fs[1..], map[]) == StripFields(fs, map[]) - {fs[0].key}
    ensures fs[0].key in StripFields(fs, map[]) && StripFields(fs, map[])[fs[0].key] == Strip(fs[0].value)
  {
    hide Less, Strip, StripFields;
    assert forall i | 0 <= i < |fs[1..]| :: fs[1..][i] == fs[i + 1];
    HeldBy(fs);
    HeldBy(fs[1..]);
    AscendingDistinct(fs);
    TailHolds(fs, StripFields(fs, map[]), StripFields(fs[1..], map[]));
  }

  /** Equal values in key order are one tree, so equal maps are written as the same bytes. */
  lemma {:induction false} SortedUnique(t: Tree, u: Tree)
    requires Sorted(t) && Sorted(u) && Strip(t) == Strip(u)
    ensures t == u
    decreases t
  {
    match t
    case TArr(ts) =>
      forall i | 0 <= i < |ts|
        ensures ts[i] == u.items[i]
      {
        StripAllAt(ts, i);
        StripAllAt(u.items, i);
        SortedUnique(ts[i], u.items[i]);
      }
    case TObj(fs) => FieldsUnique(fs, u.fields);
    case _ =>
  }

  lemma {:induction false} FieldsUnique(fs: seq<Field>, gs: seq<Field>)
    requires Ascending(fs) && Ascending(gs) && StripFields(fs, map[]) == StripFields(gs, map[])
    requires forall i | 0 <= i < |fs| :: Sorted(fs[i].value)
    requires forall i | 0 <= i < |gs| :: Sorted(gs[i].value)
    ensures fs == gs
    decreases fs
  {
    hide Less, Strip, Sorted;
    if fs == [] || gs == [] {
      SizeOf(fs);
      SizeOf(gs);
    } else {
      hide StripFields, Ascending;
      SameFirst(fs, gs);
      TailFields(fs);
      TailFields(gs);
      SortedUnique(fs[0].value, gs[0].value);
      FieldsUnique(fs[1..], gs[1..]);
      assert fs == [fs[0]] + fs[1..] && gs == [gs[0]] + gs[1..];
    }
  }

  lemma SizeOf(fs: seq<Field>)
    requires Ascending(fs)
    ensures |StripFields(fs, map[])| == |fs|
  {
    hide Less, Strip, StripFields;
    AscendingDistinct(fs);
    StripFieldsAt(fs, map[]);
  }

  // ---- The encoder -------------------------------------------------------

  /** A length in a 29-bit integer: doubled in 32 bits, with the lowest bit set. */
  function Header(n: nat): nat {
    n * 2 % UINT32 + 1
  }

  function FieldsHeader(n: nat): nat {
    n * 16 % UINT32 + 3
  }

  function EncodeText(text: Text): seq<byte> {
    U29(Header(|text|)) + text
  }

  function Encode(t: Tree): (s: seq<byte>)
    ensures s != []
  {
    match t
    case TNull => [NULL]
    case TBool(b) => [if b then TRUE else FALSE]
    case TInt(i) => [INTEGER] + U29(i)
    case TNumber(bits) => [DOUBLE] + bits
    case TStr(text) => [STRING] + EncodeText(text)
    case TArr(ts) => [ARRAY] + (U29(Header(|ts|)) + (EncodeText([]) + EncodeItems(ts)))
    case TObj(fs) => [OBJECT] + (U29(FieldsHeader(|fs|)) + (EncodeText([]) + (EncodeKeys(fs) + EncodeValues(fs))))
  }

  function EncodeItems(ts: seq<Tree>): seq<byte> {
    if ts == [] then [] else Encode(ts[0]) + EncodeItems(ts[1..])
  }

  function EncodeKeys(fs: seq<Field>): seq<byte> {
    if fs == [] then [] else EncodeText(fs[0].key) + EncodeKeys(fs[1..])
  }

  function EncodeValues(fs: seq<Field>): seq<byte> {
    if fs == [] then [] else Encode(fs[0].value) + EncodeValues(fs[1..])
  }

  /** No length or count is out of the range of its integer: the encoder returns no error. */
  predicate Sized(t: Tree) {
    match t
    case TInt(i) => i <= U29_MAX
    case TStr(text) => Header(|text|) <= U29_MAX
    case TArr(ts) => Header(|ts|) <= U29_MAX && forall i | 0 <= i < |ts| :: Sized(ts[i])
    case TObj(fs) =>
      && FieldsHeader(|fs|) <= U29_MAX
      && forall i | 0 <= i < |fs| :: Header(|fs[i].key|) <= U29_MAX && Sized(fs[i].value)
    case _ => true
  }

  // ---- The decoder -------------------------------------------------------

  /** Text behind its header. A string cut off by the end of the input is padded with zeros; a reference is not modelled. */
  function ReadText(kind: Kind, s: seq<byte>): (r: Result<Text>)
    ensures r.Ok? ==> |r.rest| < |s|
  {
    match ReadU29(s)
    case Fail => Fail
    case Ok(u, t) =>
      var n := u / 2;
      if u % 2 == 0 || (t == [] && (n > 0 || kind.BytesReader?)) then Fail
      else if n <= |t| then Ok(t[..n], t[n..])
      else Ok(t + seq(n - |t|, _ => 0), [])
  }

  /** What is read for an integer: 29 bits, the highest of them a sign. */
  function Signed(u: nat): int {
    if u >= SIGN then u - 0x2000_0000 else u
  }

  /** Markers the encoder's router does not write, references, externalizable and dynamic objects are not modelled. */
  function Decode(kind: Kind, s: seq<byte>): (r: Result<Value>)
    ensures r.Ok? ==> |r.rest| < |s|
    decreases |s|, 0
  {
    if s == [] then Fail
    else
      var t := s[1..];
      match s[0]
      case 0x00 => Ok(Null, t)
      case 0x01 => Ok(Null, t)
      case 0x02 => Ok(Bool(false), t)
      case 0x03 => Ok(Bool(true), t)
      case 0x04 => (match ReadU29(t) case Fail => Fail case Ok(u, rest) => Ok(Int(Signed(u)), rest))
      case 0x05 => if |t| >= 8 then Ok(Number(t[..8]), t[8..]) else Fail
      case 0x06 => (match ReadText(kind, t) case Fail => Fail case Ok(text, rest) => Ok(Str(text), rest))
      case 0x09 => DecodeArray(kind, t)
      case 0x0a => DecodeObject(kind, t)
      case _ => Fail
  }

  function DecodeArray(kind: Kind, s: seq<byte>): (r: Result<Value>)
    ensures r.Ok? ==> |r.rest| <= |s|
    decreases |s|, 3
  {
    match ReadU29(s)
    case Fail => Fail
    case Ok(u, t) =>
      if u % 2 == 0 then Fail
      else
        match ReadText(kind, t)
        case Fail => Fail
        case Ok(key, rest) =>
          if key != [] then Fail
          else
            match DecodeItems(kind, rest, u / 2, [])
            case Fail => Fail
            case Ok(items, end) => Ok(Arr(items), end)
  }

  function DecodeItems(kind: Kind, s: seq<byte>, n: nat, acc: seq<Value>): (r: Result<seq<Value>>)
    ensures r.Ok? ==> |r.rest| <= |s|
    decreases |s|, 1, n
  {
    if n == 0 then Ok(acc, s)
    else
      match Decode(kind, s)
      case Fail => Fail
      case Ok(v, t) => DecodeItems(kind, t, n - 1, acc + [v])
  }

  function DecodeObject(kind: Kind, s: seq<byte>): (r: Result<Value>)
    ensures r.Ok? ==> |r.rest| <= |s|
    decreases |s|, 3
  {
    match ReadU29(s)
    case Fail => Fail
    case Ok(u, t) =>
      if u % 16 != 3 then Fail
      else
        match ReadText(kind, t)
        case Fail => Fail
        case Ok(name, rest) =>
          match DecodeKeys(kind, rest, u / 16, [])
          case Fail => Fail
          case Ok(keys, more) =>
            match DecodeValues(kind, more, keys, map[])
            case Fail => Fail
            case Ok(m, end) => Ok(Obj(m), end)
  }

  function DecodeKeys(kind: Kind, s: seq<byte>, n: nat, acc: seq<Text>): (r: Result<seq<Text>>)
    ensures r.Ok? ==> |r.rest| <= |s| && |r.value| == |acc| + n
    decreases n
  {
    if n == 0 then Ok(acc, s)
    else
      match ReadText(kind, s)
      case Fail => Fail
      case Ok(k, t) => DecodeKeys(kind, t, n - 1, acc + [k])
  }

  function DecodeValues(kind: Kind, s: seq<byte>, keys: seq<Text>, acc: map<Text, Value>): (r: Result<map<Text, Value>>)
    ensures r.Ok? ==> |r.rest| <= |s|
    decreases |s|, 1, |keys|
  {
    if keys == [] then Ok(acc, s)
    else
      match Decode(kind, s)
      case Fail => Fail
      case Ok(v, t) => DecodeValues(kind, t, keys[1..], acc[keys[0] := v])
  }

  // ---- What comes back ---------------------------------------------------

  /** Integers below 2^28, and lengths and counts in the range of their integers. */
  ghost predicate Representable(t: Tree) {
    match t
    case TInt(i) => i < SIGN
    case TStr(text) => |text| < LENGTH_LIMIT
    case TArr(ts) => |ts| < LENGTH_LIMIT && forall i | 0 <= i < |ts| :: Representable(ts[i])
    case TObj(fs) =>
      && |fs| < FIELDS_LIMIT
      && forall i | 0 <= i < |fs| :: |fs[i].key| < LENGTH_LIMIT && Representable(fs[i].value)
    case _ => true
  }

  ghost predicate Bounded(v: Value) {
    match v
    case Int(i) => i < SIGN
    case Str(text) => |text| < LENGTH_LIMIT
    case Arr(vs) => |vs| < LENGTH_LIMIT && forall i | 0 <= i < |vs| :: Bounded(vs[i])
    case Obj(m) => |m| < FIELDS_LIMIT && forall k <- m :: |k| < LENGTH_LIMIT && Bounded(m[k])
    case _ => true
  }

  /** The last thing written is the empty body of a string. */
  predicate EndsEmpty(t: Tree) {
    match t
    case TStr(text) => text == []
    case TArr(ts) => ts == [] || EndsEmpty(ts[|ts| - 1])
    case TObj(fs) => fs == [] || EndsEmpty(fs[|fs| - 1].value)
    case _ => false
  }

  /** A reader that refuses empty reads at its end gets to no such string there. */
  predicate Reachable(kind: Kind, t: Tree, rest: seq<byte>) {
    kind.BytesBuffer? || rest != [] || !EndsEmpty(t)
  }

  lemma SmallHeader(n: nat)
    requires n < LENGTH_LIMIT
    ensures Header(n) == n * 2 + 1 <= U29_MAX
    ensures n < FIELDS_LIMIT ==> FieldsHeader(n) == n * 16 + 3 <= U29_MAX
  {
  }

  lemma TextRoundTrip(kind: Kind, text: Text, rest: seq<byte>)
    requires |text| < LENGTH_LIMIT && (kind.BytesBuffer? || text != [] || rest != [])
    ensures ReadText(kind, EncodeText(text) + rest) == Ok(text, rest)
  {
    hide U29, ReadU29;
    SmallHeader(|text|);
    Assoc(U29(Header(|text|)), text, rest);
    U29RoundTrip(Header(|text|), text + rest);
    assert (text + rest)[..|text|] == text && (text + rest)[|text|..] == rest;
  }

  // ---- The format --------------------------------------------------------

  /** Text behind its length; `missing` zeros stand for what the end of the input cut off. */
  datatype Chars = Chars(head: seq<byte>, text: Text, missing: nat)
  {
    function Bytes(): seq<byte> { head + text }

    function Value(): Text { text + seq(missing, _ => 0) }

    predicate Proper() {
      IsU29(head) && NumOf(head) == 2 * (|text| + missing) + 1 && (missing > 0 ==> text != [])
    }
  }

  /** What bytes say, form by form, as far as the model goes. */
  datatype Wire =
    | WUndefined | WNull | WFalse | WTrue | WInt(digits: seq<byte>) | WDouble(bits: Double) | WStr(chars: Chars)
    | WArr(head: seq<byte>, key: Chars, items: seq<Wire>)
    | WObj(head: seq<byte>, name: Chars, keys: seq<Chars>, values: seq<Wire>)

  /** The bytes of each form. */
  function BytesOf(w: Wire): (s: seq<byte>)
    ensures s != []
  {
    match w
    case WUndefined => [0x00]
    case WNull => [0x01]
    case WFalse => [0x02]
    case WTrue => [0x03]
    case WInt(d) => [0x04] + d
    case WDouble(bits) => [0x05] + bits
    case WStr(c) => [0x06] + c.Bytes()
    case WArr(head, key, ws) => [0x09] + (head + (key.Bytes() + ItemBytes(ws)))
    case WObj(head, name, keys, ws) => [0x0a] + (head + (name.Bytes() + (KeyBytes(keys) + ItemBytes(ws))))
  }

  function ItemBytes(ws: seq<Wire>): seq<byte> {
    if ws == [] then [] else BytesOf(ws[0]) + ItemBytes(ws[1..])
  }

  function KeyBytes(cs: seq<Chars>): seq<byte> {
    if cs == [] then [] else cs[0].Bytes() + KeyBytes(cs[1..])
  }

  /** The value each form stands for. */
  function Meaning(w: Wire): Value
    requires Proper(w)
  {
    match w
    case WUndefined => Null
    case WNull => Null
    case WFalse => Bool(false)
    case WTrue => Bool(true)
    case WInt(d) => Int(if NumOf(d) < 0x1000_0000 then NumOf(d) else NumOf(d) - 0x2000_0000)
    case WDouble(bits) => Number(bits)
    case WStr(c) => Str(c.Value())
    case WArr(_, _, ws) => Arr(Meanings(ws))
    case WObj(_, _, keys, ws) => Obj(Members(keys, ws))
  }

  function Meanings(ws: seq<Wire>): seq<Value>
    requires AllProper(ws)
  {
    if ws == [] then [] else [Meaning(ws[0])] + Meanings(ws[1..])
  }

  /** Of equal keys the last one counts. */
  function Members(keys: seq<Chars>, ws: seq<Wire>): map<Text, Value>
    requires |keys| == |ws| && AllProper(ws)
    decreases ws
  {
    if ws == [] then map[] else map[keys[0].Value() := Meaning(ws[0])] + Members(keys[1..], ws[1..])
  }

  /**
   Lengths and counts that say what follows. An array has no keys of its own; an
   object has its keys in front, is no reference and has no members but these.
   */
  predicate Proper(w: Wire) {
    match w
    case WInt(d) => IsU29(d)
    case WStr(c) => c.Proper()
    case WArr(head, key, ws) =>
      && IsU29(head) && NumOf(head) == 2 * |ws| + 1 && key.Proper() && key.text == []
      && AllProper(ws) && WholeItems(ws)
    case WObj(head, name, keys, ws) =>
      && IsU29(head) && NumOf(head) == 16 * |ws| + 3 && |keys| == |ws|
      && name.Proper() && (ws != [] ==> name.missing == 0)
      && AllKeys(keys)
      && AllProper(ws) && WholeItems(ws)
    case _ => true
  }

  predicate AllProper(ws: seq<Wire>) {
    forall i | 0 <= i < |ws| :: Proper(ws[i])
  }

  predicate AllKeys(cs: seq<Chars>) {
    forall i | 0 <= i < |cs| :: cs[i].Proper() && cs[i].missing == 0
  }

  /** Nothing is cut off that something follows. */
  predicate WholeItems(ws: seq<Wire>) {
    forall i | 0 <= i < |ws| - 1 :: !CutOff(ws[i])
  }

  predicate CutOff(w: Wire) {
    match w
    case WStr(c) => c.missing > 0
    case WArr(_, _, ws) => ws != [] && CutOff(ws[|ws| - 1])
    case WObj(_, name, _, ws) => if ws == [] then name.missing > 0 else CutOff(ws[|ws| - 1])
    case _ => false
  }

  /** The form ends with the empty body of a string. */
  predicate Open(w: Wire) {
    match w
    case WStr(c) => c.text == []
    case WArr(_, _, ws) => ws == [] || Open(ws[|ws| - 1])
    case WObj(_, name, _, ws) => if ws == [] then name.text == [] else Open(ws[|ws| - 1])
    case _ => false
  }

  /** A reader that refuses empty reads at its end is not made to read there; what is cut off is so by the end. */
  predicate Gets(kind: Kind, w: Wire, rest: seq<byte>) {
    (CutOff(w) ==> rest == []) && (kind.BytesBuffer? || rest != [] || !Open(w))
  }

  predicate GetsChars(kind: Kind, c: Chars, rest: seq<byte>) {
    (c.missing > 0 ==> rest == []) && (kind.BytesBuffer? || rest != [] || c.text != [])
  }

  // ---- Every proper form is read -----------------------------------------

  lemma ReadsChars(kind: Kind, c: Chars, rest: seq<byte>)
    requires c.Proper() && GetsChars(kind, c, rest)
    ensures ReadText(kind, c.Bytes() + rest) == Ok(c.Value(), rest)
  {
    hide ReadU29, NumOf, IsU29;
    Assoc(c.head, c.text, rest);
    U29Reads(c.head, c.text + rest);
    var n, t := |c.text| + c.missing, c.text + rest;
    ModUnique(2 * n + 1, 2, n, 1);
    if c.missing == 0 {
      assert t[..n] == c.text && t[n..] == rest;
      assert c.text + seq(0, _ => 0) == c.text;
    } else {
      assert t == c.text;
    }
  }

  lemma ReadsLeaf(kind: Kind, w: Wire, rest: seq<byte>)
    requires Proper(w) && Gets(kind, w, rest) && !w.WArr? && !w.WObj?
    ensures Decode(kind, BytesOf(w) + rest) == Ok(Meaning(w), rest)
  {
    hide ReadU29, ReadText, NumOf, IsU29, AllProper, AllKeys, WholeItems;
    if w.WInt? {
      AfterMarker(0x04, w.digits, rest);
      U29Reads(w.digits, rest);
    } else if w.WDouble? {
      AfterMarker(0x05, w.bits, rest);
      assert (w.bits + rest)[..8] == w.bits && (w.bits + rest)[8..] == rest;
    } else if w.WStr? {
      AfterMarker(0x06, w.chars.Bytes(), rest);
      ReadsChars(kind, w.chars, rest);
    } else {
      assert (BytesOf(w) + rest)[1..] == rest;
    }
  }

  /** Whatever proper bytes a peer sends, the decoder returns what they stand for and leaves what follows. */
  lemma {:induction false} Reads(kind: Kind, w: Wire, rest: seq<byte>)
    requires Proper(w) && Gets(kind, w, rest)
    ensures Decode(kind, BytesOf(w) + rest) == Ok(Meaning(w), rest)
    decreases w
  {
    hide Decode, BytesOf, ItemBytes, KeyBytes, DecodeItems, DecodeKeys, DecodeValues, Meanings, Members, NumOf, IsU29, Chars.Bytes,
         AllProper, AllKeys, WholeItems;
    if w.WArr? {
      ReadsItems(kind, w.items, [], rest);
      ArrHead(kind, w, rest);
      assert [] + Meanings(w.items) == Meanings(w.items);
    } else if w.WObj? {
      if w.values != [] { SomeBytes(w.values); }
      ReadsKeys(kind, w.keys, [], ItemBytes(w.values) + rest);
      assert [] + KeyValues(w.keys) == KeyValues(w.keys);
      ReadsValues(kind, w.keys, w.values, map[], rest);
      assert map[] + Members(w.keys, w.values) == Members(w.keys, w.values);
      ObjHead(kind, w, rest);
    } else {
      ReadsLeaf(kind, w, rest);
    }
  }

  lemma ArrHead(kind: Kind, w: Wire, rest: seq<byte>)
    requires w.WArr? && Proper(w) && Gets(kind, w, rest)
    ensures Decode(kind, BytesOf(w) + rest)
            == match DecodeItems(kind, ItemBytes(w.items) + rest, |w.items|, [])
               case Fail => Fail
               case Ok(items, end) => Ok(Arr(items), end)
  {
    hide ItemBytes, ReadU29, ReadText, DecodeItems, NumOf, IsU29, AllProper, AllKeys, WholeItems;
    var n, k, body := |w.items|, w.key.Bytes(), ItemBytes(w.items);
    AfterMarker(0x09, w.head + (k + body), rest);
    Assoc(w.head, k + body, rest);
    Assoc(k, body, rest);
    if n > 0 { SomeBytes(w.items); }
    U29Reads(w.head, k + (body + rest));
    ModUnique(2 * n + 1, 2, n, 1);
    ReadsChars(kind, w.key, body + rest);
    assert [] + seq(0, _ => 0) == [];
  }

  lemma ObjHead(kind: Kind, w: Wire, rest: seq<byte>)
    requires w.WObj? && Proper(w) && Gets(kind, w, rest)
    requires DecodeKeys(kind, KeyBytes(w.keys) + (ItemBytes(w.values) + rest), |w.values|, [])
             == Ok(KeyValues(w.keys), ItemBytes(w.values) + rest)
    ensures Decode(kind, BytesOf(w) + rest)
            == match DecodeValues(kind, ItemBytes(w.values) + rest, KeyValues(w.keys), map[])
               case Fail => Fail
               case Ok(m, end) => Ok(Obj(m), end)
  {
    hide ItemBytes, KeyBytes, ReadU29, ReadText, DecodeKeys, DecodeValues, KeyValues, NumOf, IsU29, Chars.Bytes, Chars.Value,
         AllProper, AllKeys, WholeItems;
    var n, c, keys, values := |w.values|, w.name.Bytes(), KeyBytes(w.keys), ItemBytes(w.values);
    AfterMarker(0x0a, w.head + (c + (keys + values)), rest);
    Assoc(w.head, c + (keys + values), rest);
    Assoc(c, keys + values, rest);
    Assoc(keys, values, rest);
    if n > 0 { SomeBytes(w.values); } else { NoBytes(w.keys, w.values, rest); }
    U29Reads(w.head, c + (keys + (values + rest)));
    ModUnique(16 * n + 3, 16, n, 3);
    ReadsChars(kind, w.name, keys + (values + rest));
  }

  lemma SomeBytes(ws: seq<Wire>)
    requires ws != []
    ensures ItemBytes(ws) != []
  {
    hide BytesOf;
  }

  lemma NoBytes(cs: seq<Chars>, ws: seq<Wire>, rest: seq<byte>)
    requires cs == [] && ws == []
    ensures KeyBytes(cs) + (ItemBytes(ws) + rest) == rest
  {
  }

  function KeyValues(cs: seq<Chars>): (r: seq<Text>)
    ensures |r| == |cs|
  {
    if cs == [] then [] else [cs[0].Value()] + KeyValues(cs[1..])
  }

  lemma {:induction false} ReadsItems(kind: Kind, ws: seq<Wire>, acc: seq<Value>, rest: seq<byte>)
    requires AllProper(ws) && WholeItems(ws)
    requires ws != [] ==> Gets(kind, ws[|ws| - 1], rest)
    ensures DecodeItems(kind, ItemBytes(ws) + rest, |ws|, acc) == Ok(acc + Meanings(ws), rest)
    decreases ws
  {
    hide Decode, BytesOf, Proper, Meaning, CutOff, Open;
    if ws == [] {
      assert [] + rest == rest;
      assert acc + [] == acc;
    } else {
      if |ws| > 1 { SomeBytes(ws[1..]); }
      Reads(kind, ws[0], ItemBytes(ws[1..]) + rest);
      Assoc(BytesOf(ws[0]), ItemBytes(ws[1..]), rest);
      ReadsItems(kind, ws[1..], acc + [Meaning(ws[0])], rest);
      Assoc(acc, [Meaning(ws[0])], Meanings(ws[1..]));
    }
  }

  lemma {:induction false} ReadsKeys(kind: Kind, cs: seq<Chars>, acc: seq<Text>, rest: seq<byte>)
    requires AllKeys(cs)
    requires kind.BytesBuffer? || cs == [] || rest != []
    ensures DecodeKeys(kind, KeyBytes(cs) + rest, |cs|, acc) == Ok(acc + KeyValues(cs), rest)
    decreases cs
  {
    hide ReadText, Chars.Bytes, Chars.Value, Chars.Proper;
    if cs == [] {
      assert [] + rest == rest;
      assert acc + [] == acc;
    } else {
      ReadsChars(kind, cs[0], KeyBytes(cs[1..]) + rest);
      Assoc(cs[0].Bytes(), KeyBytes(cs[1..]), rest);
      ReadsKeys(kind, cs[1..], acc + [cs[0].Value()], rest);
      Assoc(acc, [cs[0].Value()], KeyValues(cs[1..]));
    }
  }

  lemma {:induction false} ReadsValues(kind: Kind, cs: seq<Chars>, ws: seq<Wire>, acc: map<Text, Value>, rest: seq<byte>)
    requires AllProper(ws) && WholeItems(ws) && |cs| == |ws|
    requires ws != [] ==> Gets(kind, ws[|ws| - 1], rest)
    ensures DecodeValues(kind, ItemBytes(ws) + rest, KeyValues(cs), acc) == Ok(acc + Members(cs, ws), rest)
    decreases ws
  {
    hide Decode, BytesOf, Proper, Meaning, CutOff, Open, Chars.Value;
    if ws == [] {
      assert [] + rest == rest;
      assert acc + map[] == acc;
    } else {
      if |ws| > 1 { SomeBytes(ws[1..]); }
      Reads(kind, ws[0], ItemBytes(ws[1..]) + rest);
      Assoc(BytesOf(ws[0]), ItemBytes(ws[1..]), rest);
      ReadsValues(kind, cs[1..], ws[1..], acc[cs[0].Value() := Meaning(ws[0])], rest);
      assert KeyValues(cs)[1..] == KeyValues(cs[1..]);
      Merge(acc, cs[0].Value(), Meaning(ws[0]), Members(cs[1..], ws[1..]));
    }
  }

  lemma Merge(acc: map<Text, Value>, k: Text, v: Value, more: map<Text, Value>)
    ensures acc[k := v] + more == acc + (map[k := v] + more)
  {
  }

  // ---- Nothing else is read ----------------------------------------------

  lemma CharsTaken(kind: Kind, s: seq<byte>) returns (c: Chars)
    requires ReadText(kind, s).Ok?
    ensures var r := ReadText(kind, s);
            c.Proper() && GetsChars(kind, c, r.rest) && s == c.Bytes() + r.rest && c.Value() == r.value
  {
    hide ReadU29, NumOf, IsU29;
    var d := U29Taken(s);
    var u, t := ReadU29(s).value, ReadU29(s).rest;
    var n := u / 2;
    if n <= |t| {
      c := Chars(d, t[..n], 0);
      assert t == t[..n] + t[n..];
      assert t[..n] + seq(0, _ => 0) == t[..n];
    } else {
      c := Chars(d, t, n - |t|);
      NothingMore<byte, byte>(d + t, []);
    }
    Assoc(c.head, c.text, ReadText(kind, s).rest);
  }

  /** These bytes are a proper form, one the reader can read. */
  ghost predicate IsForm(kind: Kind, s: seq<byte>, w: Wire, v: Value, rest: seq<byte>) {
    Proper(w) && Gets(kind, w, rest) && s == BytesOf(w) + rest && Meaning(w) == v
  }

  /** Whatever is decoded, the bytes consumed are a proper form of it. */
  lemma {:induction false} FormOf(kind: Kind, s: seq<byte>) returns (w: Wire)
    requires Decode(kind, s).Ok?
    ensures IsForm(kind, s, w, Decode(kind, s).value, Decode(kind, s).rest)
    decreases |s|, 0
  {
    hide IsForm, Decode;
    Known(kind, s);
    if s[0] == 0x09 {
      w := ArrForm(kind, s);
    } else if s[0] == 0x0a {
      w := ObjForm(kind, s);
    } else {
      w := LeafForm(kind, s);
    }
  }

  lemma Known(kind: Kind, s: seq<byte>)
    requires Decode(kind, s).Ok?
    ensures s != [] && s[0] in [0x00, 0x01, 0x02, 0x03, 0x04, 0x05, 0x06, 0x09, 0x0a]
  {
  }

  lemma LeafForm(kind: Kind, s: seq<byte>) returns (w: Wire)
    requires Decode(kind, s).Ok? && s[0] in [0x00, 0x01, 0x02, 0x03, 0x04, 0x05, 0x06]
    ensures IsForm(kind, s, w, Decode(kind, s).value, Decode(kind, s).rest)
  {
    hide ReadU29, ReadText, NumOf, IsU29, Chars.Bytes, Chars.Value, Chars.Proper, ItemBytes, KeyBytes, Meanings, Members,
         AllProper, AllKeys, WholeItems, DecodeArray, DecodeObject;
    assert s == [s[0]] + s[1..];
    if s[0] <= 0x03 {
      w := if s[0] == 0x00 then WUndefined else if s[0] == 0x01 then WNull else if s[0] == 0x02 then WFalse else WTrue;
    } else {
      w := LongForm(kind, s);
    }
  }

  lemma LongForm(kind: Kind, s: seq<byte>) returns (w: Wire)
    requires Decode(kind, s).Ok? && s[0] in [0x04, 0x05, 0x06]
    ensures IsForm(kind, s, w, Decode(kind, s).value, Decode(kind, s).rest)
  {
    hide Decode, ReadU29, ReadText, NumOf, IsU29, Chars.Bytes, Chars.Value, Chars.Proper, ItemBytes, KeyBytes, Meanings, Members,
         AllProper, AllKeys, WholeItems;
    LongRead(kind, s);
    var t := s[1..];
    assert s == [s[0]] + t;
    if s[0] == 0x04 {
      var d := U29Taken(t);
      w := WInt(d);
    } else if s[0] == 0x05 {
      w := WDouble(t[..8]);
      assert t == t[..8] + t[8..];
    } else {
      var c := CharsTaken(kind, t);
      w := WStr(c);
    }
  }

  lemma LongRead(kind: Kind, s: seq<byte>)
    requires Decode(kind, s).Ok? && s[0] in [0x04, 0x05, 0x06]
    ensures var t, r := s[1..], Decode(kind, s);
            if s[0] == 0x04 then ReadU29(t).Ok? && r == Ok(Int(Signed(ReadU29(t).value)), ReadU29(t).rest)
            else if s[0] == 0x05 then |t| >= 8 && r == Ok(Number(t[..8]), t[8..])
            else ReadText(kind, t).Ok? && r == Ok(Str(ReadText(kind, t).value), ReadText(kind, t).rest)
  {
    hide ReadU29, ReadText, DecodeArray, DecodeObject;
  }

  lemma ArrForm(kind: Kind, s: seq<byte>) returns (w: Wire)
    requires Decode(kind, s).Ok? && s[0] == 0x09
    ensures IsForm(kind, s, w, Decode(kind, s).value, Decode(kind, s).rest)
    decreases |s| - 1, 3
  {
    hide ReadU29, ReadText, NumOf, IsU29, DecodeItems, ItemBytes, Meanings, WholeItems, AllProper, AllKeys;
    var t, end := s[1..], Decode(kind, s).rest;
    var d := U29Taken(t);
    var u, t1 := ReadU29(t).value, ReadU29(t).rest;
    var c := CharsTaken(kind, t1);
    var ws := ItemsOf(kind, ReadText(kind, t1).rest, u / 2, []);
    w := WArr(d, c, ws);
    assert c.text == [] by { assert c.Value() == []; }
    assert s == [s[0]] + t;
    assert [] + Meanings(ws) == Meanings(ws);
    Assoc(c.Bytes(), ItemBytes(ws), end);
    Assoc(d, c.Bytes() + ItemBytes(ws), end);
    if ws == [] { assert ItemBytes(ws) == [] by { NoBytes([], [], []); } }
  }

  lemma ObjForm(kind: Kind, s: seq<byte>) returns (w: Wire)
    requires Decode(kind, s).Ok? && s[0] == 0x0a
    ensures IsForm(kind, s, w, Decode(kind, s).value, Decode(kind, s).rest)
    decreases |s| - 1, 3
  {
    hide Decode, NumOf, IsU29, DecodeKeys, DecodeValues, ItemBytes, KeyBytes, Members, WholeItems, KeyValues,
         Chars.Bytes, Chars.Value, Chars.Proper, AllProper;
    var d, c, n, t := ObjTaken(kind, s);
    var end := Decode(kind, s).rest;
    var cs := KeysTaken(kind, t, n, []);
    var more := DecodeKeys(kind, t, n, []).rest;
    assert [] + KeyValues(cs) == KeyValues(cs);
    var ws := ValuesOf(kind, more, cs, map[]);
    w := WObj(d, c, cs, ws);
    assert map[] + Members(cs, ws) == Members(cs, ws);
    if ws == [] { NoBytes(cs, ws, end); } else { SomeBytes(ws); }
    Nested(d, c.Bytes(), KeyBytes(cs), ItemBytes(ws), end);
  }

  lemma Nested(a: seq<byte>, b: seq<byte>, c: seq<byte>, d: seq<byte>, e: seq<byte>)
    ensures [0x0a] + (a + (b + (c + (d + e)))) == [0x0a] + (a + (b + (c + d))) + e
  {
  }

  /** What is in front of the keys of an object. */
  lemma ObjTaken(kind: Kind, s: seq<byte>) returns (d: seq<byte>, c: Chars, n: nat, t: seq<byte>)
    requires Decode(kind, s).Ok? && s[0] == 0x0a
    ensures IsU29(d) && NumOf(d) == 16 * n + 3 && c.Proper() && GetsChars(kind, c, t)
    ensures s == [0x0a] + (d + (c.Bytes() + t)) && |t| < |s| - 1
    ensures var r := DecodeKeys(kind, t, n, []);
            && r.Ok? && DecodeValues(kind, r.rest, r.value, map[]).Ok?
            && Decode(kind, s) == (var q := DecodeValues(kind, r.rest, r.value, map[]); Ok(Obj(q.value), q.rest))
  {
    hide ReadU29, ReadText, NumOf, IsU29, DecodeKeys, DecodeValues, Chars.Bytes, Chars.Value, Chars.Proper;
    var t0 := s[1..];
    d := U29Taken(t0);
    n := ReadU29(t0).value / 16;
    c := CharsTaken(kind, ReadU29(t0).rest);
    t := ReadText(kind, ReadU29(t0).rest).rest;
    assert s == [s[0]] + t0;
  }

  lemma {:induction false} ItemsOf(kind: Kind, s: seq<byte>, n: nat, acc: seq<Value>) returns (ws: seq<Wire>)
    requires DecodeItems(kind, s, n, acc).Ok?
    ensures var r := DecodeItems(kind, s, n, acc);
            && |ws| == n && AllProper(ws) && WholeItems(ws)
            && (ws != [] ==> Gets(kind, ws[|ws| - 1], r.rest))
            && s == ItemBytes(ws) + r.rest && r.value == acc + Meanings(ws)
    decreases |s|, 1, n
  {
    hide Decode, BytesOf, Proper, Meaning, CutOff, Open;
    if n == 0 {
      ws := [];
      assert s == [] + s && acc + [] == acc;
    } else {
      var w := FormOf(kind, s);
      var t := Decode(kind, s).rest;
      var more := ItemsOf(kind, t, n - 1, acc + [Meaning(w)]);
      ws := [w] + more;
      assert ws[1..] == more;
      if n > 1 { SomeBytes(more); }
      Assoc(BytesOf(w), ItemBytes(more), DecodeItems(kind, s, n, acc).rest);
      Assoc(acc, [Meaning(w)], Meanings(more));
    }
  }

  lemma {:induction false} KeysTaken(kind: Kind, s: seq<byte>, n: nat, acc: seq<Text>) returns (cs: seq<Chars>)
    requires DecodeKeys(kind, s, n, acc).Ok?
    ensures var r := DecodeKeys(kind, s, n, acc);
            && |cs| == n && (forall i | 0 <= i < |cs| :: cs[i].Proper() && (r.rest != [] ==> cs[i].missing == 0))
            && s == KeyBytes(cs) + r.rest && r.value == acc + KeyValues(cs)
    decreases n
  {
    hide ReadText, Chars.Bytes, Chars.Value, Chars.Proper;
    if n == 0 {
      cs := [];
      assert s == [] + s && acc + [] == acc;
    } else {
      var c := CharsTaken(kind, s);
      var t, r := ReadText(kind, s).rest, DecodeKeys(kind, s, n, acc);
      var more := KeysTaken(kind, t, n - 1, acc + [c.Value()]);
      cs := [c] + more;
      assert cs[1..] == more;
      Assoc(c.Bytes(), KeyBytes(more), r.rest);
      Assoc(acc, [c.Value()], KeyValues(more));
    }
  }

  lemma {:induction false} ValuesOf(kind: Kind, s: seq<byte>, cs: seq<Chars>, acc: map<Text, Value>) returns (ws: seq<Wire>)
    requires DecodeValues(kind, s, KeyValues(cs), acc).Ok?
    ensures var r := DecodeValues(kind, s, KeyValues(cs), acc);
            && |ws| == |cs| && AllProper(ws) && WholeItems(ws)
            && (ws != [] ==> Gets(kind, ws[|ws| - 1], r.rest))
            && s == ItemBytes(ws) + r.rest && r.value == acc + Members(cs, ws)
    decreases |s|, 1, |cs|
  {
    hide Decode, BytesOf, Proper, Meaning, CutOff, Open, Chars.Value;
    if cs == [] {
      ws := [];
      assert s == [] + s && acc + map[] == acc;
    } else {
      assert KeyValues(cs)[1..] == KeyValues(cs[1..]);
      var w := FormOf(kind, s);
      var t, r := Decode(kind, s).rest, DecodeValues(kind, s, KeyValues(cs), acc);
      var more := ValuesOf(kind, t, cs[1..], acc[cs[0].Value() := Meaning(w)]);
      ws := [w] + more;
      assert ws[1..] == more;
      if |cs| > 1 { SomeBytes(more); }
      Assoc(BytesOf(w), ItemBytes(more), r.rest);
      Merge(acc, cs[0].Value(), Meaning(w), Members(cs[1..], more));
    }
  }

  /**
   The decoder is exact: it returns a value and leaves a rest if and only if the
   bytes before that rest are a proper form of the value, among the forms of the
   model.
   */
  lemma DecodeExact(kind: Kind, s: seq<byte>, v: Value, rest: seq<byte>)
    ensures Decode(kind, s) == Ok(v, rest) <==> exists w: Wire :: IsForm(kind, s, w, v, rest)
  {
    hide Decode, Proper, Gets, BytesOf, Meaning;
    if Decode(kind, s) == Ok(v, rest) {
      var w := FormOf(kind, s);
    }
    if exists w: Wire :: IsForm(kind, s, w, v, rest) {
      var w: Wire :| IsForm(kind, s, w, v, rest);
      Reads(kind, w, rest);
    }
  }

  // ---- Decoding what was encoded -----------------------------------------

  function CharsOf(text: Text): Chars {
    Chars(U29(Header(|text|)), text, 0)
  }

  /** The form the encoder writes. */
  function WireOf(t: Tree): Wire {
    match t
    case TNull => WNull
    case TBool(b) => if b then WTrue else WFalse
    case TInt(i) => WInt(U29(i))
    case TNumber(bits) => WDouble(bits)
    case TStr(text) => WStr(CharsOf(text))
    case TArr(ts) => WArr(U29(Header(|ts|)), CharsOf([]), WiresOf(ts))
    case TObj(fs) => WObj(U29(FieldsHeader(|fs|)), CharsOf([]), CharsFor(fs), ValuesFor(fs))
  }

  function WiresOf(ts: seq<Tree>): (r: seq<Wire>)
    ensures |r| == |ts|
  {
    if ts == [] then [] else [WireOf(ts[0])] + WiresOf(ts[1..])
  }

  function CharsFor(fs: seq<Field>): (r: seq<Chars>)
    ensures |r| == |fs|
  {
    if fs == [] then [] else [CharsOf(fs[0].key)] + CharsFor(fs[1..])
  }

  function ValuesFor(fs: seq<Field>): (r: seq<Wire>)
    ensures |r| == |fs|
  {
    if fs == [] then [] else [WireOf(fs[0].value)] + ValuesFor(fs[1..])
  }

  lemma WritesChars(text: Text)
    requires |text| < LENGTH_LIMIT
    ensures CharsOf(text).Proper() && CharsOf(text).Value() == text && EncodeText(text) == CharsOf(text).Bytes()
  {
    hide U29, NumOf, IsU29;
    SmallHeader(|text|);
    U29Form(Header(|text|));
    assert text + seq(0, _ => 0) == text;
  }

  /** What the encoder writes for a tree that fits is a proper form of its value, and nothing is missing. */
  ghost predicate Written(t: Tree) {
    var w := WireOf(t);
    Proper(w) && Encode(t) == BytesOf(w) && Meaning(w) == Strip(t) && !CutOff(w) && Open(w) == EndsEmpty(t)
  }

  lemma {:induction false} Writes(t: Tree)
    requires Representable(t)
    ensures Written(t)
  {
    hide Written, EncodeItems, EncodeKeys, EncodeValues, ItemBytes, KeyBytes, Meanings, Members, StripFields, StripAll,
         WiresOf, CharsFor, ValuesFor, WholeItems;
    if t.TArr? {
      WritesItems(t.items);
      WritesArray(t.items);
    } else if t.TObj? {
      WritesKeys(t.fields);
      WritesValues(t.fields, map[]);
      WritesObject(t.fields);
    } else {
      WritesLeaf(t);
    }
  }

  lemma WritesLeaf(t: Tree)
    requires Representable(t) && !t.TArr? && !t.TObj?
    ensures Written(t)
  {
    hide U29, NumOf, IsU29, EncodeText, Chars.Bytes, Chars.Value, Chars.Proper;
    if t.TInt? {
      U29Form(t.i);
    } else if t.TStr? {
      WritesChars(t.text);
    }
  }

  lemma WritesArray(ts: seq<Tree>)
    requires |ts| < LENGTH_LIMIT
    requires var ws := WiresOf(ts);
             && AllProper(ws) && WholeItems(ws) && (ws != [] ==> !CutOff(ws[|ws| - 1]))
             && EncodeItems(ts) == ItemBytes(ws) && Meanings(ws) == StripAll(ts)
             && (ts != [] ==> Open(ws[|ws| - 1]) == EndsEmpty(ts[|ts| - 1]))
    ensures Written(TArr(ts))
  {
    hide U29, NumOf, IsU29, EncodeText, Chars.Bytes, Chars.Value, Chars.Proper, EncodeItems, ItemBytes, Meanings, StripAll,
         WiresOf, WholeItems, AllProper, AllKeys, Header, CutOff, Open, EndsEmpty;
    SmallHeader(|ts|);
    U29Form(Header(|ts|));
    WritesChars([]);
    ArrayEnds(U29(Header(|ts|)), CharsOf([]), WiresOf(ts), ts);
  }

  lemma ArrayEnds(head: seq<byte>, key: Chars, ws: seq<Wire>, ts: seq<Tree>)
    requires |ws| == |ts| && (ws != [] ==> !CutOff(ws[|ws| - 1]) && Open(ws[|ws| - 1]) == EndsEmpty(ts[|ts| - 1]))
    ensures !CutOff(WArr(head, key, ws)) && Open(WArr(head, key, ws)) == EndsEmpty(TArr(ts))
  {
  }

  lemma WritesObject(fs: seq<Field>)
    requires |fs| < FIELDS_LIMIT
    requires var cs, ws := CharsFor(fs), ValuesFor(fs);
             && AllKeys(cs)
             && AllProper(ws) && WholeItems(ws) && (ws != [] ==> !CutOff(ws[|ws| - 1]))
             && EncodeKeys(fs) == KeyBytes(cs) && EncodeValues(fs) == ItemBytes(ws)
             && StripFields(fs, map[]) == map[] + Members(cs, ws)
             && (fs != [] ==> Open(ws[|ws| - 1]) == EndsEmpty(fs[|fs| - 1].value))
    ensures Written(TObj(fs))
  {
    hide U29, NumOf, IsU29, EncodeText, Chars.Bytes, Chars.Value, Chars.Proper, EncodeKeys, EncodeValues, ItemBytes, KeyBytes,
         Members, StripFields, CharsFor, ValuesFor, WholeItems, AllProper, AllKeys, Header, FieldsHeader, CutOff, Open,
         EndsEmpty;
    var cs, ws := CharsFor(fs), ValuesFor(fs);
    SmallHeader(|fs|);
    U29Form(FieldsHeader(|fs|));
    WritesChars([]);
    assert map[] + Members(cs, ws) == Members(cs, ws);
    ObjectEnds(U29(FieldsHeader(|fs|)), CharsOf([]), cs, ws, fs);
  }

  lemma ObjectEnds(head: seq<byte>, name: Chars, cs: seq<Chars>, ws: seq<Wire>, fs: seq<Field>)
    requires |ws| == |fs| && name.missing == 0 && name.text == []
    requires ws != [] ==> !CutOff(ws[|ws| - 1]) && Open(ws[|ws| - 1]) == EndsEmpty(fs[|fs| - 1].value)
    ensures !CutOff(WObj(head, name, cs, ws)) && Open(WObj(head, name, cs, ws)) == EndsEmpty(TObj(fs))
  {
  }

  lemma {:induction false} WritesItems(ts: seq<Tree>)
    requires forall i | 0 <= i < |ts| :: Representable(ts[i])
    ensures var ws := WiresOf(ts);
            && AllProper(ws) && WholeItems(ws) && (ws != [] ==> !CutOff(ws[|ws| - 1]))
            && EncodeItems(ts) == ItemBytes(ws) && Meanings(ws) == StripAll(ts)
            && (ts != [] ==> Open(ws[|ws| - 1]) == EndsEmpty(ts[|ts| - 1]))
  {
    hide Encode, BytesOf, Proper, Meaning, Strip, Open, CutOff, EndsEmpty, WireOf, Representable;
    if ts != [] {
      Writes(ts[0]);
      WritesItems(ts[1..]);
      assert WiresOf(ts)[1..] == WiresOf(ts[1..]);
      FrontProper(WireOf(ts[0]), WiresOf(ts[1..]));
    }
  }

  lemma {:induction false} WritesKeys(fs: seq<Field>)
    requires forall i | 0 <= i < |fs| :: |fs[i].key| < LENGTH_LIMIT
    ensures AllKeys(CharsFor(fs)) && EncodeKeys(fs) == KeyBytes(CharsFor(fs))
  {
    hide EncodeText, Chars.Bytes, Chars.Value, Chars.Proper;
    if fs != [] {
      WritesChars(fs[0].key);
      WritesKeys(fs[1..]);
      assert CharsFor(fs)[1..] == CharsFor(fs[1..]);
    }
  }

  lemma {:induction false} WritesValues(fs: seq<Field>, acc: map<Text, Value>)
    requires forall i | 0 <= i < |fs| :: |fs[i].key| < LENGTH_LIMIT && Representable(fs[i].value)
    ensures var cs, ws := CharsFor(fs), ValuesFor(fs);
            && AllProper(ws) && WholeItems(ws) && (ws != [] ==> !CutOff(ws[|ws| - 1]))
            && EncodeValues(fs) == ItemBytes(ws) && StripFields(fs, acc) == acc + Members(cs, ws)
            && (fs != [] ==> Open(ws[|ws| - 1]) == EndsEmpty(fs[|fs| - 1].value))
  {
    hide Encode, EncodeText, BytesOf, Proper, Meaning, Strip, Open, CutOff, EndsEmpty, WireOf, Representable,
         Chars.Bytes, Chars.Value, Chars.Proper;
    if fs == [] {
      assert acc + map[] == acc;
    } else {
      var f, ws := fs[0], ValuesFor(fs[1..]);
      Writes(f.value);
      WritesChars(f.key);
      WritesValues(fs[1..], acc[f.key := Strip(f.value)]);
      assert CharsFor(fs)[1..] == CharsFor(fs[1..]) && ValuesFor(fs)[1..] == ws;
      FrontProper(WireOf(f.value), ws);
      Merge(acc, f.key, Strip(f.value), Members(CharsFor(fs[1..]), ws));
    }
  }

  lemma FrontProper(w: Wire, ws: seq<Wire>)
    requires Proper(w) && !CutOff(w) && AllProper(ws) && WholeItems(ws)
    ensures AllProper([w] + ws) && WholeItems([w] + ws)
  {
    hide Proper, CutOff;
  }

  /** For every tree that fits, whatever follows it. */
  lemma RoundTrip(kind: Kind, t: Tree, rest: seq<byte>)
    requires Representable(t) && Reachable(kind, t, rest)
    ensures Decode(kind, Encode(t) + rest) == Ok(Strip(t), rest)
  {
    hide Encode, Decode, Representable, Strip, WireOf, Proper, Open, CutOff, EndsEmpty;
    Writes(t);
    Reads(kind, WireOf(t), rest);
  }

  // ---- Nothing else comes back -------------------------------------------

  lemma TextBound(kind: Kind, s: seq<byte>)
    ensures ReadText(kind, s).Ok? ==> |ReadText(kind, s).value| < LENGTH_LIMIT
  {
    U29FromBound(s, 0, 0);
  }

  /** Whatever the bytes, a decoded value has integers below 2^28 and lengths in range. */
  lemma {:induction false} DecodedBounded(kind: Kind, s: seq<byte>)
    ensures Decode(kind, s).Ok? ==> Bounded(Decode(kind, s).value)
    decreases |s|, 0
  {
    hide U29From, ReadText;
    if s != [] {
      var t := s[1..];
      U29FromBound(t, 0, 0);
      TextBound(kind, t);
      match s[0]
      case 0x09 => DecodedArrayBounded(kind, t);
      case 0x0a => DecodedObjectBounded(kind, t);
      case _ =>
    }
  }

  lemma {:induction false} DecodedArrayBounded(kind: Kind, s: seq<byte>)
    ensures DecodeArray(kind, s).Ok? ==> Bounded(DecodeArray(kind, s).value)
    decreases |s|, 3
  {
    hide U29From, ReadText;
    U29FromBound(s, 0, 0);
    if DecodeArray(kind, s).Ok? {
      var u, t := ReadU29(s).value, ReadU29(s).rest;
      DecodedItemsBounded(kind, ReadText(kind, t).rest, u / 2, []);
    }
  }

  lemma {:induction false} DecodedItemsBounded(kind: Kind, s: seq<byte>, n: nat, acc: seq<Value>)
    requires forall i | 0 <= i < |acc| :: Bounded(acc[i])
    ensures var r := DecodeItems(kind, s, n, acc);
            r.Ok? ==> |r.value| == |acc| + n && forall i | 0 <= i < |r.value| :: Bounded(r.value[i])
    decreases |s|, 1, n
  {
    hide Decode, Bounded;
    if n > 0 && Decode(kind, s).Ok? {
      DecodedBounded(kind, s);
      DecodedItemsBounded(kind, Decode(kind, s).rest, n - 1, acc + [Decode(kind, s).value]);
    }
  }

  lemma {:induction false} DecodedObjectBounded(kind: Kind, s: seq<byte>)
    ensures DecodeObject(kind, s).Ok? ==> Bounded(DecodeObject(kind, s).value)
    decreases |s|, 3
  {
    hide U29From, ReadText;
    U29FromBound(s, 0, 0);
    if DecodeObject(kind, s).Ok? {
      var u, t := ReadU29(s).value, ReadU29(s).rest;
      var r := DecodeKeys(kind, ReadText(kind, t).rest, u / 16, []);
      DecodedKeysBounded(kind, ReadText(kind, t).rest, u / 16, []);
      DecodedValuesBounded(kind, r.rest, r.value, map[]);
    }
  }

  lemma {:induction false} DecodedKeysBounded(kind: Kind, s: seq<byte>, n: nat, acc: seq<Text>)
    requires forall i | 0 <= i < |acc| :: |acc[i]| < LENGTH_LIMIT
    ensures var r := DecodeKeys(kind, s, n, acc); r.Ok? ==> forall i | 0 <= i < |r.value| :: |r.value[i]| < LENGTH_LIMIT
    decreases n
  {
    hide ReadText;
    TextBound(kind, s);
    if n > 0 && ReadText(kind, s).Ok? {
      var acc' := acc + [ReadText(kind, s).value];
      assert forall i | 0 <= i < |acc'| :: |acc'[i]| < LENGTH_LIMIT;
      DecodedKeysBounded(kind, ReadText(kind, s).rest, n - 1, acc');
      assert DecodeKeys(kind, s, n, acc) == DecodeKeys(kind, ReadText(kind, s).rest, n - 1, acc');
    }
  }

  lemma {:induction false} DecodedValuesBounded(kind: Kind, s: seq<byte>, keys: seq<Text>, acc: map<Text, Value>)
    requires forall i | 0 <= i < |keys| :: |keys[i]| < LENGTH_LIMIT
    requires forall k <- acc :: |k| < LENGTH_LIMIT && Bounded(acc[k])
    ensures var r := DecodeValues(kind, s, keys, acc);
            r.Ok? ==> |r.value| <= |acc| + |keys| && forall k <- r.value :: |k| < LENGTH_LIMIT && Bounded(r.value[k])
    decreases |s|, 1, |keys|
  {
    hide Decode, Bounded;
    if keys != [] && Decode(kind, s).Ok? {
      DecodedBounded(kind, s);
      var acc' := acc[keys[0] := Decode(kind, s).value];
      assert |acc'| <= |acc| + 1;
      DecodedValuesBounded(kind, Decode(kind, s).rest, keys[1..], acc');
    }
  }

  lemma {:induction false} BoundedFits(t: Tree)
    requires Sorted(t) && Bounded(Strip(t))
    ensures Representable(t)
  {
    hide Less;
    match t
    case TArr(ts) =>
      forall i | 0 <= i < |ts|
        ensures Representable(ts[i])
      {
        StripAllAt(ts, i);
        BoundedFits(ts[i]);
      }
    case TObj(fs) =>
      AscendingDistinct(fs);
      StripFieldsAt(fs, map[]);
      forall i | 0 <= i < |fs|
        ensures |fs[i].key| < LENGTH_LIMIT && Representable(fs[i].value)
      {
        BoundedFits(fs[i].value);
      }
    case _ =>
  }

  function KeysOf(fs: seq<Field>): (r: seq<Text>)
    ensures |r| == |fs|
  {
    if fs == [] then [] else [fs[0].key] + KeysOf(fs[1..])
  }

  lemma {:induction false} RoundTripKeys(kind: Kind, fs: seq<Field>, acc: seq<Text>, rest: seq<byte>)
    requires forall i | 0 <= i < |fs| :: |fs[i].key| < LENGTH_LIMIT
    requires kind.BytesBuffer? || fs == [] || rest != []
    ensures DecodeKeys(kind, EncodeKeys(fs) + rest, |fs|, acc) == Ok(acc + KeysOf(fs), rest)
    decreases fs
  {
    hide ReadText, EncodeText;
    if fs == [] {
      assert [] + rest == rest;
      assert acc + [] == acc;
    } else {
      TextRoundTrip(kind, fs[0].key, EncodeKeys(fs[1..]) + rest);
      Assoc(EncodeText(fs[0].key), EncodeKeys(fs[1..]), rest);
      RoundTripKeys(kind, fs[1..], acc + [fs[0].key], rest);
      Assoc(acc, [fs[0].key], KeysOf(fs[1..]));
    }
  }

  /** A reader that refuses empty reads never gets to an empty string at its end. */
  lemma {:induction false} EmptyLost(t: Tree)
    requires Representable(t) && EndsEmpty(t)
    ensures Decode(BytesReader, Encode(t)).Fail?
    decreases t
  {
    match t
    case TStr(text) =>
      EmptyTextLost();
      AfterMarker(STRING, EncodeText([]), []);
      NothingMore([STRING] + EncodeText([]), EncodeText([]));
    case TArr(ts) => EmptyArrayLost(ts);
    case TObj(fs) => EmptyObjectLost(fs);
  }

  lemma EmptyTextLost()
    ensures ReadText(BytesReader, EncodeText([])).Fail?
  {
    hide U29, ReadU29;
    U29RoundTrip(1, []);
    NothingMore(U29(1), EncodeText([]));
  }

  lemma {:induction false} EmptyArrayLost(ts: seq<Tree>)
    requires Representable(TArr(ts)) && EndsEmpty(TArr(ts))
    ensures Decode(BytesReader, Encode(TArr(ts))).Fail?
    decreases ts, 1
  {
    hide EncodeItems, U29, ReadU29, ReadText, EncodeText, DecodeItems, Encode, Representable, EndsEmpty;
    var h, k, body := U29(Header(|ts|)), EncodeText([]), EncodeItems(ts);
    assert Encode(TArr(ts)) == [ARRAY] + (h + (k + body)) by { ArrayBytes(ts); }
    assert |ts| < LENGTH_LIMIT by { ArrayParts(ts); }
    AfterMarker(ARRAY, h + (k + body), []);
    NothingMore([ARRAY] + (h + (k + body)), h + (k + body));
    SmallHeader(|ts|);
    U29RoundTrip(Header(|ts|), k + body);
    if ts == [] {
      assert body == [] by { NoItems(); }
      EmptyTextLost();
      NothingMore(k, k);
    } else {
      ArrayParts(ts);
      EmptyItemLost(ts, []);
      assert body != [] by { SomeItems(ts); }
      TextRoundTrip(BytesReader, [], body);
    }
  }

  lemma ArrayBytes(ts: seq<Tree>)
    ensures Encode(TArr(ts)) == [ARRAY] + (U29(Header(|ts|)) + (EncodeText([]) + EncodeItems(ts)))
  {
  }

  lemma ArrayParts(ts: seq<Tree>)
    requires Representable(TArr(ts)) && EndsEmpty(TArr(ts))
    ensures |ts| < LENGTH_LIMIT && forall i | 0 <= i < |ts| :: Representable(ts[i])
    ensures ts != [] ==> EndsEmpty(ts[|ts| - 1])
  {
  }

  lemma NoItems()
    ensures EncodeItems([]) == []
  {
  }

  lemma SomeItems(ts: seq<Tree>)
    requires ts != []
    ensures EncodeItems(ts) != []
  {
    hide Encode;
  }

  lemma {:induction false} EmptyItemLost(ts: seq<Tree>, acc: seq<Value>)
    requires ts != [] && EndsEmpty(ts[|ts| - 1]) && forall i | 0 <= i < |ts| :: Representable(ts[i])
    ensures DecodeItems(BytesReader, EncodeItems(ts), |ts|, acc).Fail?
    decreases ts, 0
  {
    hide Decode, Encode, Representable, EndsEmpty;
    if |ts| == 1 {
      EmptyLost(ts[0]);
      assert ts[1..] == [];
      NothingMore<byte, byte>(Encode(ts[0]), []);
    } else {
      SomeItems(ts[1..]);
      RoundTrip(BytesReader, ts[0], EncodeItems(ts[1..]));
      EmptyItemLost(ts[1..], acc + [Strip(ts[0])]);
    }
  }

  lemma {:induction false} EmptyObjectLost(fs: seq<Field>)
    requires Representable(TObj(fs)) && EndsEmpty(TObj(fs))
    ensures Decode(BytesReader, Encode(TObj(fs))).Fail?
    decreases fs, 1
  {
    hide EncodeKeys, EncodeValues, U29, ReadU29, ReadText, EncodeText, DecodeKeys, DecodeValues, KeysOf, Encode, Representable, EndsEmpty;
    var h, c, keys, values := U29(FieldsHeader(|fs|)), EncodeText([]), EncodeKeys(fs), EncodeValues(fs);
    var body := h + (c + (keys + values));
    ObjectParts(fs);
    AfterMarker(OBJECT, body, []);
    NothingMore([OBJECT] + body, body);
    SmallHeader(|fs|);
    U29RoundTrip(FieldsHeader(|fs|), c + (keys + values));
    ModUnique(|fs| * 16 + 3, 16, |fs|, 3);
    if fs == [] {
      assert keys + values == [] by { NoFields(); }
      EmptyTextLost();
      NothingMore(c, c);
    } else {
      SomeValues(fs);
      TextRoundTrip(BytesReader, [], keys + values);
      RoundTripKeys(BytesReader, fs, [], values);
      assert [] + KeysOf(fs) == KeysOf(fs);
      EmptyValueLost(fs, map[]);
    }
  }

  lemma ObjectParts(fs: seq<Field>)
    requires Representable(TObj(fs)) && EndsEmpty(TObj(fs))
    ensures Encode(TObj(fs)) == [OBJECT] + (U29(FieldsHeader(|fs|)) + (EncodeText([]) + (EncodeKeys(fs) + EncodeValues(fs))))
    ensures |fs| < FIELDS_LIMIT && forall i | 0 <= i < |fs| :: |fs[i].key| < LENGTH_LIMIT && Representable(fs[i].value)
    ensures fs != [] ==> EndsEmpty(fs[|fs| - 1].value)
  {
    hide U29, EncodeText, EncodeKeys, EncodeValues;
  }

  lemma NoFields()
    ensures EncodeKeys([]) + EncodeValues([]) == []
  {
  }

  lemma SomeValues(fs: seq<Field>)
    requires fs != []
    ensures EncodeValues(fs) != []
  {
    hide Encode;
  }

  lemma {:induction false} EmptyValueLost(fs: seq<Field>, acc: map<Text, Value>)
    requires fs != [] && EndsEmpty(fs[|fs| - 1].value) && forall i | 0 <= i < |fs| :: Representable(fs[i].value)
    ensures DecodeValues(BytesReader, EncodeValues(fs), KeysOf(fs), acc).Fail?
    decreases fs, 0
  {
    hide Decode, Encode, Representable, EndsEmpty, Strip;
    if |fs| == 1 {
      EmptyLost(fs[0].value);
      assert fs[1..] == [];
      NothingMore<byte, byte>(Encode(fs[0].value), []);
    } else {
      SomeValues(fs[1..]);
      RoundTrip(BytesReader, fs[0].value, EncodeValues(fs[1..]));
      EmptyValueLost(fs[1..], acc[fs[0].key := Strip(fs[0].value)]);
      assert KeysOf(fs)[1..] == KeysOf(fs[1..]);
    }
  }

  lemma {:induction false} RepresentableSized(t: Tree)
    requires Representable(t)
    ensures Sized(t)
  {
    match t
    case TStr(text) => SmallHeader(|text|);
    case TArr(ts) =>
      SmallHeader(|ts|);
      forall i | 0 <= i < |ts|
        ensures Sized(ts[i])
      {
        RepresentableSized(ts[i]);
      }
    case TObj(fs) =>
      SmallHeader(|fs|);
      forall i | 0 <= i < |fs|
        ensures Header(|fs[i].key|) <= U29_MAX && Sized(fs[i].value)
      {
        SmallHeader(|fs[i].key|);
        RepresentableSized(fs[i].value);
      }
    case _ =>
  }

  /**
   For every value tree the encoder's router writes, decoding gives the value
   back and leaves what follows, exactly if its integers are below 2^28 and its
   lengths and counts are in the range of their integers; and, for a reader that
   refuses empty reads at its end, if no empty string ends there. The encoder
   writes every such tree. From 2^28 on an integer comes back negative, though the
   encoder accepts it.
   */
  lemma RoundTripExact(kind: Kind, t: Tree, rest: seq<byte>)
    requires Sorted(t)
    ensures Decode(kind, Encode(t) + rest) == Ok(Strip(t), rest) <==> Representable(t) && Reachable(kind, t, rest)
    ensures Decode(kind, Encode(t) + rest) == Ok(Strip(t), rest) ==> Sized(t)
  {
    if Representable(t) && Reachable(kind, t, rest) {
      RoundTrip(kind, t, rest);
    }
    if Decode(kind, Encode(t) + rest) == Ok(Strip(t), rest) {
      DecodedBounded(kind, Encode(t) + rest);
      BoundedFits(t);
      RepresentableSized(t);
      if !Reachable(kind, t, rest) {
        EmptyLost(t);
        NothingMore(Encode(t), rest);
      }
    }
  }

  /** Where the sign bit is reached the encoder still succeeds, and the decoder returns a negative number. */
  lemma SignLost(kind: Kind, i: nat, rest: seq<byte>)
    requires SIGN <= i <= U29_MAX
    ensures Sized(TInt(i)) && Decode(kind, Encode(TInt(i)) + rest) == Ok(Int(i - 0x2000_0000), rest)
  {
    hide U29, ReadU29;
    AfterMarker(INTEGER, U29(i), rest);
    U29RoundTrip(i, rest);
  }
}
