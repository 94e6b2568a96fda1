/** Bytes, machine integers and the fixed-width big- and little-endian codecs. */
module Bytes {

  type byte = b: int | 0 <= b < 256
  type uint32 = v: int | 0 <= v < 0x1_0000_0000

  datatype Option<+T> = None | Some(value: T)

  function Min(a: int, b: int): int {
    if a <= b then a else b
  }

  function Pow256(n: nat): (p: nat)
    ensures p > 0
  {
    if n == 0 then 1 else 256 * Pow256(n - 1)
  }

  /** The `n` low-order bytes of `v`, most significant first. */
  function BE(v: nat, n: nat): (s: seq<byte>)
    ensures |s| == n
  {
    if n == 0 then [] else BE(v / 256, n - 1) + [v % 256]
  }

  function FromBE(s: seq<byte>): nat {
    if s == [] then 0 else FromBE(s[..|s| - 1]) * 256 + s[|s| - 1]
  }

  /** The `n` low-order bytes of `v`, least significant first. */
  function LE(v: nat, n: nat): (s: seq<byte>)
    ensures |s| == n
  {
    if n == 0 then [] else [v % 256] + LE(v / 256, n - 1)
  }

  function FromLE(s: seq<byte>): nat {
    if s == [] then 0 else s[0] + 256 * FromLE(s[1..])
  }

  /** Big-endian: the most significant byte first. */
  lemma {:induction false} BEAt(v: nat, n: nat, i: nat)
    requires i < n
    ensures BE(v, n)[n - 1 - i] == Shift(v, i) % 256
  {
    if i > 0 {
      BEAt(v / 256, n - 1, i - 1);
      DivDiv(v, 256, Pow256(i - 1));
    }
  }

  /** Little-endian: the other way round. */
  lemma {:induction false} LEIs(v: nat, n: nat)
    ensures forall i | 0 <= i < n :: LE(v, n)[i] == BE(v, n)[n - 1 - i]
  {
    if n > 0 {
      LEIs(v / 256, n - 1);
    }
  }

  lemma {:induction false} BERoundTrip(v: nat, n: nat)
    ensures FromBE(BE(v, n)) == v % Pow256(n)
  {
    if n > 0 {
      BERoundTrip(v / 256, n - 1);
      assert BE(v, n)[..n - 1] == BE(v / 256, n - 1);
      ModSplit(v, Pow256(n - 1));
    }
  }

  lemma {:induction false} LERoundTrip(v: nat, n: nat)
    ensures FromLE(LE(v, n)) == v % Pow256(n)
  {
    if n > 0 {
      LERoundTrip(v / 256, n - 1);
      assert LE(v, n)[1..] == LE(v / 256, n - 1);
      ModSplit(v, Pow256(n - 1));
    }
  }

  lemma ModSplit(v: nat, p: nat)
    requires p > 0
    ensures v % (256 * p) == (v / 256) % p * 256 + v % 256
  {
    var q, r := v / 256 / p, v / 256 % p;
    assert v / 256 == p * q + r;
    assert v == (256 * p) * q + (256 * r + v % 256) by {
      assert v == 256 * (p * q + r) + v % 256;
      assert 256 * (p * q) == (256 * p) * q;
    }
    assert 256 * r + v % 256 < 256 * p;
    ModUnique(v, 256 * p, q, 256 * r + v % 256);
  }

  lemma MulMono(d: nat, a: int, b: int)
    requires a <= b
    ensures d * a <= d * b
  {
    assert d * (b - a) >= 0;
  }

  lemma ModUnique(v: int, d: int, q: int, r: int)
    requires 0 <= r < d
    requires v == d * q + r
    ensures v % d == r && v / d == q
  {
    var q' := v / d;
    assert d * (q + 1) == d * q + d && d * (q' + 1) == d * q' + d;
    if q' > q {
      MulMono(d, q + 1, q');
    } else if q' < q {
      MulMono(d, q' + 1, q);
    }
  }

  lemma MulSum(a: int, x: int, y: int)
    ensures a * (x + y) == a * x + a * y
  {
  }

  lemma MulAssoc(a: int, x: int, y: int)
    ensures a * (x * y) == (a * x) * y
  {
  }

  lemma MulPositive(a: nat, b: nat)
    requires a > 0 && b > 0
    ensures a * b > 0
  {
  }

  /** The remainder of dividing twice, put together. */
  lemma TwoRemainders(a: nat, b: nat, p: int, x: nat, y: nat)
    requires x < b && y < a
    ensures a * (b * p + x) + y == (a * b) * p + (a * x + y)
    ensures 0 <= a * x + y < a * b
  {
    MulSum(a, b * p, x);
    MulAssoc(a, b, p);
    MulMono(a, x, b - 1);
    MulSum(a, b - 1, 1);
  }

  /** Dividing twice is dividing by the product. */
  lemma DivDiv(v: int, a: nat, b: nat)
    requires a > 0 && b > 0
    ensures a * b > 0 && v / a / b == v / (a * b)
  {
    MulPositive(a, b);
    var q, y := v / a, v % a;
    var p, x := q / b, q % b;
    TwoRemainders(a, b, p, x, y);
    ModUnique(v, a * b, p, a * x + y);
  }

  /** `v >> (8 * k)`. */
  function Shift(v: nat, k: nat): nat {
    DivNat(v, Pow256(k));
    v / Pow256(k)
  }

  lemma DivNat(v: nat, p: nat)
    requires p > 0
    ensures v / p >= 0
  {
    if v / p < 0 {
      MulMono(p, v / p, -1);
    }
  }

  lemma ShiftZero(v: nat)
    ensures Shift(v, 0) == v
  {
  }

  /** Shifting right by `8 * (k + 1)` bits is shifting by `8 * k` and then by 8. */
  lemma ShiftSplit(v: nat, k: nat)
    ensures Shift(v, k + 1) == Shift(v, k) / 256
  {
    var p := Pow256(k);
    var w, r0 := v / p, v % p;
    var q, r := w / 256, w % 256;
    assert v == p * w + r0;
    assert p * w == (256 * p) * q + p * r by {
      assert p * w == p * (256 * q + r) == p * (256 * q) + p * r;
      assert p * (256 * q) == (256 * p) * q;
    }
    MulMono(p, r, 255);
    ModUnique(v, 256 * p, q, p * r + r0);
  }

  lemma FromBEBound(s: seq<byte>)
    ensures FromBE(s) < Pow256(|s|)
  {
  }

  lemma FromLEBound(s: seq<byte>)
    ensures FromLE(s) < Pow256(|s|)
  {
  }

  lemma Pow256Values()
    ensures Pow256(1) == 0x100 && Pow256(2) == 0x1_0000
    ensures Pow256(3) == 0x100_0000 && Pow256(4) == 0x1_0000_0000
  {
    assert Pow256(1) == 256 * Pow256(0);
    assert Pow256(2) == 256 * Pow256(1);
    assert Pow256(3) == 256 * Pow256(2);
    assert Pow256(4) == 256 * Pow256(3);
  }

  lemma {:induction false} BEOf(s: seq<byte>)
    ensures BE(FromBE(s), |s|) == s
  {
    if s != [] {
      BEOf(s[..|s| - 1]);
    }
  }

  lemma SmallMod(n: nat, p: nat)
    requires n < p
    ensures n % p == n
  {
  }

  lemma AfterMarker(m: byte, body: seq<byte>, rest: seq<byte>)
    ensures var s := [m] + body + rest; s != [] && s[0] == m && s[1..] == body + rest
  {
  }

  lemma NothingMore<T, U>(a: seq<T>, b: seq<U>)
    ensures a + [] == a && b + [] == b
  {
  }

  /** What two sequences share up to `m`, any part of it they share. */
  lemma SameFront<T>(s: seq<T>, t: seq<T>, m: nat, lo: nat, hi: nat)
    requires lo <= hi <= m <= |s| && m <= |t| && s[..m] == t[..m]
    ensures s[lo..hi] == t[lo..hi]
  {
    forall i | lo <= i < hi
      ensures s[i] == t[i]
    {
      assert s[..m][i] == t[..m][i];
    }
  }

  /** The same from `m` on. */
  lemma SameBack<T>(s: seq<T>, t: seq<T>, m: nat, lo: nat, hi: nat)
    requires m <= lo <= hi <= |s| == |t| && s[m..] == t[m..]
    ensures s[lo..hi] == t[lo..hi]
  {
    forall i | lo <= i < hi
      ensures s[i] == t[i]
    {
      assert s[m..][i - m] == t[m..][i - m];
    }
  }

  lemma ConsEqual<T>(x: T, a: seq<T>, y: T, b: seq<T>)
    ensures [x] + a == [y] + b <==> x == y && a == b
  {
    assert ([x] + a)[0] == x && ([y] + b)[0] == y;
    assert ([x] + a)[1..] == a && ([y] + b)[1..] == b;
  }

  lemma Assoc<T>(a: seq<T>, b: seq<T>, c: seq<T>)
    ensures (a + b) + c == a + (b + c)
  {
  }
}
