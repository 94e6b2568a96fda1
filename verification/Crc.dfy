/**
 The CRC of MPEG-2 sections (ISO/IEC 13818-1, Annex A): the table-driven loop
 computes the bit-by-bit division, and a section followed by its CRC divides
 without remainder.
 */
module Crc {

  // Named operations: proofs hide their bits.

  function Xor(a: bv32, b: bv32): bv32 { a ^ b }

  function Left(c: bv32): bv32 { c << 1 }

  predicate Top(c: bv32) { c & 0x8000_0000 != 0 }

  /** One bit of the message enters the register of the division by the polynomial of ISO/IEC 13818-1, annex A. */
  function ShiftIn(c: bv32, bit: bool): bv32 {
    if Top(c) != bit then Xor(Left(c), 0x04c1_1db7) else Left(c)
  }

  predicate Bit(b: bv8, mask: bv8) {
    b & mask != 0
  }

  function ShiftIn2(c: bv32, b1: bool, b2: bool): bv32 {
    ShiftIn(ShiftIn(c, b1), b2)
  }

  function ShiftIn4(c: bv32, b1: bool, b2: bool, b3: bool, b4: bool): bv32 {
    ShiftIn2(ShiftIn2(c, b1, b2), b3, b4)
  }

  /** The eight bits of a byte, most significant first. */
  function ByteIn(c: bv32, b: bv8): bv32 {
    ShiftIn4(ShiftIn4(c, Bit(b, 0x80), Bit(b, 0x40), Bit(b, 0x20), Bit(b, 0x10)),
             Bit(b, 0x08), Bit(b, 0x04), Bit(b, 0x02), Bit(b, 0x01))
  }

  /** The register after the whole message, started with `c`. */
  function Divide(c: bv32, s: seq<bv8>): bv32 {
    if s == [] then c else ByteIn(Divide(c, s[..|s| - 1]), s[|s| - 1])
  }

  const ROW_0: seq<bv32> := [
      0x00000000, 0x04c11db7, 0x09823b6e, 0x0d4326d9,
      0x130476dc, 0x17c56b6b, 0x1a864db2, 0x1e475005,
      0x2608edb8, 0x22c9f00f, 0x2f8ad6d6, 0x2b4bcb61,
      0x350c9b64, 0x31cd86d3, 0x3c8ea00a, 0x384fbdbd]
  const ROW_1: seq<bv32> := [
      0x4c11db70, 0x48d0c6c7, 0x4593e01e, 0x4152fda9,
      0x5f15adac, 0x5bd4b01b, 0x569796c2, 0x52568b75,
      0x6a1936c8, 0x6ed82b7f, 0x639b0da6, 0x675a1011,
      0x791d4014, 0x7ddc5da3, 0x709f7b7a, 0x745e66cd]
  const ROW_2: seq<bv32> := [
      0x9823b6e0, 0x9ce2ab57, 0x91a18d8e, 0x95609039,
      0x8b27c03c, 0x8fe6dd8b, 0x82a5fb52, 0x8664e6e5,
      0xbe2b5b58, 0xbaea46ef, 0xb7a96036, 0xb3687d81,
      0xad2f2d84, 0xa9ee3033, 0xa4ad16ea, 0xa06c0b5d]
  const ROW_3: seq<bv32> := [
      0xd4326d90, 0xd0f37027, 0xddb056fe, 0xd9714b49,
      0xc7361b4c, 0xc3f706fb, 0xceb42022, 0xca753d95,
      0xf23a8028, 0xf6fb9d9f, 0xfbb8bb46, 0xff79a6f1,
      0xe13ef6f4, 0xe5ffeb43, 0xe8bccd9a, 0xec7dd02d]
  const ROW_4: seq<bv32> := [
      0x34867077, 0x30476dc0, 0x3d044b19, 0x39c556ae,
      0x278206ab, 0x23431b1c, 0x2e003dc5, 0x2ac12072,
      0x128e9dcf, 0x164f8078, 0x1b0ca6a1, 0x1fcdbb16,
      0x018aeb13, 0x054bf6a4, 0x0808d07d, 0x0cc9cdca]
  const ROW_5: seq<bv32> := [
      0x7897ab07, 0x7c56b6b0, 0x71159069, 0x75d48dde,
      0x6b93dddb, 0x6f52c06c, 0x6211e6b5, 0x66d0fb02,
      0x5e9f46bf, 0x5a5e5b08, 0x571d7dd1, 0x53dc6066,
      0x4d9b3063, 0x495a2dd4, 0x44190b0d, 0x40d816ba]
  const ROW_6: seq<bv32> := [
      0xaca5c697, 0xa864db20, 0xa527fdf9, 0xa1e6e04e,
      0xbfa1b04b, 0xbb60adfc, 0xb6238b25, 0xb2e29692,
      0x8aad2b2f, 0x8e6c3698, 0x832f1041, 0x87ee0df6,
      0x99a95df3, 0x9d684044, 0x902b669d, 0x94ea7b2a]
  const ROW_7: seq<bv32> := [
      0xe0b41de7, 0xe4750050, 0xe9362689, 0xedf73b3e,
      0xf3b06b3b, 0xf771768c, 0xfa325055, 0xfef34de2,
      0xc6bcf05f, 0xc27dede8, 0xcf3ecb31, 0xcbffd686,
      0xd5b88683, 0xd1799b34, 0xdc3abded, 0xd8fba05a]
  const ROW_8: seq<bv32> := [
      0x690ce0ee, 0x6dcdfd59, 0x608edb80, 0x644fc637,
      0x7a089632, 0x7ec98b85, 0x738aad5c, 0x774bb0eb,
      0x4f040d56, 0x4bc510e1, 0x46863638, 0x42472b8f,
      0x5c007b8a, 0x58c1663d, 0x558240e4, 0x51435d53]
  const ROW_9: seq<bv32> := [
      0x251d3b9e, 0x21dc2629, 0x2c9f00f0, 0x285e1d47,
      0x36194d42, 0x32d850f5, 0x3f9b762c, 0x3b5a6b9b,
      0x0315d626, 0x07d4cb91, 0x0a97ed48, 0x0e56f0ff,
      0x1011a0fa, 0x14d0bd4d, 0x19939b94, 0x1d528623]
  const ROW_10: seq<bv32> := [
      0xf12f560e, 0xf5ee4bb9, 0xf8ad6d60, 0xfc6c70d7,
      0xe22b20d2, 0xe6ea3d65, 0xeba91bbc, 0xef68060b,
      0xd727bbb6, 0xd3e6a601, 0xdea580d8, 0xda649d6f,
      0xc423cd6a, 0xc0e2d0dd, 0xcda1f604, 0xc960ebb3]
  const ROW_11: seq<bv32> := [
      0xbd3e8d7e, 0xb9ff90c9, 0xb4bcb610, 0xb07daba7,
      0xae3afba2, 0xaafbe615, 0xa7b8c0cc, 0xa379dd7b,
      0x9b3660c6, 0x9ff77d71, 0x92b45ba8, 0x9675461f,
      0x8832161a, 0x8cf30bad, 0x81b02d74, 0x857130c3]
  const ROW_12: seq<bv32> := [
      0x5d8a9099, 0x594b8d2e, 0x5408abf7, 0x50c9b640,
      0x4e8ee645, 0x4a4ffbf2, 0x470cdd2b, 0x43cdc09c,
      0x7b827d21, 0x7f436096, 0x7200464f, 0x76c15bf8,
      0x68860bfd, 0x6c47164a, 0x61043093, 0x65c52d24]
  const ROW_13: seq<bv32> := [
      0x119b4be9, 0x155a565e, 0x18197087, 0x1cd86d30,
      0x029f3d35, 0x065e2082, 0x0b1d065b, 0x0fdc1bec,
      0x3793a651, 0x3352bbe6, 0x3e119d3f, 0x3ad08088,
      0x2497d08d, 0x2056cd3a, 0x2d15ebe3, 0x29d4f654]
  const ROW_14: seq<bv32> := [
      0xc5a92679, 0xc1683bce, 0xcc2b1d17, 0xc8ea00a0,
      0xd6ad50a5, 0xd26c4d12, 0xdf2f6bcb, 0xdbee767c,
      0xe3a1cbc1, 0xe760d676, 0xea23f0af, 0xeee2ed18,
      0xf0a5bd1d, 0xf464a0aa, 0xf9278673, 0xfde69bc4]
  const ROW_15: seq<bv32> := [
      0x89b8fd09, 0x8d79e0be, 0x803ac667, 0x84fbdbd0,
      0x9abc8bd5, 0x9e7d9662, 0x933eb0bb, 0x97ffad0c,
      0xafb010b1, 0xab710d06, 0xa6322bdf, 0xa2f33668,
      0xbcb4666d, 0xb8757bda, 0xb5365d03, 0xb1f740b4]

  /** The table, in rows of sixteen entries. */
  function Table(j: bv8): bv32 {
    Row(j >> 4)[(j & 0xf) as int]
  }

  function Row(r: bv8): (s: seq<bv32>)
    ensures |s| == 16
  {
    match r
    case 0 => ROW_0
    case 1 => ROW_1
    case 2 => ROW_2
    case 3 => ROW_3
    case 4 => ROW_4
    case 5 => ROW_5
    case 6 => ROW_6
    case 7 => ROW_7
    case 8 => ROW_8
    case 9 => ROW_9
    case 10 => ROW_10
    case 11 => ROW_11
    case 12 => ROW_12
    case 13 => ROW_13
    case 14 => ROW_14
    case _ => ROW_15
  }

  /** The remainders of eight bytes. */
  function Eight(b: bv8): (s: seq<bv32>)
    ensures |s| == 8
  {
    [ByteIn(0, b | 0), ByteIn(0, b | 1), ByteIn(0, b | 2), ByteIn(0, b | 3),
     ByteIn(0, b | 4), ByteIn(0, b | 5), ByteIn(0, b | 6), ByteIn(0, b | 7)]
  }

  function Remainders(b: bv8): (s: seq<bv32>)
    ensures |s| == 16
  {
    Eight(b) + Eight(b | 8)
  }

  lemma EightAt(b: bv8, n: bv8)
    requires n < 8
    ensures Eight(b)[n as int] == ByteIn(0, b | n)
  {
    hide ByteIn;
    match n
    case 0 =>
    case 1 =>
    case 2 =>
    case 3 =>
    case 4 =>
    case 5 =>
    case 6 =>
    case _ =>
  }

  lemma RemainderAt(b: bv8, n: bv8)
    requires n < 16
    ensures Remainders(b)[n as int] == ByteIn(0, b | n)
  {
    hide ByteIn, Eight;
    if n < 8 {
      EightAt(b, n);
    } else {
      UpperHalf(b, n);
      EightAt(b | 8, n - 8);
    }
  }

  lemma UpperHalf(b: bv8, n: bv8)
    requires 8 <= n < 16
    ensures (b | 8) | (n - 8) == b | n && (n - 8) as int == n as int - 8
  {
    match n
    case 8 =>
    case 9 =>
    case 10 =>
    case 11 =>
    case 12 =>
    case 13 =>
    case 14 =>
    case _ =>
  }

  lemma Row0Low()
    ensures ROW_0[..8] == Eight(0x0)
  {
  }

  lemma Row0High()
    ensures ROW_0[8..] == Eight(0x8)
  {
  }

  lemma Row1Low()
    ensures ROW_1[..8] == Eight(0x10)
  {
  }

  lemma Row1High()
    ensures ROW_1[8..] == Eight(0x18)
  {
  }

  lemma Row2Low()
    ensures ROW_2[..8] == Eight(0x20)
  {
  }

  lemma Row2High()
    ensures ROW_2[8..] == Eight(0x28)
  {
  }

  lemma Row3Low()
    ensures ROW_3[..8] == Eight(0x30)
  {
  }

  lemma Row3High()
    ensures ROW_3[8..] == Eight(0x38)
  {
  }

  lemma Row4Low()
    ensures ROW_4[..8] == Eight(0x40)
  {
  }

  lemma Row4High()
    ensures ROW_4[8..] == Eight(0x48)
  {
  }

  lemma Row5Low()
    ensures ROW_5[..8] == Eight(0x50)
  {
  }

  lemma Row5High()
    ensures ROW_5[8..] == Eight(0x58)
  {
  }

  lemma Row6Low()
    ensures ROW_6[..8] == Eight(0x60)
  {
  }

  lemma Row6High()
    ensures ROW_6[8..] == Eight(0x68)
  {
  }

  lemma Row7Low()
    ensures ROW_7[..8] == Eight(0x70)
  {
  }

  lemma Row7High()
    ensures ROW_7[8..] == Eight(0x78)
  {
  }

  lemma Row8Low()
    ensures ROW_8[..8] == Eight(0x80)
  {
  }

  lemma Row8High()
    ensures ROW_8[8..] == Eight(0x88)
  {
  }

  lemma Row9Low()
    ensures ROW_9[..8] == Eight(0x90)
  {
  }

  lemma Row9High()
    ensures ROW_9[8..] == Eight(0x98)
  {
  }

  lemma Row10Low()
    ensures ROW_10[..8] == Eight(0xa0)
  {
  }

  lemma Row10High()
    ensures ROW_10[8..] == Eight(0xa8)
  {
  }

  lemma Row11Low()
    ensures ROW_11[..8] == Eight(0xb0)
  {
  }

  lemma Row11High()
    ensures ROW_11[8..] == Eight(0xb8)
  {
  }

  lemma Row12Low()
    ensures ROW_12[..8] == Eight(0xc0)
  {
  }

  lemma Row12High()
    ensures ROW_12[8..] == Eight(0xc8)
  {
  }

  lemma Row13Low()
    ensures ROW_13[..8] == Eight(0xd0)
  {
  }

  lemma Row13High()
    ensures ROW_13[8..] == Eight(0xd8)
  {
  }

  lemma Row14Low()
    ensures ROW_14[..8] == Eight(0xe0)
  {
  }

  lemma Row14High()
    ensures ROW_14[8..] == Eight(0xe8)
  {
  }

  lemma Row15Low()
    ensures ROW_15[..8] == Eight(0xf0)
  {
  }

  lemma Row15High()
    ensures ROW_15[8..] == Eight(0xf8)
  {
  }

  /** Every entry is the remainder of its index. */
  lemma TableCorrect(j: bv8)
    ensures Table(j) == ByteIn(0, j)
  {
    hide ByteIn, Remainders, Row;
    RowCorrect(j >> 4);
    RemainderAt((j >> 4) << 4, j & 0xf);
    assert ((j >> 4) << 4) | (j & 0xf) == j;
  }

  lemma RowCorrect(r: bv8)
    requires r < 16
    ensures Row(r) == Remainders(r << 4)
  {
    hide Eight;
    match r
    case 0 => Row0Low(); Row0High(); Halves(ROW_0, 0x0);
    case 1 => Row1Low(); Row1High(); Halves(ROW_1, 0x10);
    case 2 => Row2Low(); Row2High(); Halves(ROW_2, 0x20);
    case 3 => Row3Low(); Row3High(); Halves(ROW_3, 0x30);
    case 4 => Row4Low(); Row4High(); Halves(ROW_4, 0x40);
    case 5 => Row5Low(); Row5High(); Halves(ROW_5, 0x50);
    case 6 => Row6Low(); Row6High(); Halves(ROW_6, 0x60);
    case 7 => Row7Low(); Row7High(); Halves(ROW_7, 0x70);
    case 8 => Row8Low(); Row8High(); Halves(ROW_8, 0x80);
    case 9 => Row9Low(); Row9High(); Halves(ROW_9, 0x90);
    case 10 => Row10Low(); Row10High(); Halves(ROW_10, 0xa0);
    case 11 => Row11Low(); Row11High(); Halves(ROW_11, 0xb0);
    case 12 => Row12Low(); Row12High(); Halves(ROW_12, 0xc0);
    case 13 => Row13Low(); Row13High(); Halves(ROW_13, 0xd0);
    case 14 => Row14Low(); Row14High(); Halves(ROW_14, 0xe0);
    case _ => Row15Low(); Row15High(); Halves(ROW_15, 0xf0);
  }

  lemma Halves(s: seq<bv32>, b: bv8)
    requires |s| == 16 && s[..8] == Eight(b) && s[8..] == Eight(b | 8)
    ensures s == Remainders(b)
  {
    hide Eight;
    assert s == s[..8] + s[8..];
  }

  // ---- The loop ----------------------------------------------------------

  /** One step of the loop: the top byte of the register selects the entry. */
  function TableStep(c: bv32, b: bv8): bv32 {
    (c << 8) ^ Table(Index(c, b))
  }

  function Index(c: bv32, b: bv8): bv8 {
    ((c >> 24) as bv8) ^ b
  }

  function Left2(c: bv32): bv32 { Left(Left(c)) }

  function Left4(c: bv32): bv32 { Left2(Left2(c)) }

  function Left8(c: bv32): bv32 { Left4(Left4(c)) }

  lemma StepCorrect(c: bv32, b: bv8)
    ensures TableStep(c, b) == ByteIn(c, b)
  {
    TableCorrect(Index(c, b));
    Linear(c, b);
    StepSplit(c, b, ByteIn(0, Index(c, b)));
  }

  lemma StepSplit(c: bv32, b: bv8, t: bv32)
    requires Table(Index(c, b)) == t
    ensures TableStep(c, b) == Xor(Left8(c), t)
  {
    hide Table, Index;
    Left8Is(c);
  }

  lemma Left8Is(c: bv32)
    ensures Left8(c) == c << 8
  {
  }

  lemma XorLaws(a: bv32, b: bv32, c: bv32)
    ensures Left(Xor(a, b)) == Xor(Left(a), Left(b))
    ensures Top(Xor(a, b)) == (Top(a) != Top(b))
    ensures Xor(Xor(a, b), c) == Xor(a, Xor(b, c))
    ensures Xor(a, 0) == a
  {
    LeftXor(a, b);
    TopXor(a, b);
    XorXor(a, b, c);
  }

  lemma LeftXor(a: bv32, b: bv32)
    ensures Left(Xor(a, b)) == Xor(Left(a), Left(b))
  {
    assert (a ^ b) << 1 == (a << 1) ^ (b << 1);
  }

  lemma TopXor(a: bv32, b: bv32)
    ensures Top(Xor(a, b)) == (Top(a) != Top(b))
  {
    assert ((a ^ b) & 0x8000_0000 != 0) == ((a & 0x8000_0000 != 0) != (b & 0x8000_0000 != 0));
  }

  lemma XorXor(a: bv32, b: bv32, c: bv32)
    ensures Xor(Xor(a, b), c) == Xor(a, Xor(b, c)) && Xor(a, 0) == a
  {
    assert (a ^ b) ^ c == a ^ (b ^ c) && a ^ 0 == a;
  }

  /** Shifting is linear: the part `d` of the register only moves up, but for its top bit. */
  lemma ShiftLinear(d: bv32, r: bv32, bit: bool)
    ensures ShiftIn(Xor(d, r), bit) == Xor(Left(d), ShiftIn(r, Top(d) != bit))
  {
    hide Xor, Left, Top;
    XorLaws(d, r, 0);
    XorLaws(Left(d), Left(r), 0x04c1_1db7);
  }

  lemma ShiftLinear2(d: bv32, r: bv32, b1: bool, b2: bool)
    ensures ShiftIn2(Xor(d, r), b1, b2) == Xor(Left2(d), ShiftIn2(r, Top(d) != b1, Top(Left(d)) != b2))
  {
    hide Xor, Left, Top, ShiftIn;
    ShiftLinear(d, r, b1);
    ShiftLinear(Left(d), ShiftIn(r, Top(d) != b1), b2);
  }

  lemma ShiftLinear4(d: bv32, r: bv32, b1: bool, b2: bool, b3: bool, b4: bool)
    ensures ShiftIn4(Xor(d, r), b1, b2, b3, b4)
         == Xor(Left4(d), ShiftIn4(r, Top(d) != b1, Top(Left(d)) != b2, Top(Left2(d)) != b3, Top(Left(Left2(d))) != b4))
  {
    hide Xor, Left, Top, ShiftIn2, Left2;
    ShiftLinear2(d, r, b1, b2);
    ShiftLinear2(Left2(d), ShiftIn2(r, Top(d) != b1, Top(Left(d)) != b2), b3, b4);
  }

  /** The bits of the table index are those of the register's top byte against those of the message byte. */
  lemma TopBits(c: bv32, b: bv8)
    ensures var x := Index(c, b);
            && Bit(x, 0x80) == (Top(c) != Bit(b, 0x80))
            && Bit(x, 0x40) == (Top(Left(c)) != Bit(b, 0x40))
            && Bit(x, 0x20) == (Top(Left2(c)) != Bit(b, 0x20))
            && Bit(x, 0x10) == (Top(Left(Left2(c))) != Bit(b, 0x10))
            && Bit(x, 0x08) == (Top(Left4(c)) != Bit(b, 0x08))
            && Bit(x, 0x04) == (Top(Left(Left4(c))) != Bit(b, 0x04))
            && Bit(x, 0x02) == (Top(Left2(Left4(c))) != Bit(b, 0x02))
            && Bit(x, 0x01) == (Top(Left(Left2(Left4(c)))) != Bit(b, 0x01))
  {
    hide *;
    IndexBit0(c, b);
    IndexBit1(c, b);
    IndexBit2(c, b);
    IndexBit3(c, b);
    IndexBit4(c, b);
    IndexBit5(c, b);
    IndexBit6(c, b);
    IndexBit7(c, b);
  }

  lemma IndexBit0(c: bv32, b: bv8)
    ensures Bit(Index(c, b), 0x80) == (Top(c) != Bit(b, 0x80))
  {
    assert ((((c >> 24) as bv8) ^ b) & 0x80 != 0) == ((c & 0x8000_0000 != 0) != (b & 0x80 != 0));
  }

  lemma IndexBit1(c: bv32, b: bv8)
    ensures Bit(Index(c, b), 0x40) == (Top(Left(c)) != Bit(b, 0x40))
  {
    assert ((((c >> 24) as bv8) ^ b) & 0x40 != 0) == (((c << 1) & 0x8000_0000 != 0) != (b & 0x40 != 0));
  }

  lemma IndexBit2(c: bv32, b: bv8)
    ensures Bit(Index(c, b), 0x20) == (Top(Left2(c)) != Bit(b, 0x20))
  {
    assert ((((c >> 24) as bv8) ^ b) & 0x20 != 0) == ((((c << 1) << 1) & 0x8000_0000 != 0) != (b & 0x20 != 0));
  }

  lemma IndexBit3(c: bv32, b: bv8)
    ensures Bit(Index(c, b), 0x10) == (Top(Left(Left2(c))) != Bit(b, 0x10))
  {
    assert ((((c >> 24) as bv8) ^ b) & 0x10 != 0) == (((((c << 1) << 1) << 1) & 0x8000_0000 != 0) != (b & 0x10 != 0));
  }

  lemma IndexBit4(c: bv32, b: bv8)
    ensures Bit(Index(c, b), 0x08) == (Top(Left4(c)) != Bit(b, 0x08))
  {
    assert ((((c >> 24) as bv8) ^ b) & 0x08 != 0) == ((((((c << 1) << 1) << 1) << 1) & 0x8000_0000 != 0) != (b & 0x08 != 0));
  }

  lemma IndexBit5(c: bv32, b: bv8)
    ensures Bit(Index(c, b), 0x04) == (Top(Left(Left4(c))) != Bit(b, 0x04))
  {
    assert ((((c >> 24) as bv8) ^ b) & 0x04 != 0) == (((((((c << 1) << 1) << 1) << 1) << 1) & 0x8000_0000 != 0) != (b & 0x04 != 0));
  }

  lemma IndexBit6(c: bv32, b: bv8)
    ensures Bit(Index(c, b), 0x02) == (Top(Left2(Left4(c))) != Bit(b, 0x02))
  {
    assert ((((c >> 24) as bv8) ^ b) & 0x02 != 0) == ((((((((c << 1) << 1) << 1) << 1) << 1) << 1) & 0x8000_0000 != 0) != (b & 0x02 != 0));
  }

  lemma IndexBit7(c: bv32, b: bv8)
    ensures Bit(Index(c, b), 0x01) == (Top(Left(Left2(Left4(c)))) != Bit(b, 0x01))
  {
    assert ((((c >> 24) as bv8) ^ b) & 0x01 != 0) == (((((((((c << 1) << 1) << 1) << 1) << 1) << 1) << 1) & 0x8000_0000 != 0) != (b & 0x01 != 0));
  }

  /** The low bytes of the register move up; the top byte is divided together with the message byte. */
  lemma Linear(c: bv32, b: bv8)
    ensures ByteIn(c, b) == Xor(Left8(c), ByteIn(0, Index(c, b)))
  {
    hide ShiftIn4, Bit, Top, Xor, Left, Left2, Left4, Index;
    TopBits(c, b);
    XorXor(c, 0, 0);
    var x := Index(c, b);
    ShiftLinear4(c, 0, Bit(b, 0x80), Bit(b, 0x40), Bit(b, 0x20), Bit(b, 0x10));
    ShiftLinear4(Left4(c), ShiftIn4(0, Bit(x, 0x80), Bit(x, 0x40), Bit(x, 0x20), Bit(x, 0x10)),
                 Bit(b, 0x08), Bit(b, 0x04), Bit(b, 0x02), Bit(b, 0x01));
  }

  lemma DivideNext(c: bv32, s: seq<bv8>, i: nat)
    requires i < |s|
    ensures Divide(c, s[..i + 1]) == ByteIn(Divide(c, s[..i]), s[i])
  {
    hide ByteIn;
    assert s[..i + 1][..i] == s[..i];
  }

  method GenCrc32(src: seq<bv8>) returns (crc32: bv32)
    ensures crc32 == Divide(0xffff_ffff, src)
  {
    crc32 := 0xffff_ffff;
    for i := 0 to |src|
      invariant crc32 == Divide(0xffff_ffff, src[..i])
    {
      hide ByteIn, TableStep, Divide;
      StepCorrect(crc32, src[i]);
      DivideNext(0xffff_ffff, src, i);
      crc32 := TableStep(crc32, src[i]);
    }
    assert src[..|src|] == src;
  }

  /** The four bytes of a CRC, most significant first. */
  function CrcBytes(c: bv32): (s: seq<bv8>)
    ensures |s| == 4
  {
    [(c >> 24) as bv8, ((c >> 16) & 0xff) as bv8, ((c >> 8) & 0xff) as bv8, (c & 0xff) as bv8]
  }

  lemma {:induction false} DivideConcat(c: bv32, s: seq<bv8>, t: seq<bv8>)
    ensures Divide(c, s + t) == Divide(Divide(c, s), t)
  {
    hide ByteIn;
    if t == [] {
      assert s + t == s;
    } else {
      DivideConcat(c, s, t[..|t| - 1]);
      assert (s + t)[..|s + t| - 1] == s + t[..|t| - 1];
    }
  }

  lemma DivideFour(c: bv32, t: seq<bv8>)
    requires |t| == 4
    ensures Divide(c, t) == ByteIn(ByteIn(ByteIn(ByteIn(c, t[0]), t[1]), t[2]), t[3])
  {
    hide ByteIn;
    assert t[..3][..2] == t[..2] && t[..2][..1] == t[..1] && t[..1][..0] == [];
    assert Divide(c, t[..1]) == ByteIn(c, t[0]);
    assert Divide(c, t[..2]) == ByteIn(Divide(c, t[..1]), t[1]);
    assert Divide(c, t[..3]) == ByteIn(Divide(c, t[..2]), t[2]);
  }

  /** A message followed by its CRC leaves no remainder. */
  lemma SelfCheck(c: bv32, s: seq<bv8>)
    ensures Divide(c, s + CrcBytes(Divide(c, s))) == 0
  {
    hide ByteIn, CrcBytes;
    var d := Divide(c, s);
    DivideConcat(c, s, CrcBytes(d));
    DivideFour(d, CrcBytes(d));
    Cancel(d);
  }

  lemma Cancel(d: bv32)
    ensures var t := CrcBytes(d);
            ByteIn(ByteIn(ByteIn(ByteIn(d, t[0]), t[1]), t[2]), t[3]) == 0
  {
    CrcBytesAre(d);
    var d1 := Left8(d);
    var d2 := Left8(d1);
    var d3 := Left8(d2);
    hide ByteIn, CrcBytes, Left8, TopByte;
    CancelTop(d);
    CancelTop(d1);
    CancelTop(d2);
    CancelTop(d3);
  }

  function TopByte(c: bv32): bv8 {
    (c >> 24) as bv8
  }

  lemma CrcBytesAre(d: bv32)
    ensures CrcBytes(d) == [TopByte(d), TopByte(Left8(d)), TopByte(Left8(Left8(d))), TopByte(Left8(Left8(Left8(d))))]
    ensures Left8(Left8(Left8(Left8(d)))) == 0
  {
  }

  /** The top byte of the register as a message byte cancels. */
  lemma CancelTop(c: bv32)
    ensures ByteIn(c, TopByte(c)) == Left8(c)
  {
    hide Left8, Xor;
    assert Index(c, TopByte(c)) == 0 && ByteIn(0, 0) == 0 by { ZeroIn(c); }
    XorLaws(Left8(c), 0, 0);
    Linear(c, TopByte(c));
  }

  lemma ZeroIn(c: bv32)
    ensures Index(c, TopByte(c)) == 0 && ByteIn(0, 0) == 0
  {
  }
}
