/**
The PasswordBase packing of the SAE-PK generator (hostapd/sae_pk_gen.c): a byte loop that shifts the
hash in place and writes 20 bits a round, two rounds sharing a byte, against a bit-string
specification.
*/
module SaePk {
  const SAE_MAX_HASH_LEN: nat := 64

  // ---------------------------------------------------------------------------------------------
  // Bit strings
  // ---------------------------------------------------------------------------------------------

  /** Bit `i` of a byte, counting from the most significant. */
  predicate Bit(b: bv8, i: nat)
    requires i < 8
  {
    if i == 0 then b & 0x80 != 0 else if i == 1 then b & 0x40 != 0 else if i == 2 then b & 0x20 != 0
    else if i == 3 then b & 0x10 != 0 else if i == 4 then b & 0x08 != 0 else if i == 5 then b & 0x04 != 0
    else if i == 6 then b & 0x02 != 0 else b & 0x01 != 0
  }

  /** Bit `i` of the low 20 bits of a word, counting from the most significant of the 20. */
  predicate Bit20(v: bv32, i: nat)
    requires i < 20
  {
    if i == 0 then v & 0x80000 != 0 else if i == 1 then v & 0x40000 != 0
    else if i == 2 then v & 0x20000 != 0 else if i == 3 then v & 0x10000 != 0
    else if i == 4 then v & 0x08000 != 0 else if i == 5 then v & 0x04000 != 0
    else if i == 6 then v & 0x02000 != 0 else if i == 7 then v & 0x01000 != 0
    else if i == 8 then v & 0x00800 != 0 else if i == 9 then v & 0x00400 != 0
    else if i == 10 then v & 0x00200 != 0 else if i == 11 then v & 0x00100 != 0
    else if i == 12 then v & 0x00080 != 0 else if i == 13 then v & 0x00040 != 0
    else if i == 14 then v & 0x00020 != 0 else if i == 15 then v & 0x00010 != 0
    else if i == 16 then v & 0x00008 != 0 else if i == 17 then v & 0x00004 != 0
    else if i == 18 then v & 0x00002 != 0 else v & 0x00001 != 0
  }

  function BitsOf(b: bv8): (r: seq<bool>)
    ensures |r| == 8
  {
    seq(8, i requires 0 <= i < 8 => Bit(b, i))
  }

  /** The low 20 bits of a word as a bit string. */
  function WordOf(v: bv32): (r: seq<bool>)
    ensures |r| == 20
  {
    seq(20, i requires 0 <= i < 20 => Bit20(v, i))
  }

  type Row = r: seq<bool> | |r| == 8 witness [false, false, false, false, false, false, false, false]

  function Rows(bs: seq<bv8>): (r: seq<Row>)
    ensures |r| == |bs|
  {
    seq(|bs|, k requires 0 <= k < |bs| => BitsOf(bs[k]))
  }

  function Flat(rows: seq<Row>): (r: seq<bool>)
    ensures |r| == 8 * |rows|
  {
    seq(8 * |rows|, i requires 0 <= i < 8 * |rows| => rows[i / 8][i % 8])
  }

  /** The bytes as a bit string, most significant bit first. */
  function Bits(bs: seq<bv8>): (r: seq<bool>)
    ensures |r| == 8 * |bs|
  {
    Flat(Rows(bs))
  }

  /** Bit `i` of a string that continues with zeros for ever. */
  predicate BitAt(bits: seq<bool>, i: nat) {
    i < |bits| && bits[i]
  }

  /** 19 bits from position `a`, zero-extended. */
  function Window(bits: seq<bool>, a: nat): (r: seq<bool>)
    ensures |r| == 19
  {
    seq(19, i requires 0 <= i < 19 => BitAt(bits, a + i))
  }

  /** The specification: `n` groups of the Sec_1b bit and the next 19 bits of the hash. */
  function PasswordBits(bits: seq<bool>, sec1b: bool, n: nat): (r: seq<bool>)
    ensures |r| == 20 * n
  {
    if n == 0 then [] else PasswordBits(bits, sec1b, n - 1) + ([sec1b] + Window(bits, 19 * (n - 1)))
  }

  // ---------------------------------------------------------------------------------------------
  // Words and bytes
  // ---------------------------------------------------------------------------------------------

  /** sae_pk_get_be19 */
  function Be19(a: bv8, b: bv8, c: bv8): bv32 {
    ((a as bv32) << 11) | ((b as bv32) << 3) | ((c as bv32) >> 5)
  }

  function WithSec(v: bv32, sec1b: bool): bv32 {
    v | if sec1b then 0x80000 else 0
  }

  lemma WordBits(a: bv8, b: bv8, c: bv8, sec1b: bool, i: nat)
    requires i < 8
    ensures var v := WithSec(Be19(a, b, c), sec1b);
            && Bit20(v, 0) == sec1b
            && Bit20(v, 1 + i) == Bit(a, i)
            && Bit20(v, 9 + i) == Bit(b, i)
            && (i < 3 ==> Bit20(v, 17 + i) == Bit(c, i))
  {
    WordBitsA(a, b, c, sec1b, i);
    WordBitsB(a, b, c, sec1b, i);
    WordBitsC(a, b, c, sec1b);
  }

  /** A word read from three bytes, as a bit string. */
  lemma WordRow(a: bv8, b: bv8, c: bv8, sec1b: bool)
    ensures WordOf(WithSec(Be19(a, b, c), sec1b)) == [sec1b] + Join(BitsOf(a), BitsOf(b), BitsOf(c)[..3])
  {
    WordSlices(a, b, c, WithSec(Be19(a, b, c), sec1b), sec1b);
    var w := WordOf(WithSec(Be19(a, b, c), sec1b));
    assert w == w[..1] + w[1..9] + w[9..17] + w[17..];
  }

  lemma WordSlices(a: bv8, b: bv8, c: bv8, v: bv32, sec1b: bool)
    requires v == WithSec(Be19(a, b, c), sec1b)
    ensures var w := WordOf(v);
            w[..1] == [sec1b] && w[1..9] == BitsOf(a) && w[9..17] == BitsOf(b) && w[17..] == BitsOf(c)[..3]
  {
    var w := WordOf(v);
    forall i | 0 <= i < 8
      ensures w[1 + i] == BitsOf(a)[i] && w[9 + i] == BitsOf(b)[i] && (i < 3 ==> w[17 + i] == BitsOf(c)[i])
      ensures w[0] == sec1b
    {
      WordBits(a, b, c, sec1b, i);
    }
    assert w[1..9] == BitsOf(a);
    assert w[9..17] == BitsOf(b);
    assert w[17..] == BitsOf(c)[..3];
    assert w[0] == sec1b by {
      WordBits(a, b, c, sec1b, 0);
    }
  }

  lemma WordBitsA(a: bv8, b: bv8, c: bv8, sec1b: bool, i: nat)
    requires i < 8
    ensures Bit20(WithSec(Be19(a, b, c), sec1b), 1 + i) == Bit(a, i)
  {
    WordMasksA(a, b, c, if sec1b then 0x80000 else 0);
  }

  lemma WordMasksA(a: bv8, b: bv8, c: bv8, s: bv32)
    requires s == 0x80000 || s == 0
    ensures var v := Be19(a, b, c) | s;
            && (v & 0x40000 != 0) == (a & 0x80 != 0) && (v & 0x20000 != 0) == (a & 0x40 != 0)
            && (v & 0x10000 != 0) == (a & 0x20 != 0) && (v & 0x08000 != 0) == (a & 0x10 != 0)
            && (v & 0x04000 != 0) == (a & 0x08 != 0) && (v & 0x02000 != 0) == (a & 0x04 != 0)
            && (v & 0x01000 != 0) == (a & 0x02 != 0) && (v & 0x00800 != 0) == (a & 0x01 != 0)
  {
  }

  lemma WordBitsB(a: bv8, b: bv8, c: bv8, sec1b: bool, i: nat)
    requires i < 8
    ensures Bit20(WithSec(Be19(a, b, c), sec1b), 9 + i) == Bit(b, i)
  {
  }

  lemma WordBitsC(a: bv8, b: bv8, c: bv8, sec1b: bool)
    ensures var v := WithSec(Be19(a, b, c), sec1b);
            Bit20(v, 0) == sec1b && Bit20(v, 17) == Bit(c, 0) && Bit20(v, 18) == Bit(c, 1) && Bit20(v, 19) == Bit(c, 2)
  {
  }

  /** The byte that a shift by 19 bits makes of two neighbours. */
  function Shift3(a: bv8, b: bv8): bv8 {
    (a << 3) | (b >> 5)
  }

  lemma Shift3Bits(a: bv8, b: bv8, i: nat)
    requires i < 8
    ensures Bit(Shift3(a, b), i) == if i < 5 then Bit(a, i + 3) else Bit(b, i - 5)
  {
  }

  lemma Shift3Row(a: bv8, b: bv8)
    ensures BitsOf(Shift3(a, b)) == BitsOf(a)[3..] + BitsOf(b)[..3]
  {
    forall i | 0 <= i < 8
      ensures BitsOf(Shift3(a, b))[i] == (BitsOf(a)[3..] + BitsOf(b)[..3])[i]
    {
      Shift3Bits(a, b, i);
    }
  }

  function Top8(v: bv32): bv8 { ((v >> 12) & 0xff) as bv8 }
  function Mid8(v: bv32): bv8 { ((v >> 4) & 0xff) as bv8 }
  function Low4(v: bv32): bv8 { ((v << 4) & 0xf0) as bv8 }
  function Top4(v: bv32): bv8 { ((v >> 16) & 0x0f) as bv8 }
  function Next8(v: bv32): bv8 { ((v >> 8) & 0xff) as bv8 }
  function Low8(v: bv32): bv8 { (v & 0xff) as bv8 }

  /** The three bytes of an even round. */
  lemma EvenBits(v: bv32, i: nat)
    requires i < 8
    ensures Bit(Top8(v), i) == Bit20(v, i)
    ensures Bit(Mid8(v), i) == Bit20(v, 8 + i)
    ensures Bit(Low4(v), i) == if i < 4 then Bit20(v, 16 + i) else false
  {
  }

  /** The three bytes of an odd round; `b` is the byte shared with the round before. */
  lemma OddBits(v: bv32, b: bv8, i: nat)
    requires i < 8
    ensures Bit(b | Top4(v), i) == (Bit(b, i) || (i >= 4 && Bit20(v, i - 4)))
    ensures Bit(Next8(v), i) == Bit20(v, 4 + i)
    ensures Bit(Low8(v), i) == Bit20(v, 12 + i)
  {
    SharedBits(v, b, i);
    NextBits(v, i);
  }

  const NIBBLE: seq<bool> := [false, false, false, false]

  lemma EvenRows(v: bv32)
    ensures BitsOf(Top8(v)) == WordOf(v)[..8] && BitsOf(Mid8(v)) == WordOf(v)[8..16]
    ensures BitsOf(Low4(v)) == WordOf(v)[16..] + NIBBLE
  {
    hide Bit, Bit20, Top8, Mid8, Low4;
    forall i | 0 <= i < 8
      ensures BitsOf(Top8(v))[i] == WordOf(v)[i] && BitsOf(Mid8(v))[i] == WordOf(v)[8 + i]
      ensures BitsOf(Low4(v))[i] == (WordOf(v)[16..] + NIBBLE)[i]
    {
      EvenBits(v, i);
      NibbleBehind(v, i);
    }
  }

  lemma NibbleBehind(v: bv32, i: nat)
    requires i < 8
    ensures (WordOf(v)[16..] + NIBBLE)[i] == if i < 4 then Bit20(v, 16 + i) else false
  {
    hide Bit20;
  }

  /** A byte by its bits: a stretch of the word. */
  lemma ByteIsStretch(x: bv8, v: bv32, from: nat)
    requires from <= 12 && forall i :: 0 <= i < 8 ==> BitsOf(x)[i] == WordOf(v)[from..from + 8][i]
    ensures BitsOf(x) == WordOf(v)[from..from + 8]
  {
  }

  /** A byte by its bits: the front of another byte, then the front of the word. */
  lemma ByteIsShared(x: bv8, b: bv8, v: bv32)
    requires BitsOf(b)[4..] == NIBBLE
    requires forall i :: 0 <= i < 8 ==> BitsOf(x)[i] == (BitsOf(b)[i] || (i >= 4 && WordOf(v)[i - 4]))
    ensures BitsOf(x) == BitsOf(b)[..4] + WordOf(v)[..4]
  {
    hide BitsOf, WordOf;
    forall i | 0 <= i < 8
      ensures BitsOf(x)[i] == (BitsOf(b)[..4] + WordOf(v)[..4])[i]
    {
      if i >= 4 {
        assert BitsOf(b)[i] == BitsOf(b)[4..][i - 4] == NIBBLE[i - 4];
      }
    }
  }

  lemma OddRows(v: bv32, b: bv8)
    requires BitsOf(b)[4..] == NIBBLE
    ensures BitsOf(b | Top4(v)) == BitsOf(b)[..4] + WordOf(v)[..4]
    ensures BitsOf(Next8(v)) == WordOf(v)[4..12] && BitsOf(Low8(v)) == WordOf(v)[12..20]
  {
    hide Bit, Bit20, Top4, Next8, Low8;
    forall i | 0 <= i < 8
      ensures BitsOf(b | Top4(v))[i] == (BitsOf(b)[i] || (i >= 4 && WordOf(v)[i - 4]))
      ensures BitsOf(Next8(v))[i] == WordOf(v)[4..12][i] && BitsOf(Low8(v))[i] == WordOf(v)[12..20][i]
    {
      OddBits(v, b, i);
    }
    ByteIsShared(b | Top4(v), b, v);
    ByteIsStretch(Next8(v), v, 4);
    ByteIsStretch(Low8(v), v, 12);
  }

  lemma SharedBits(v: bv32, b: bv8, i: nat)
    requires i < 8
    ensures Bit(b | Top4(v), i) == (Bit(b, i) || (i >= 4 && Bit20(v, i - 4)))
  {
  }

  lemma NextBits(v: bv32, i: nat)
    requires i < 8
    ensures Bit(Next8(v), i) == Bit20(v, 4 + i)
    ensures Bit(Low8(v), i) == Bit20(v, 12 + i)
  {
  }

  // ---------------------------------------------------------------------------------------------
  // Shifting the hash
  // ---------------------------------------------------------------------------------------------

  const NO_BITS: Row := [false, false, false, false, false, false, false, false]

  function RowAt(rows: seq<Row>, k: nat): Row {
    if k < |rows| then rows[k] else NO_BITS
  }

  /** A bit string in bytes, shifted left by two octets and three bits. */
  function Shifted19(rows: seq<Row>): (r: seq<Row>)
    ensures |r| == |rows|
  {
    seq(|rows|, k requires 0 <= k < |rows| => RowAt(rows, k + 2)[3..] + RowAt(rows, k + 3)[..3])
  }

  /** Shifting the bytes moves every bit 19 places. */
  lemma ShiftedBit(rows: seq<Row>, i: nat)
    requires i < 8 * |rows|
    ensures BitAt(Flat(Shifted19(rows)), i) == BitAt(Flat(rows), i + 19)
  {
    hide RowAt;
    var k, r := i / 8, i % 8;
    assert Flat(Shifted19(rows))[i] == (RowAt(rows, k + 2)[3..] + RowAt(rows, k + 3)[..3])[r];
    if r < 5 {
      FlatAt(rows, k + 2, r + 3);
    } else {
      FlatAt(rows, k + 3, r - 5);
    }
  }

  lemma FlatAt(rows: seq<Row>, k: nat, r: nat)
    requires r < 8
    ensures BitAt(Flat(rows), 8 * k + r) == RowAt(rows, k)[r]
  {
    if k < |rows| {
      assert Flat(rows)[8 * k + r] == rows[k][r];
    }
  }

  /** sae_pk_buf_shift_left_19 on the part of the array from `from` on. */
  method ShiftLeft19(buf: array<bv8>, from: nat)
    requires from + 3 <= buf.Length
    modifies buf
    ensures Rows(buf[from..]) == Shifted19(Rows(old(buf[from..])))
  {
    ghost var s := buf[from..];
    var dst, src := from, from + 2;
    while src + 1 < buf.Length
      invariant src == dst + 2 <= buf.Length - 1
      invariant forall x :: from <= x < dst ==> buf[x] == Shift3(s[x - from + 2], s[x - from + 3])
      invariant forall x :: dst <= x < buf.Length ==> buf[x] == s[x - from]
    {
      buf[dst] := Shift3(buf[src], buf[src + 1]);
      dst, src := dst + 1, src + 1;
    }
    ShiftIn(buf[src]);
    buf[dst] := buf[src] << 3;
    buf[dst + 1] := 0;
    buf[dst + 2] := 0;
    ShiftedRows(s, buf[from..]);
  }

  lemma ShiftedRows(s: seq<bv8>, t: seq<bv8>)
    requires |s| == |t| >= 3
    requires forall k :: 0 <= k < |s| - 3 ==> t[k] == Shift3(s[k + 2], s[k + 3])
    requires t[|s| - 3] == Shift3(s[|s| - 1], 0) && t[|s| - 2] == Shift3(0, 0) && t[|s| - 1] == Shift3(0, 0)
    ensures Rows(t) == Shifted19(Rows(s))
  {
    hide Shift3, BitsOf;
    forall k | 0 <= k < |s|
      ensures Rows(t)[k] == Shifted19(Rows(s))[k]
    {
      ShiftedRow(s, t, k);
    }
  }

  /** Behind its last byte the source reads as zeros. */
  function ByteAt(s: seq<bv8>, k: nat): bv8 {
    if k < |s| then s[k] else 0
  }

  lemma ByteRow(s: seq<bv8>, k: nat)
    ensures BitsOf(ByteAt(s, k)) == RowAt(Rows(s), k)
  {
    ZeroRow();
  }

  lemma ShiftedRow(s: seq<bv8>, t: seq<bv8>, k: nat)
    requires k < |s| == |t| && t[k] == Shift3(ByteAt(s, k + 2), ByteAt(s, k + 3))
    ensures Rows(t)[k] == Shifted19(Rows(s))[k]
  {
    hide Shift3, BitsOf, ByteAt, RowAt;
    ByteRow(s, k + 2);
    ByteRow(s, k + 3);
    Shift3Row(ByteAt(s, k + 2), ByteAt(s, k + 3));
  }

  lemma ShiftIn(b: bv8)
    ensures Shift3(b, 0) == b << 3 && Shift3(0, 0) == 0
  {
  }

  lemma ZeroRow()
    ensures BitsOf(0) == NO_BITS
  {
    forall i | 0 <= i < 8
      ensures BitsOf(0)[i] == NO_BITS[i]
    {
    }
  }

  // ---------------------------------------------------------------------------------------------
  // One round
  // ---------------------------------------------------------------------------------------------

  /** The 20 bits of round `j`. */
  function Group(bits: seq<bool>, sec1b: bool, j: nat): (r: seq<bool>)
    ensures |r| == 20
  {
    [sec1b] + Window(bits, 19 * j)
  }

  /** The rows hold `bits` and then only zeros. */
  predicate HoldsRows(rows: seq<Row>, bits: seq<bool>) {
    |bits| <= 8 * |rows| && forall i :: 0 <= i < 8 * |rows| ==> Flat(rows)[i] == BitAt(bits, i)
  }

  /** The bytes hold `bits` and then only zeros. */
  predicate Holds(pw: seq<bv8>, bits: seq<bool>) {
    HoldsRows(Rows(pw), bits)
  }

  /** The remaining hash is the original one `n` bits further on. */
  ghost predicate Advanced(rows: seq<Row>, bits: seq<bool>, n: nat) {
    |bits| == 8 * |rows| && forall i :: 0 <= i < |bits| ==> Flat(rows)[i] == BitAt(bits, i + n)
  }

  lemma NotAdvanced(bs: seq<bv8>)
    ensures Advanced(Rows(bs), Bits(bs), 0)
  {
  }

  lemma AdvanceOnce(rows: seq<Row>, bits: seq<bool>, n: nat)
    requires Advanced(rows, bits, n)
    ensures Advanced(Shifted19(rows), bits, n + 19)
  {
    forall i | 0 <= i < |bits|
      ensures Flat(Shifted19(rows))[i] == BitAt(bits, i + (n + 19))
    {
      ShiftedBit(rows, i);
      if i + 19 < |bits| {
        assert Flat(rows)[i + 19] == BitAt(bits, (i + 19) + n);
      }
    }
  }

  function Join(a: seq<bool>, b: seq<bool>, c: seq<bool>): seq<bool> {
    a + b + c
  }

  lemma FirstRows(rows: seq<Row>, bits: seq<bool>, n: nat)
    requires |rows| >= 3 && Advanced(rows, bits, n)
    ensures Join(rows[0], rows[1], rows[2][..3]) == Window(bits, n)
  {
    var r, w := Join(rows[0], rows[1], rows[2][..3]), Window(bits, n);
    forall i | 0 <= i < 19
      ensures r[i] == w[i]
    {
      assert Flat(rows)[i] == BitAt(bits, i + n);
    }
  }

  lemma WordIsGroup(rest: seq<bv8>, bits: seq<bool>, sec1b: bool, j: nat)
    requires |rest| >= 3 && Advanced(Rows(rest), bits, 19 * j)
    ensures WordOf(WithSec(Be19(rest[0], rest[1], rest[2]), sec1b)) == Group(bits, sec1b, j)
  {
    FirstRows(Rows(rest), bits, 19 * j);
    WordRow(rest[0], rest[1], rest[2], sec1b);
  }

  /** Three new rows from place `d` on; `lead` is how many bits of the first were there before. */
  lemma RoundOnRows(rows: seq<Row>, d: nat, bits: seq<bool>, group: seq<bool>, lead: nat, r0: Row, r1: Row, r2: Row)
    requires HoldsRows(rows, bits) && lead <= 4 && |bits| == 8 * d + lead && d + 2 < |rows| && |group| == 20
    requires Join(r0, r1, r2) == Join(rows[d][..lead], group, NIBBLE[lead..])
    ensures HoldsRows(rows[d := r0][d + 1 := r1][d + 2 := r2], bits + group)
  {
    var rows' := rows[d := r0][d + 1 := r1][d + 2 := r2];
    var three := Join(r0, r1, r2);
    forall i | 0 <= i < 8 * |rows|
      ensures Flat(rows')[i] == BitAt(bits + group, i)
    {
      assert Flat(rows)[i] == BitAt(bits, i);
      ThreeRows(rows, d, r0, r1, r2, i);
      if 8 * d <= i < 8 * d + 24 {
        assert three[i - 8 * d] == BitAt(bits + group, i);
      }
    }
  }

  lemma ThreeRows(rows: seq<Row>, d: nat, r0: Row, r1: Row, r2: Row, i: nat)
    requires d + 2 < |rows| && i < 8 * |rows|
    ensures Flat(rows[d := r0][d + 1 := r1][d + 2 := r2])[i]
         == if 8 * d <= i < 8 * d + 24 then Join(r0, r1, r2)[i - 8 * d] else Flat(rows)[i]
  {
  }

  lemma EvenRound(pw: seq<bv8>, d: nat, bits: seq<bool>, v: bv32)
    requires Holds(pw, bits) && |bits| == 8 * d && d + 2 < |pw|
    ensures Holds(pw[d := Top8(v)][d + 1 := Mid8(v)][d + 2 := Low4(v)], bits + WordOf(v))
  {
    EvenRows(v);
    var r0, r1, r2 := BitsOf(Top8(v)), BitsOf(Mid8(v)), BitsOf(Low4(v));
    var g := WordOf(v);
    assert Join(r0, r1, r2) == Join(Rows(pw)[d][..0], g, NIBBLE[0..]);
    RoundOnRows(Rows(pw), d, bits, g, 0, r0, r1, r2);
    assert Rows(pw[d := Top8(v)][d + 1 := Mid8(v)][d + 2 := Low4(v)]) == Rows(pw)[d := r0][d + 1 := r1][d + 2 := r2];
  }

  /** Behind the bits it holds the output is still zero. */
  lemma RestIsZero(rows: seq<Row>, d: nat, bits: seq<bool>)
    requires HoldsRows(rows, bits) && |bits| == 8 * d + 4 && d < |rows|
    ensures rows[d][4..] == NIBBLE
  {
    forall r | 4 <= r < 8
      ensures !rows[d][r]
    {
      assert Flat(rows)[8 * d + r] == BitAt(bits, 8 * d + r);
    }
  }

  lemma JoinOdd(a: seq<bool>, b: seq<bool>, c: seq<bool>, shared: seq<bool>, g: seq<bool>)
    requires |g| == 20 && |shared| == 4 && a == shared + g[..4] && b == g[4..12] && c == g[12..20]
    ensures Join(a, b, c) == Join(shared, g, NIBBLE[4..])
  {
  }

  lemma OddRound(pw: seq<bv8>, d: nat, bits: seq<bool>, v: bv32)
    requires Holds(pw, bits) && |bits| == 8 * d + 4 && d + 2 < |pw|
    ensures Holds(pw[d := pw[d] | Top4(v)][d + 1 := Next8(v)][d + 2 := Low8(v)], bits + WordOf(v))
  {
    RestIsZero(Rows(pw), d, bits);
    OddRows(v, pw[d]);
    var r0, r1, r2 := BitsOf(pw[d] | Top4(v)), BitsOf(Next8(v)), BitsOf(Low8(v));
    var g := WordOf(v);
    JoinOdd(r0, r1, r2, Rows(pw)[d][..4], g);
    RoundOnRows(Rows(pw), d, bits, g, 4, r0, r1, r2);
    assert Rows(pw[d := pw[d] | Top4(v)][d + 1 := Next8(v)][d + 2 := Low8(v)])
        == Rows(pw)[d := r0][d + 1 := r1][d + 2 := r2];
  }

  // ---------------------------------------------------------------------------------------------
  // The loop
  // ---------------------------------------------------------------------------------------------

  lemma ZeroHoldsNothing(pw: seq<bv8>)
    requires forall i :: 0 <= i < |pw| ==> pw[i] == 0
    ensures Holds(pw, [])
  {
    ZeroRow();
  }

  /** The writes of an odd round. */
  method WriteOdd(pw: array<bv8>, dst: nat, v: bv32, ghost held: seq<bool>) returns (next: nat)
    requires dst + 2 < pw.Length && |held| == 8 * dst + 4 && Holds(pw[..], held)
    modifies pw
    ensures next == dst + 3 && Holds(pw[..], held + WordOf(v))
  {
    ghost var before := pw[..];
    next := dst;
    pw[next] := pw[next] | Top4(v);
    next := next + 1;
    pw[next] := Next8(v);
    next := next + 1;
    pw[next] := Low8(v);
    next := next + 1;
    assert pw[..] == before[dst := before[dst] | Top4(v)][dst + 1 := Next8(v)][dst + 2 := Low8(v)];
    OddRound(before, dst, held, v);
  }

  /** The writes of an even round. */
  method WriteEven(pw: array<bv8>, dst: nat, v: bv32, ghost held: seq<bool>) returns (next: nat)
    requires dst + 2 < pw.Length && |held| == 8 * dst && Holds(pw[..], held)
    modifies pw
    ensures next == dst + 2 && Holds(pw[..], held + WordOf(v))
  {
    ghost var before := pw[..];
    next := dst;
    pw[next] := Top8(v);
    next := next + 1;
    pw[next] := Mid8(v);
    next := next + 1;
    pw[next] := Low4(v);
    assert pw[..] == before[dst := Top8(v)][dst + 1 := Mid8(v)][dst + 2 := Low4(v)];
    EvenRound(before, dst, held, v);
  }

  /** The writing half of a round, by its parity. */
  method WriteGroup(pw: array<bv8>, dst: nat, v: bv32, j: nat, ghost held: seq<bool>) returns (next: nat)
    requires |held| == 20 * j && dst == 20 * j / 8 && 20 * (j + 1) + 4 <= 8 * pw.Length && Holds(pw[..], held)
    modifies pw
    ensures next == 20 * (j + 1) / 8 && Holds(pw[..], held + WordOf(v))
  {
    hide Holds, WordOf;
    ghost var k := j / 2;
    if j % 2 == 1 {
      assert j == 2 * k + 1 && dst == 5 * k + 2;
      next := WriteOdd(pw, dst, v, held);
    } else {
      assert j == 2 * k && dst == 5 * k;
      next := WriteEven(pw, dst, v, held);
    }
  }

  /** The reading half of a round: 19 bits with Sec_1b in front, and the hash moved on. */
  method ReadGroup(hash: array<bv8>, sec: nat, sec1b: bool, ghost bits: seq<bool>, ghost j: nat) returns (v: bv32)
    requires sec + 3 <= hash.Length && Advanced(Rows(hash[sec..]), bits, 19 * j)
    modifies hash
    ensures WordOf(v) == Group(bits, sec1b, j) && Advanced(Rows(hash[sec..]), bits, 19 * (j + 1))
  {
    ghost var rest := hash[sec..];
    v := WithSec(Be19(hash[sec], hash[sec + 1], hash[sec + 2]), sec1b);
    WordIsGroup(rest, bits, sec1b, j);
    ShiftLeft19(hash, sec);
    AdvanceOnce(Rows(rest), bits, 19 * j);
  }

  /**
  The packing loop for any number of rounds that fits the output. Whatever the hash, the output holds
  exactly the specified bits, although odd and even rounds share a byte.
  */
  method PackPasswordBase(hash: array<bv8>, sec: nat, sec1b: bool, rounds: nat, pw: array<bv8>)
    requires hash != pw && sec + 3 <= hash.Length && 20 * rounds + 4 <= 8 * pw.Length
    modifies hash, pw
    ensures Holds(pw[..], PasswordBits(Bits(old(hash[sec..])), sec1b, rounds))
  {
    hide Holds, Advanced, WordOf, Bits;
    ghost var rest, bits := hash[sec..], Bits(hash[sec..]);
    forall i | 0 <= i < pw.Length {
      pw[i] := 0;
    }
    assert hash[sec..] == rest;
    ZeroHoldsNothing(pw[..]);
    NotAdvanced(hash[sec..]);
    var dst, j := 0, 0;
    while j < rounds
      invariant 0 <= j <= rounds && dst == 20 * j / 8
      invariant Advanced(Rows(hash[sec..]), bits, 19 * j)
      invariant Holds(pw[..], PasswordBits(bits, sec1b, j))
    {
      var val20 := ReadGroup(hash, sec, sec1b, bits, j);
      dst := WriteGroup(pw, dst, val20, j, PasswordBits(bits, sec1b, j));
      j := j + 1;
    }
  }

  /** The generator's own call: Sec is 3 or 5, and the hash length follows from the key's group. */
  method GeneratePasswordBase(hash: array<bv8>, hashLen: nat, sec: nat) returns (pw: array<bv8>)
    requires hashLen in {32, 48, 64} && sec in {3, 5} && hash.Length == hashLen
    modifies hash
    ensures fresh(pw) && pw.Length == SAE_MAX_HASH_LEN
    ensures Holds(pw[..], PasswordBits(Bits(old(hash[..])[sec..]), sec == 3, 8 * hashLen / 20))
  {
    pw := new bv8[SAE_MAX_HASH_LEN];
    assert hash[..][sec..] == hash[sec..];
    PackPasswordBase(hash, sec, sec == 3, 8 * hashLen / 20, pw);
  }

  // ---------------------------------------------------------------------------------------------
  // Nothing is lost
  // ---------------------------------------------------------------------------------------------

  /** The bits left when the first of every 20 is dropped. */
  function DropMarkers(bits: seq<bool>, n: nat): (r: seq<bool>)
    requires |bits| == 20 * n
    ensures |r| == 19 * n
  {
    if n == 0 then [] else DropMarkers(bits[..20 * (n - 1)], n - 1) + bits[20 * (n - 1) + 1..]
  }

  /** Without the Sec_1b bits the output is the hash from its skipped prefix on, zero-extended. */
  lemma {:induction false} HashBitsRecovered(bits: seq<bool>, sec1b: bool, n: nat)
    ensures forall i :: 0 <= i < 19 * n ==> DropMarkers(PasswordBits(bits, sec1b, n), n)[i] == BitAt(bits, i)
    ensures forall j :: 0 <= j < n ==> PasswordBits(bits, sec1b, n)[20 * j] == sec1b
  {
    if n > 0 {
      HashBitsRecovered(bits, sec1b, n - 1);
      var all := PasswordBits(bits, sec1b, n);
      assert all[..20 * (n - 1)] == PasswordBits(bits, sec1b, n - 1);
      assert all[20 * (n - 1) + 1..] == Window(bits, 19 * (n - 1));
    }
  }
}
