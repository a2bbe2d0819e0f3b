/**
Sequence numbers of the HLR/AuC gateway (hostapd/hlr_auc_gw.c): SQN = SEQ | IND in six big-endian
bytes, as in Annex C.3.2 of 3GPP TS 33.102, with an IND of `indLen` bits.
*/
module HlrSqn {
  import opened Text

  const SQN_BITS: nat := 48
  const SQN_MOD: nat := 0x1_0000_0000_0000

  type IndLen = n: nat | n <= 30

  function Pow2(n: nat): (p: nat)
    ensures p >= 1
  {
    if n == 0 then 1 else 2 * Pow2(n - 1)
  }

  /** `v >> n` */
  function Shr(v: nat, n: nat): nat {
    if n == 0 then v else Shr(v / 2, n - 1)
  }

  /** `v & ((1 << n) - 1)` */
  function Low(v: nat, n: nat): nat {
    if n == 0 then 0 else 2 * Low(v / 2, n - 1) + v % 2
  }

  function Seq(v: nat, indLen: IndLen): nat {
    Shr(v, indLen)
  }

  function Ind(v: nat, indLen: IndLen): nat {
    Low(v, indLen)
  }

  /** The number of sequence numbers before SEQ wraps. */
  function SeqLimit(indLen: IndLen): nat {
    Pow2(SQN_BITS - indLen)
  }

  /** inc_sqn on the 48-bit value: both SEQ and IND grow by one, each in its own field. */
  function Inc(v: nat, indLen: IndLen): (r: nat)
    ensures r < SQN_MOD
  {
    ((Shr(v, indLen) + 1) * Pow2(indLen) + Low(v + 1, indLen)) % SQN_MOD
  }

  // ---------------------------------------------------------------------------------------------
  // The six-byte encoding
  // ---------------------------------------------------------------------------------------------

  type SqnBytes = s: seq<byte> | |s| == 6 witness [0, 0, 0, 0, 0, 0]

  function GetBe16(s: seq<byte>): nat
    requires |s| >= 2
  {
    s[0] as int * 0x100 + s[1] as int
  }

  function GetBe32(s: seq<byte>): nat
    requires |s| >= 4
  {
    s[0] as int * 0x100_0000 + s[1] as int * 0x1_0000 + s[2] as int * 0x100 + s[3] as int
  }

  function Decode(s: SqnBytes): (v: nat)
    ensures v < SQN_MOD
  {
    GetBe32(s) * 0x1_0000 + GetBe16(s[4..])
  }

  function PutBe16(v: nat): seq<byte> {
    [v / 0x100 % 0x100, v % 0x100]
  }

  function PutBe32(v: nat): seq<byte> {
    [v / 0x100_0000 % 0x100, v / 0x1_0000 % 0x100, v / 0x100 % 0x100, v % 0x100]
  }

  function Encode(v: nat): SqnBytes {
    PutBe32(v / 0x1_0000) + PutBe16(v % 0x1_0000)
  }

  lemma GetPutBe32(v: nat)
    requires v < 0x1_0000_0000
    ensures GetBe32(PutBe32(v)) == v
  {
    var a := v / 0x100;
    var b := a / 0x100;
    assert b == v / 0x1_0000 && b / 0x100 == v / 0x100_0000;
    assert b == b / 0x100 * 0x100 + b % 0x100 && a == b * 0x100 + a % 0x100;
  }

  lemma DecodeEncode(v: nat)
    requires v < SQN_MOD
    ensures Decode(Encode(v)) == v
  {
    var hi, lo := v / 0x1_0000, v % 0x1_0000;
    GetPutBe32(hi);
    assert Encode(v)[4..] == PutBe16(lo) && GetBe32(Encode(v)) == GetBe32(PutBe32(hi));
  }

  lemma PutGetBe32(s: seq<byte>)
    requires |s| == 4
    ensures PutBe32(GetBe32(s)) == s
  {
    var v := GetBe32(s);
    assert v / 0x100 == s[0] as int * 0x1_0000 + s[1] as int * 0x100 + s[2] as int;
    assert v / 0x1_0000 == s[0] as int * 0x100 + s[1] as int;
    assert v / 0x100_0000 == s[0] as int;
  }

  lemma EncodeDecode(s: SqnBytes)
    ensures Encode(Decode(s)) == s
  {
    var hi, lo := GetBe32(s), GetBe16(s[4..]);
    assert Decode(s) / 0x1_0000 == hi && Decode(s) % 0x1_0000 == lo;
    assert GetBe32(s[..4]) == hi;
    PutGetBe32(s[..4]);
    assert PutBe16(lo) == s[4..];
    assert s == s[..4] + s[4..];
  }

  /** inc_sqn: overwrites the array with the next sequence number. */
  method IncSqn(sqn: array<byte>, indLen: IndLen)
    requires sqn.Length == 6
    modifies sqn
    ensures sqn[..] == Encode(Inc(Decode(old(sqn[..])), indLen))
  {
    ghost var before := sqn[..];
    var val := GetBe32(sqn[..]) * 0x1_0000 + GetBe16(sqn[4..]);
    assert before[4..] == sqn[4..];
    var q := Shr(val, indLen) + 1;
    var ind := Low(val + 1, indLen);
    val := (q * Pow2(indLen) + ind) % SQN_MOD;
    assert val == Inc(Decode(before), indLen);
    PutSqn(sqn, val);
  }

  /** WPA_PUT_BE32 and WPA_PUT_BE16 into the six bytes. */
  method PutSqn(sqn: array<byte>, val: nat)
    requires sqn.Length == 6
    modifies sqn
    ensures sqn[..] == Encode(val)
  {
    var hi, lo := val / 0x1_0000, val % 0x1_0000;
    sqn[0] := hi / 0x100_0000 % 0x100;
    sqn[1] := hi / 0x1_0000 % 0x100;
    sqn[2] := hi / 0x100 % 0x100;
    sqn[3] := hi % 0x100;
    sqn[4] := lo / 0x100 % 0x100;
    sqn[5] := lo % 0x100;
    assert sqn[..] == PutBe32(hi) + PutBe16(lo);
  }

  // ---------------------------------------------------------------------------------------------
  // What a step does to SEQ and IND
  // ---------------------------------------------------------------------------------------------

  lemma {:induction false} Pow2Add(a: nat, b: nat)
    ensures Pow2(a + b) == Pow2(a) * Pow2(b)
  {
    if a > 0 {
      Pow2Add(a - 1, b);
      assert 2 * (Pow2(a - 1) * Pow2(b)) == (2 * Pow2(a - 1)) * Pow2(b);
    }
  }

  lemma FieldsFillWord(indLen: IndLen)
    ensures SeqLimit(indLen) * Pow2(indLen) == SQN_MOD
  {
    Pow2Add(SQN_BITS - indLen, indLen);
    Pow2Is48();
  }

  lemma Pow2Is48()
    ensures Pow2(48) == SQN_MOD
  {
    assert Pow2(8) == 0x100;
    Pow2Add(8, 8);
    Pow2Add(16, 16);
    Pow2Add(32, 16);
  }

  /** The two fields make up the value. */
  lemma {:induction false} SplitFields(v: nat, n: nat)
    ensures v == Shr(v, n) * Pow2(n) + Low(v, n) && Low(v, n) < Pow2(n)
  {
    if n > 0 {
      SplitFields(v / 2, n - 1);
      FieldsOfTwice(v, Shr(v, n), Pow2(n - 1), Low(v / 2, n - 1));
    }
  }

  lemma FieldsOfTwice(v: nat, q: nat, p: nat, r: nat)
    requires v / 2 == q * p + r && r < p
    ensures v == q * (2 * p) + (2 * r + v % 2) && 2 * r + v % 2 < 2 * p
  {
    TwiceProduct(q, p);
  }

  lemma TwiceProduct(q: nat, p: nat)
    ensures q * (2 * p) == 2 * (q * p)
  {
  }

  lemma HalfOfTwice(h: nat, r: nat)
    ensures (2 * h + r) / 2 == h + r / 2 && (2 * h + r) % 2 == r % 2
  {
  }

  /** Any composition of two fields comes apart into them. */
  lemma {:induction false} ComposedFields(q: nat, r: nat, n: nat)
    requires r < Pow2(n)
    ensures Shr(q * Pow2(n) + r, n) == q && Low(q * Pow2(n) + r, n) == r
  {
    if n > 0 {
      var half := q * Pow2(n - 1);
      TwiceProduct(q, Pow2(n - 1));
      HalfOfTwice(half, r);
      ComposedFields(q, r / 2, n - 1);
    }
  }

  /** The low field is the remainder modulo 2^n. */
  lemma LowIsMod(v: nat, n: nat)
    ensures Low(v, n) == v % Pow2(n)
  {
    SplitFields(v, n);
    RemainderUnique(Pow2(n), Shr(v, n), Low(v, n), v);
  }

  lemma RemainderUnique(p: nat, q: nat, r: nat, v: nat)
    requires p > 0 && v == q * p + r && r < p
    ensures v % p == r
  {
    var d := q - v / p;
    assert d * p == v % p - r;
  }

  lemma {:induction false} LowBound(v: nat, n: nat)
    ensures Low(v, n) < Pow2(n)
  {
    if n > 0 {
      LowBound(v / 2, n - 1);
    }
  }

  lemma {:induction false} LowNext(v: nat, n: nat)
    ensures Low(v + 1, n) == if Low(v, n) + 1 < Pow2(n) then Low(v, n) + 1 else 0
  {
    if n > 0 {
      LowNext(v / 2, n - 1);
      LowBound(v / 2, n - 1);
      if v % 2 == 0 {
        assert (v + 1) / 2 == v / 2 && (v + 1) % 2 == 1;
      } else {
        assert (v + 1) / 2 == v / 2 + 1 && (v + 1) % 2 == 0;
      }
    }
  }

  /** A smaller high field means a smaller value. */
  lemma {:induction false} ShrOrders(a: nat, b: nat, n: nat)
    requires Shr(a, n) < Shr(b, n)
    ensures a < b
  {
    if n > 0 {
      ShrOrders(a / 2, b / 2, n - 1);
    }
  }

  lemma {:induction false} ShrBelow(v: nat, n: nat, m: nat)
    requires n <= m && v < Pow2(m)
    ensures Shr(v, n) < Pow2(m - n)
  {
    if n > 0 {
      ShrBelow(v / 2, n - 1, m - 1);
    }
  }

  lemma FieldsBelow(a: nat, lim: nat, p: nat, r: nat)
    requires a < lim && r < p
    ensures a * p + r < lim * p
  {
    assert lim * p == (lim - a - 1) * p + a * p + p;
  }

  /** SEQ of a 48-bit value is below its limit. */
  lemma SeqBelowLimit(v: nat, indLen: IndLen)
    requires v < SQN_MOD
    ensures Seq(v, indLen) < SeqLimit(indLen)
  {
    Pow2Is48();
    ShrBelow(v, indLen, SQN_BITS);
  }

  /** One step adds 1 to SEQ modulo its limit and 1 to IND modulo 2^indLen, independently. */
  lemma IncFields(v: nat, indLen: IndLen)
    requires v < SQN_MOD
    ensures Ind(Inc(v, indLen), indLen) == Ind(v + 1, indLen)
    ensures Seq(Inc(v, indLen), indLen)
            == if Seq(v, indLen) + 1 < SeqLimit(indLen) then Seq(v, indLen) + 1 else 0
  {
    IncValue(v, indLen);
    LowBound(v + 1, indLen);
    if Seq(v, indLen) + 1 < SeqLimit(indLen) {
      ComposedFields(Seq(v, indLen) + 1, Ind(v + 1, indLen), indLen);
    } else {
      SmallFields(Ind(v + 1, indLen), indLen);
    }
  }

  lemma SmallFields(r: nat, n: nat)
    requires r < Pow2(n)
    ensures Shr(r, n) == 0 && Low(r, n) == r
  {
    ComposedFields(0, r, n);
  }

  /** The next value, with the wrap made explicit. */
  lemma IncValue(v: nat, indLen: IndLen)
    requires v < SQN_MOD
    ensures Inc(v, indLen)
            == if Seq(v, indLen) + 1 < SeqLimit(indLen) then (Seq(v, indLen) + 1) * Pow2(indLen) + Ind(v + 1, indLen)
               else Ind(v + 1, indLen)
  {
    FieldsFillWord(indLen);
    SeqBelowLimit(v, indLen);
    LowBound(v + 1, indLen);
    WrapWord(Seq(v, indLen) + 1, Ind(v + 1, indLen), Pow2(indLen), SeqLimit(indLen));
  }

  lemma WrapWord(q: nat, r: nat, p: nat, lim: nat)
    requires lim * p == SQN_MOD && q <= lim && r < p && lim > 0
    ensures (q * p + r) % SQN_MOD == if q < lim then q * p + r else r
  {
    FieldsBelow(0, lim, p, r);
    if q < lim {
      FieldsBelow(q, lim, p, r);
    }
  }

  /** The next sequence number is greater exactly when SEQ has not reached its last value. */
  lemma IncGrowsIffBelowLimit(v: nat, indLen: IndLen)
    requires v < SQN_MOD
    ensures Inc(v, indLen) > v <==> Seq(v, indLen) + 1 < SeqLimit(indLen)
  {
    IncFields(v, indLen);
    SeqBelowLimit(v, indLen);
    assert SeqLimit(indLen) == 2 * Pow2(SQN_BITS - indLen - 1);
    if Seq(v, indLen) + 1 < SeqLimit(indLen) {
      ShrOrders(v, Inc(v, indLen), indLen);
    } else {
      ShrOrders(Inc(v, indLen), v, indLen);
    }
  }

  /** The value after `k` steps. */
  function IncTimes(v: nat, indLen: IndLen, k: nat): (r: nat)
    ensures v < SQN_MOD ==> r < SQN_MOD
  {
    if k == 0 then v else Inc(IncTimes(v, indLen, k - 1), indLen)
  }

  /** After `k` steps short of the wrap SEQ has grown by exactly `k`, and IND by `k` modulo 2^indLen. */
  lemma {:induction false} IncTimesFields(v: nat, indLen: IndLen, k: nat)
    requires v < SQN_MOD && Seq(v, indLen) + k < SeqLimit(indLen)
    ensures Seq(IncTimes(v, indLen, k), indLen) == Seq(v, indLen) + k
    ensures Ind(IncTimes(v, indLen, k), indLen) == Ind(v + k, indLen)
  {
    if k > 0 {
      IncTimesFields(v, indLen, k - 1);
      var before := IncTimes(v, indLen, k - 1);
      IncFields(before, indLen);
      LowNext(before, indLen);
      LowNext(v + k - 1, indLen);
    }
  }
}
