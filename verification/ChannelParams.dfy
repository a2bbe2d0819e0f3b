/**
The check of channel parameters before a channel switch (hostapd/ctrl_iface.c): its tables of centre
frequencies against one formula. The validity of a puncturing pattern is a parameter.
*/
module ChannelParams {
  /** is_punct_bitmap_valid: bandwidth, index of the primary channel, pattern. */
  type PunctTable = (int, int, int) -> bool

  /** The fields of struct hostapd_freq_params that the check reads or sets. */
  datatype Params = Params(
    freq: int, bandwidth: int, secChannelOffset: int, centerFreq1: int, centerFreq2: int,
    ht: bool, vht: bool, he: bool, eht: bool)

  // ---------------------------------------------------------------------------------------------
  // Bands
  // ---------------------------------------------------------------------------------------------

  /** The division of C, which rounds towards zero. */
  function TruncDiv(a: int, b: int): int
    requires b > 0
  {
    if a >= 0 then a / b else -((-a) / b)
  }

  /** center_idx_to_bw_6ghz, whose argument is a byte: 0 to 4 for 20 to 320 MHz, or -1. */
  function CenterIdxToBw(index: int): (bw: int)
    ensures -1 <= bw <= 4
  {
    var idx := index % 256;
    if idx == 2 || idx % 4 == 1 then 0
    else if idx % 8 == 3 then 1
    else if idx % 16 == 7 then 2
    else if idx % 32 == 15 then 3
    else if idx % 32 == 31 && idx < 192 then 4
    else -1
  }

  predicate Is6GHz(freq: int) {
    5935 <= freq <= 7115 && (freq == 5935 || CenterIdxToBw(TruncDiv(freq - 5950, 5)) >= 0)
  }

  predicate Is5GHz(freq: int) {
    4000 < freq < 5895
  }

  function IndexWidth(bw: int): int
    requires 0 <= bw <= 4
  {
    if bw == 0 then 20 else if bw == 1 then 40 else if bw == 2 then 80 else if bw == 3 then 160 else 320
  }

  /** In the 6 GHz band a given centre must be the centre of a channel of the bandwidth. */
  predicate CenterIn6GHz(v: Params) {
    v.centerFreq1 == 0
    || var bw := CenterIdxToBw(TruncDiv(v.centerFreq1 - (if v.freq == 5935 then 5925 else 5950), 5));
       bw >= 0 && IndexWidth(bw) == v.bandwidth
  }

  /** The capabilities that the band and the capabilities asked for imply. */
  function WithImplied(v: Params): Params {
    if Is6GHz(v.freq) then v.(he := true)
    else if v.he || v.eht then v.(he := true, vht := v.vht || Is5GHz(v.freq), ht := true)
    else v
  }

  // ---------------------------------------------------------------------------------------------
  // The formula
  // ---------------------------------------------------------------------------------------------

  /** How far the centre of the primary 40 MHz pair is above the centre of the lowest 40 MHz block. */
  function PairOffset(v: Params): int {
    v.freq + 10 * v.secChannelOffset - (v.centerFreq1 - v.bandwidth / 2 + 20)
  }

  /** The primary and the secondary channel are one of the 40 MHz blocks the channel is made of. */
  predicate Aligned(v: Params) {
    0 <= PairOffset(v) < v.bandwidth && PairOffset(v) % 40 == 0
  }

  predicate OffsetIsOne(v: Params) {
    v.secChannelOffset == 1 || v.secChannelOffset == -1
  }

  /** What the switch over the bandwidth answers; 0 lets the check go on. */
  function Geometry(v: Params, punct: int): int {
    if v.bandwidth == 0 || v.bandwidth == 20 then
      if (v.centerFreq1 == 0 || v.centerFreq1 == v.freq) && v.centerFreq2 == 0 && v.secChannelOffset == 0 && punct == 0
      then 0 else -1
    else if v.bandwidth == 40 then
      if v.centerFreq2 != 0 || v.secChannelOffset == 0 || punct != 0 then -1
      else if v.centerFreq1 == 0 || (OffsetIsOne(v) && Aligned(v)) then 0 else -1
    else if v.bandwidth == 80 then
      if v.centerFreq1 == 0 || v.secChannelOffset == 0 then 1
      else if !OffsetIsOne(v) then -1
      else if !Aligned(v) then (if v.secChannelOffset == 1 then 1 else -1)
      else if v.centerFreq2 == 0 then 0
      else if punct != 0 then -1
      else if -80 <= v.centerFreq1 - v.centerFreq2 <= 80 then 1 else 0
    else if v.bandwidth == 160 then
      if v.centerFreq1 != 0 && v.centerFreq2 == 0 && OffsetIsOne(v) && Aligned(v) then 0 else -1
    else if v.bandwidth == 320 then
      if v.centerFreq1 == 0 || v.centerFreq2 != 0 || v.secChannelOffset == 0 then -1
      else if OffsetIsOne(v) && !Aligned(v) then -1 else 0
    else -1
  }

  /** `(freq - start_freq) / 20` in 32 unsigned bits, handed on in 16. */
  function PrimaryIndex(v: Params): int {
    (v.freq - (v.centerFreq1 - v.bandwidth / 2)) % 0x1_0000_0000 / 20 % 0x1_0000
  }

  function Puncturing(v: Params, punct: int, valid: PunctTable): int {
    if punct == 0 then 0
    else if !v.eht || 2412 <= v.freq <= 2484 || !valid(v.bandwidth, PrimaryIndex(v), punct) then -1
    else 0
  }

  /** The answer of the check on parameters `v`. */
  function Verdict(v: Params, punct: int, valid: PunctTable): int {
    var w := WithImplied(v);
    if Is6GHz(v.freq) && !CenterIn6GHz(w) then -1
    else if Geometry(w, punct) != 0 then Geometry(w, punct)
    else Puncturing(w, punct, valid)
  }

  // ---------------------------------------------------------------------------------------------
  // What the formula means
  // ---------------------------------------------------------------------------------------------

  /** The lower edge of 40 MHz block `k` of the channel around its centre. */
  function BlockStart(v: Params, k: int): int {
    v.centerFreq1 - v.bandwidth / 2 + 40 * k
  }

  /** The primary and the secondary channel, 20 MHz wide, fill block `k`. */
  predicate PairFills(v: Params, k: int) {
    var a, b := v.freq, v.freq + 20 * v.secChannelOffset;
    && a == BlockStart(v, k) + (if a < b then 10 else 30)
    && b == BlockStart(v, k) + (if a < b then 30 else 10)
  }

  /** The formula says that the primary and the secondary channel fill one of the blocks. */
  lemma AlignedIffBlock(v: Params)
    requires OffsetIsOne(v) && v.bandwidth in {40, 80, 160, 320}
    ensures Aligned(v) <==> exists k :: 0 <= k < v.bandwidth / 40 && PairFills(v, k)
  {
    var d := PairOffset(v);
    if Aligned(v) {
      var k := d / 40;
      assert d == 40 * k;
      assert PairFills(v, k);
    }
    if k :| 0 <= k < v.bandwidth / 40 && PairFills(v, k) {
      assert d == 40 * k;
    }
  }

  /**
  The index given to the puncturing table is the exact place of the primary channel, and the secondary
  channel is the other half of its block.
  */
  lemma PrimaryIndexExact(v: Params)
    requires OffsetIsOne(v) && v.bandwidth in {40, 80, 160, 320} && Aligned(v)
    ensures var p := PrimaryIndex(v);
            && 0 <= p < v.bandwidth / 20
            && v.freq == v.centerFreq1 - v.bandwidth / 2 + 10 + 20 * p
            && (p + v.secChannelOffset) / 2 == p / 2
  {
    var k := PairOffset(v) / 40;
    if v.secChannelOffset == 1 {
      PlaceInRow(v, 2 * k);
    } else {
      PlaceInRow(v, 2 * k + 1);
    }
  }

  lemma PlaceInRow(v: Params, p: int)
    requires 0 <= p < 16 && v.freq - (v.centerFreq1 - v.bandwidth / 2) == 20 * p + 10
    ensures PrimaryIndex(v) == p
  {
  }

  /** The parameters name two segments of 80 MHz that neither overlap nor touch. */
  lemma SegmentsApart(v: Params, punct: int, valid: PunctTable)
    requires Verdict(v, punct, valid) == 0 && v.bandwidth == 80 && v.centerFreq2 != 0
    ensures v.centerFreq1 + 40 < v.centerFreq2 - 40 || v.centerFreq2 + 40 < v.centerFreq1 - 40
    ensures Aligned(v) && punct == 0
  {
  }

  /**
  Accepted parameters with a centre are aligned -- but for 320 MHz, where an offset other than 1 and
  -1 is accepted whatever the centre is.
  */
  lemma AcceptedAlignedIff(v: Params, punct: int, valid: PunctTable)
    requires Verdict(v, punct, valid) == 0
    requires v.bandwidth in {80, 160, 320} || (v.bandwidth == 40 && v.centerFreq1 != 0)
    ensures OffsetIsOne(v) && Aligned(v) <==> v.bandwidth != 320 || OffsetIsOne(v)
  {
  }

  /** In the 5 GHz band every centre is accepted for 320 MHz with such an offset. */
  lemma AnyCenterFor320(v: Params, valid: PunctTable)
    requires v.bandwidth == 320 && v.centerFreq1 != 0 && v.centerFreq2 == 0 && !Is6GHz(v.freq)
    requires v.secChannelOffset != 0 && !OffsetIsOne(v)
    ensures Verdict(v, 0, valid) == 0
  {
  }

  /** Capabilities are only ever added. */
  lemma ImpliedOnlyAdds(v: Params)
    ensures var w := WithImplied(v);
            && (v.ht ==> w.ht) && (v.vht ==> w.vht) && (v.he ==> w.he) && w.eht == v.eht
            && (w.eht ==> w.he) && WithImplied(w) == w
    ensures var w, asked := WithImplied(v), v.he || v.eht;
            && (w.he <==> asked || Is6GHz(v.freq))
            && (w.ht <==> v.ht || (asked && !Is6GHz(v.freq)))
            && (w.vht <==> v.vht || (asked && !Is6GHz(v.freq) && 4000 < v.freq < 5895))
  {
  }

  // ---------------------------------------------------------------------------------------------
  // Exactly which parameters are accepted
  // ---------------------------------------------------------------------------------------------

  /** Primary and secondary channel fill one of the channel's 40 MHz blocks. */
  predicate InBlock(v: Params) {
    exists k :: 0 <= k < v.bandwidth / 40 && PairFills(v, k)
  }

  predicate UnitOffset(v: Params) {
    v.secChannelOffset == 1 || v.secChannelOffset == -1
  }

  /** The parameters describe a channel of their bandwidth. */
  predicate Describes(v: Params, punct: int) {
    match v.bandwidth
    case 40 =>
      && v.centerFreq2 == 0 && v.secChannelOffset != 0 && punct == 0
      && (v.centerFreq1 != 0 ==> UnitOffset(v) && InBlock(v))
    case 80 =>
      && v.centerFreq1 != 0 && UnitOffset(v) && InBlock(v)
      && (v.centerFreq2 != 0 ==>
            punct == 0 && (v.centerFreq1 + 80 < v.centerFreq2 || v.centerFreq2 + 80 < v.centerFreq1))
    case 160 => v.centerFreq1 != 0 && v.centerFreq2 == 0 && UnitOffset(v) && InBlock(v)
    case 320 =>
      && v.centerFreq1 != 0 && v.centerFreq2 == 0 && v.secChannelOffset != 0
      && (UnitOffset(v) ==> InBlock(v))
    case _ =>
      && (v.bandwidth == 0 || v.bandwidth == 20) && (v.centerFreq1 == 0 || v.centerFreq1 == v.freq)
      && v.centerFreq2 == 0 && v.secChannelOffset == 0 && punct == 0
  }

  /** A pattern that is allowed for the place of the primary channel, counted from the lower edge. */
  predicate PunctureOk(v: Params, punct: int, valid: PunctTable) {
    && v.eht && (v.freq < 2412 || v.freq > 2484)
    && if UnitOffset(v) then exists p :: 0 <= p < v.bandwidth / 20 && InPlace(v, p) && valid(v.bandwidth, p, punct)
       else valid(v.bandwidth, PrimaryIndex(v), punct)
  }

  /** The primary channel is the 20 MHz channel number `p` of the wide one. */
  predicate InPlace(v: Params, p: int) {
    v.freq - 10 == v.centerFreq1 - v.bandwidth / 2 + 20 * p
  }

  lemma BlockIff(v: Params)
    requires UnitOffset(v) && v.bandwidth in {40, 80, 160, 320}
    ensures Aligned(v) <==> InBlock(v)
  {
    AlignedIffBlock(v);
  }

  /** The switch over the bandwidth lets just these parameters pass. */
  lemma GeometryIff(v: Params, punct: int)
    ensures Geometry(v, punct) == 0 <==> Describes(v, punct)
  {
    hide Aligned, InBlock;
    if UnitOffset(v) && v.bandwidth in {40, 80, 160, 320} {
      BlockIff(v);
    }
  }

  lemma PunctureIff(v: Params, punct: int, valid: PunctTable)
    requires Describes(v, punct) && punct != 0
    ensures Puncturing(v, punct, valid) == 0 <==> PunctureOk(v, punct, valid)
  {
    hide Aligned, InBlock, PrimaryIndex;
    if UnitOffset(v) {
      BlockIff(v);
      PrimaryIndexExact(v);
      assert InPlace(v, PrimaryIndex(v));
    }
  }

  /** What the check accepts, for all parameters, patterns and tables. */
  predicate Acceptable(v: Params, punct: int, valid: PunctTable) {
    && (Is6GHz(v.freq) ==> CenterIn6GHz(v)) && Describes(v, punct)
    && (punct != 0 ==> PunctureOk(v, punct, valid))
  }

  /** The answer that is 1: 80 MHz whose centres are missing, wrong for offset 1, or too close together. */
  predicate WrongCentre80(v: Params, punct: int) {
    && v.bandwidth == 80 && (Is6GHz(v.freq) ==> CenterIn6GHz(v))
    && if v.centerFreq1 == 0 || v.secChannelOffset == 0 then true
       else if InBlock(v) then
         && UnitOffset(v) && v.centerFreq2 != 0 && punct == 0
         && v.centerFreq1 <= v.centerFreq2 + 80 && v.centerFreq2 <= v.centerFreq1 + 80
       else v.secChannelOffset == 1
  }

  /** Implied capabilities change nothing the geometry looks at. */
  lemma ImpliedKeepsGeometry(v: Params, punct: int, valid: PunctTable)
    ensures var w := WithImplied(v);
            && Geometry(w, punct) == Geometry(v, punct) && CenterIn6GHz(w) == CenterIn6GHz(v)
            && Puncturing(w, punct, valid) == Puncturing(v, punct, valid)
  {
    hide CenterIdxToBw, TruncDiv, Is6GHz, Is5GHz;
  }

  lemma VerdictIff(v: Params, punct: int, valid: PunctTable)
    ensures Verdict(v, punct, valid) == 0 <==> Acceptable(v, punct, valid)
  {
    hide Geometry, Describes, Puncturing, PunctureOk, WithImplied, Is6GHz, CenterIn6GHz;
    ImpliedKeepsGeometry(v, punct, valid);
    GeometryIff(v, punct);
    NoPattern(v, valid);
    if Describes(v, punct) && punct != 0 {
      PunctureIff(v, punct, valid);
    }
  }

  lemma NoPattern(v: Params, valid: PunctTable)
    ensures Puncturing(v, 0, valid) == 0
  {
  }

  lemma Steps320(v: Params)
    requires v.bandwidth == 320
    ensures Aligned(v) <==> PairOffset(v) in {0, 40, 80, 120, 160, 200, 240, 280}
  {
  }

  lemma OtherWidths(v: Params, punct: int)
    requires v.bandwidth !in {0, 20, 40, 80, 160, 320}
    ensures Geometry(v, punct) == -1
  {
  }

  lemma CodeOf80(v: Params, punct: int)
    ensures Geometry(v, punct) in {0, 1, -1}
    ensures (Is6GHz(v.freq) ==> CenterIn6GHz(v)) ==> (Geometry(v, punct) == 1 <==> WrongCentre80(v, punct))
  {
    hide Aligned, InBlock, Is6GHz, CenterIn6GHz;
    if UnitOffset(v) && v.bandwidth == 80 {
      BlockIff(v);
    }
    if !UnitOffset(v) && v.secChannelOffset != 0 {
      NoBlockForOtherOffsets(v);
    }
  }

  /** Two different 20 MHz channels that are not neighbours fill no block. */
  lemma NoBlockForOtherOffsets(v: Params)
    requires !UnitOffset(v) && v.secChannelOffset != 0
    ensures !InBlock(v)
  {
  }

  lemma VerdictCodes(v: Params, punct: int, valid: PunctTable)
    ensures Verdict(v, punct, valid) in {0, 1, -1}
    ensures Verdict(v, punct, valid) == 1 <==> WrongCentre80(v, punct)
  {
    hide Geometry, Puncturing, WithImplied, Is6GHz, CenterIn6GHz, InBlock;
    ImpliedKeepsGeometry(v, punct, valid);
    CodeOf80(v, punct);
    PunctureCodes(v, punct, valid);
  }

  lemma PunctureCodes(v: Params, punct: int, valid: PunctTable)
    ensures Puncturing(v, punct, valid) in {0, -1}
  {
  }

  // ---------------------------------------------------------------------------------------------
  // The channels of the 6 GHz band
  // ---------------------------------------------------------------------------------------------

  /** `c` is the centre of a channel of this width, where the band is divided into channels from 5945 MHz on. */
  predicate IsTile(c: int, width: int) {
    && c >= 5945 + width / 2
    && if width == 320 then (c - 5945 - width / 2) % 160 == 0 && c < 6910
       else width in {20, 40, 80, 160} && (c - 5945 - width / 2) % width == 0
  }

  /** Centres on the 5 MHz grid of the band are those of its channels; 5960 MHz is taken for one of 20 MHz. */
  lemma CentresAreTiles(c: int, bw: int)
    requires 5950 <= c < 5950 + 5 * 256 && c % 5 == 0 && 0 <= bw <= 4
    ensures CenterIdxToBw(TruncDiv(c - 5950, 5)) == bw <==> IsTile(c, IndexWidth(bw)) || (c == 5960 && bw == 0)
  {
    var idx := (c - 5950) / 5;
    assert c == 5950 + 5 * idx;
    FiveFold(idx, 1, 4);
    FiveFold(idx, 3, 8);
    FiveFold(idx, 7, 16);
    FiveFold(idx, 15, 32);
    FiveFold(idx, 31, 32);
    WidthOfIndex(idx, bw);
  }

  lemma FiveFold(idx: nat, a: nat, m: nat)
    requires a < m
    ensures (5 * (idx - a)) % (5 * m) == 0 <==> idx % m == a
  {
    var x, r := idx / m, idx % m;
    assert idx == m * x + r;
    if r == a {
      assert 5 * (idx - a) == 5 * (m * x) == 5 * m * x;
      Multiple(5 * (idx - a), x, 5 * m);
    }
    if (5 * (idx - a)) % (5 * m) == 0 {
      var k := 5 * (idx - a) / (5 * m);
      assert 5 * (idx - a) == 5 * m * k == 5 * (m * k);
      SameQuotient(x, k, m, r, a);
    }
  }

  lemma SameQuotient(x: int, k: int, m: nat, r: nat, a: nat)
    requires r < m && a < m && m * x + r - a == m * k
    ensures r == a
  {
    if k > x {
      AtLeastOnce(m, k - x, k, x);
    } else if k < x {
      AtLeastOnce(m, x - k, x, k);
    }
  }

  lemma AtLeastOnce(m: nat, d: nat, x: int, y: int)
    requires d >= 1 && d == x - y
    ensures m * x - m * y >= m
  {
    assert m * x - m * y == m * d == m * (d - 1) + m;
  }

  lemma Multiple(x: int, k: int, m: int)
    requires m > 0 && x == m * k
    ensures x % m == 0
  {
    var d := k - x / m;
    assert m * d == x % m;
  }

  /** The tests are exclusive: each index has the width of just one of them. */
  lemma WidthOfIndex(idx: nat, bw: int)
    requires idx < 256 && 0 <= bw <= 4
    ensures CenterIdxToBw(idx) == bw <==>
              match bw
              case 0 => idx == 2 || idx % 4 == 1
              case 1 => idx % 8 == 3
              case 2 => idx % 16 == 7
              case 3 => idx % 32 == 15
              case _ => idx % 32 == 31 && idx < 192
  {
    HalfModulus(idx, 4);
    HalfModulus(idx, 8);
    HalfModulus(idx, 16);
  }

  lemma HalfModulus(idx: nat, m: nat)
    requires m > 0
    ensures var r := idx % (2 * m); idx % m == if r < m then r else r - m
  {
    var q, r := idx / (2 * m), idx % (2 * m);
    assert idx == 2 * m * q + r;
    if r < m {
      assert idx == m * (2 * q) + r;
      SameQuotient(idx / m, 2 * q, m, idx % m, r);
    } else {
      assert idx == m * (2 * q + 1) + (r - m);
      SameQuotient(idx / m, 2 * q + 1, m, idx % m, r - m);
    }
  }

  /** A channel is made of two halves of half its width, each a channel too; those of 320 MHz overlap. */
  lemma HalvesAreTiles(c: int, width: int)
    requires IsTile(c, width) && width > 20
    ensures IsTile(c - width / 4, width / 2) && IsTile(c + width / 4, width / 2)
  {
    var half := width / 2;
    if width == 320 {
      var k := (c - 6105) / 160;
      Multiple(c - 6105, k, 160);
      Multiple(c - 6105 + 160, k + 1, 160);
    } else {
      var k := (c - 5945 - half) / width;
      Multiple(c - 5945 - half, 2 * k, half);
      Multiple(c - 5945, 2 * k + 1, half);
    }
  }

  // ---------------------------------------------------------------------------------------------
  // The check
  // ---------------------------------------------------------------------------------------------

  class FreqParams {
    const freq: int
    const bandwidth: int
    const secChannelOffset: int
    const centerFreq1: int
    const centerFreq2: int
    var htEnabled: bool
    var vhtEnabled: bool
    var heEnabled: bool
    var ehtEnabled: bool

    constructor (v: Params)
      ensures View() == v
    {
      freq, bandwidth, secChannelOffset := v.freq, v.bandwidth, v.secChannelOffset;
      centerFreq1, centerFreq2 := v.centerFreq1, v.centerFreq2;
      htEnabled, vhtEnabled, heEnabled, ehtEnabled := v.ht, v.vht, v.he, v.eht;
    }

    function View(): Params
      reads this
    {
      Params(freq, bandwidth, secChannelOffset, centerFreq1, centerFreq2,
             htEnabled, vhtEnabled, heEnabled, ehtEnabled)
    }

    /** The first part: what the band implies. */
    method ApplyBand() returns (ok: bool)
      modifies this
      ensures View() == WithImplied(old(View()))
      ensures ok == (Is6GHz(freq) ==> CenterIn6GHz(View()))
    {
      if Is6GHz(freq) {
        heEnabled := true;
        if centerFreq1 != 0 {
          var idx := if freq == 5935 then TruncDiv(centerFreq1 - 5925, 5) else TruncDiv(centerFreq1 - 5950, 5);
          var bw := CenterIdxToBw(idx);
          if bw < 0 || IndexWidth(bw) != bandwidth {
            return false;
          }
        }
      } else if heEnabled || ehtEnabled {
        heEnabled := true;
        if Is5GHz(freq) {
          vhtEnabled := true;
        }
        htEnabled := true;
      }
      return true;
    }

    method Check20(punct: int) returns (ret: int)
      requires bandwidth == 0 || bandwidth == 20
      ensures ret == Geometry(View(), punct)
    {
      if centerFreq1 != 0 && centerFreq1 != freq {
        return -1;
      }
      if centerFreq2 != 0 || secChannelOffset != 0 {
        return -1;
      }
      if punct != 0 {
        return -1;
      }
      return 0;
    }

    method Check40(punct: int) returns (ret: int)
      requires bandwidth == 40
      ensures ret == Geometry(View(), punct)
      ensures ret == 0 <==> Describes(View(), punct)
    {
      hide Describes, InBlock;
      GeometryIff(View(), punct);
      if centerFreq2 != 0 || secChannelOffset == 0 {
        return -1;
      }
      if punct != 0 {
        return -1;
      }
      if centerFreq1 == 0 {
        return 0;
      }
      if secChannelOffset == 1 {
        if freq + 10 != centerFreq1 {
          return -1;
        }
      } else if secChannelOffset == -1 {
        if freq - 10 != centerFreq1 {
          return -1;
        }
      } else {
        return -1;
      }
      return 0;
    }

    method Check80(punct: int) returns (ret: int)
      requires bandwidth == 80
      ensures ret == Geometry(View(), punct)
      ensures ret == 0 <==> Describes(View(), punct)
    {
      hide Describes, InBlock;
      GeometryIff(View(), punct);
      if centerFreq1 == 0 || secChannelOffset == 0 {
        return 1;
      }
      if secChannelOffset == 1 {
        if freq - 10 != centerFreq1 && freq + 30 != centerFreq1 {
          return 1;
        }
      } else if secChannelOffset == -1 {
        if freq + 10 != centerFreq1 && freq - 30 != centerFreq1 {
          return -1;
        }
      } else {
        return -1;
      }
      if centerFreq2 != 0 && punct != 0 {
        return -1;
      }
      if centerFreq2 != 0 && centerFreq1 - centerFreq2 <= 80 && centerFreq2 - centerFreq1 <= 80 {
        return 1;
      }
      return 0;
    }

    method Check160(punct: int) returns (ret: int)
      requires bandwidth == 160
      ensures ret == Geometry(View(), punct)
      ensures ret == 0 <==> Describes(View(), punct)
    {
      hide Describes, InBlock;
      GeometryIff(View(), punct);
      if centerFreq1 == 0 || centerFreq2 != 0 || secChannelOffset == 0 {
        return -1;
      }
      if secChannelOffset == 1 {
        if freq + 70 != centerFreq1 && freq + 30 != centerFreq1 && freq - 10 != centerFreq1 && freq - 50 != centerFreq1 {
          return -1;
        }
      } else if secChannelOffset == -1 {
        if freq + 50 != centerFreq1 && freq + 10 != centerFreq1 && freq - 30 != centerFreq1 && freq - 70 != centerFreq1 {
          return -1;
        }
      } else {
        return -1;
      }
      return 0;
    }

    method Check320(punct: int) returns (ret: int)
      requires bandwidth == 320
      ensures ret == Geometry(View(), punct)
      ensures ret == 0 <==> Describes(View(), punct)
    {
      hide Describes, InBlock, Aligned;
      Steps320(View());
      GeometryIff(View(), punct);
      if centerFreq1 == 0 || centerFreq2 != 0 || secChannelOffset == 0 {
        return -1;
      }
      if secChannelOffset == 1 {
        if freq + 150 != centerFreq1 && freq + 110 != centerFreq1 && freq + 70 != centerFreq1 && freq + 30 != centerFreq1
           && freq - 10 != centerFreq1 && freq - 50 != centerFreq1 && freq - 90 != centerFreq1
           && freq - 130 != centerFreq1 {
          return -1;
        }
      } else if secChannelOffset == -1 {
        if freq + 130 != centerFreq1 && freq + 90 != centerFreq1 && freq + 50 != centerFreq1 && freq + 10 != centerFreq1
           && freq - 30 != centerFreq1 && freq - 70 != centerFreq1 && freq - 110 != centerFreq1
           && freq - 150 != centerFreq1 {
          return -1;
        }
      }
      return 0;
    }

    /** hostapd_ctrl_check_freq_params */
    method Check(punct: int, valid: PunctTable) returns (ret: int)
      modifies this
      ensures ret == Verdict(old(View()), punct, valid)
      ensures View() == WithImplied(old(View()))
      ensures ret == 0 <==> Acceptable(old(View()), punct, valid)
      ensures ret == 1 <==> WrongCentre80(old(View()), punct)
      ensures ret == 0 || ret == 1 || ret == -1
    {
      hide Acceptable, WrongCentre80, Geometry, CenterIn6GHz, Is6GHz;
      VerdictIff(View(), punct, valid);
      VerdictCodes(View(), punct, valid);
      var ok := ApplyBand();
      if !ok {
        return -1;
      }
      if bandwidth == 0 || bandwidth == 20 {
        ret := Check20(punct);
      } else if bandwidth == 40 {
        ret := Check40(punct);
      } else if bandwidth == 80 {
        ret := Check80(punct);
      } else if bandwidth == 160 {
        ret := Check160(punct);
      } else if bandwidth == 320 {
        ret := Check320(punct);
      } else {
        OtherWidths(View(), punct);
        ret := -1;
      }
      if ret != 0 || punct == 0 {
        return;
      }
      if !ehtEnabled {
        return -1;
      }
      if freq >= 2412 && freq <= 2484 {
        return -1;
      }
      var startFreq := centerFreq1 - bandwidth / 2;
      var index := (freq - startFreq) % 0x1_0000_0000 / 20 % 0x1_0000;
      if !valid(bandwidth, index, punct) {
        return -1;
      }
      return 0;
    }
  }
}
