/**
What the weights computed by the airtime scheduler achieve: exact proportional fairness, the cap on
limited BSSs, and the soundness of dividing the product of counts by the smallest count.
*/
module AirtimeFairness {
  import opened AirtimeModel

  // ---------------------------------------------------------------------------------------------
  // Ideal (unbounded) counterparts of the accumulated figures
  // ---------------------------------------------------------------------------------------------

  /** The factor that BSS `b` contributes to the product. */
  function Factor(b: BssView): (f: nat)
    ensures f >= 1
  {
    if Active(b) then b.numBacklogged else 1
  }

  /** The product of the factors of the first `k` BSSs whose index is not in `skip`. */
  function Prod(bs: seq<BssView>, k: nat, skip: set<nat>): (p: nat)
    requires k <= |bs|
    ensures p >= 1
  {
    if k == 0 then 1
    else if k - 1 in skip then Prod(bs, k - 1, skip)
    else
      MulGe(Factor(bs[k - 1]), Prod(bs, k - 1, skip));
      Factor(bs[k - 1]) * Prod(bs, k - 1, skip)
  }

  function SumSta(bs: seq<BssView>, k: nat): nat
    requires k <= |bs|
  {
    if k == 0 then 0 else SumSta(bs, k - 1) + if Active(bs[k - 1]) then bs[k - 1].numBacklogged else 0
  }

  function SumWeight(bs: seq<BssView>, k: nat): nat
    requires k <= |bs|
  {
    if k == 0 then 0 else SumWeight(bs, k - 1) + if Active(bs[k - 1]) then bs[k - 1].confWeight else 0
  }

  /** The total weight handed to backlogged stations: the sum of count times weight. */
  function Load(plan: Plan, bs: seq<BssView>, k: nat): nat
    requires k <= |bs|
  {
    if k == 0 then 0
    else Load(plan, bs, k - 1)
         + if Active(bs[k - 1]) then bs[k - 1].numBacklogged * BssWeight(plan, bs[k - 1]) else 0
  }

  function MinOf(bs: seq<BssView>): nat {
    TotalsOf(bs, |bs|).min
  }

  /** The ideal product after the division by the smallest count. */
  function Scaled(bs: seq<BssView>): nat {
    var p := Prod(bs, |bs|, {});
    if MinOf(bs) != 0 && AllDivisible(bs, |bs|, MinOf(bs)) then p / MinOf(bs) else p
  }

  /** The accumulated figures fit their 32-bit variables. */
  predicate TotalsFit(bs: seq<BssView>, k: nat)
    requires k <= |bs|
  {
    Prod(bs, k, {}) < U32 && SumSta(bs, k) < U32 && SumWeight(bs, k) < U32
  }

  /** The weight of an active BSS fits, with room for the smallest quantum. */
  predicate WeightFits(bs: seq<BssView>, b: BssView)
    requires Active(b)
  {
    b.confWeight * Scaled(bs) < U32 && b.confWeight * Scaled(bs) / b.numBacklogged < 0x2000_0000
  }

  /** The two sides of the limit check fit. */
  predicate LimitCheckFits(bs: seq<BssView>, b: BssView) {
    b.numBacklogged * SumWeight(bs, |bs|) < U32 && b.confWeight * SumSta(bs, |bs|) < U32
  }

  /** No intermediate result of a periodic update exceeds its 32-bit variable. */
  predicate Fits(bs: seq<BssView>) {
    && TotalsFit(bs, |bs|)
    && (forall i :: 0 <= i < |bs| && Active(bs[i]) ==> WeightFits(bs, bs[i]))
    && (forall i :: 0 <= i < |bs| && Used(bs[i]) && bs[i].limited ==> LimitCheckFits(bs, bs[i]))
  }

  // ---------------------------------------------------------------------------------------------
  // Arithmetic
  // ---------------------------------------------------------------------------------------------

  lemma MulSwap(a: nat, b: nat, c: nat)
    ensures a * (b * c) == b * (a * c)
  {
  }

  lemma DivExact(n: nat, q: nat, x: nat)
    requires n > 0 && x == n * q
    ensures x / n == q && x % n == 0
  {
    var d := q - x / n;
    assert n * d == x % n;
  }

  lemma CancelFactor(n: nat, a: nat, b: nat)
    requires n > 0 && n * a == n * b
    ensures a == b
  {
    DivExact(n, a, n * a);
    DivExact(n, b, n * b);
  }

  lemma CrossMultiply(a: nat, b: nat, w: nat, v: nat, p: nat)
    requires a == w * p && b == v * p
    ensures a * v == b * w
  {
    assert (w * p) * v == (v * p) * w;
  }

  lemma MulAdd(a: nat, b: nat, p: nat)
    ensures (a + b) * p == a * p + b * p
  {
  }

  lemma ScaleBoth(a: nat, n: nat, w: nat, b: nat, m: nat, v: nat, q: nat)
    requires a * n * w == b * m * v
    ensures (a * q) * n * w == (b * q) * m * v
  {
    assert (a * q) * n * w == q * (a * n * w);
    assert (b * q) * m * v == q * (b * m * v);
  }

  // ---------------------------------------------------------------------------------------------
  // The figures the code accumulates are the ideal ones
  // ---------------------------------------------------------------------------------------------

  lemma AccumulateExact(t: Totals, n: nat, w: nat)
    requires n * t.prod < U32 && t.staSum + n < U32 && t.wtSum + w < U32
    ensures var r := Accumulate(t, n, w);
            r.prod == n * t.prod && r.staSum == t.staSum + n && r.wtSum == t.wtSum + w
  {
  }

  lemma {:induction false} TotalsExact(bs: seq<BssView>, k: nat)
    requires k <= |bs| && TotalsFit(bs, k)
    ensures TotalsOf(bs, k).prod == Prod(bs, k, {})
    ensures TotalsOf(bs, k).staSum == SumSta(bs, k)
    ensures TotalsOf(bs, k).wtSum == SumWeight(bs, k)
  {
    if k > 0 {
      var b := bs[k - 1];
      MulGe(Factor(b), Prod(bs, k - 1, {}));
      TotalsExact(bs, k - 1);
      if Active(b) {
        AccumulateExact(TotalsOf(bs, k - 1), b.numBacklogged, b.confWeight);
      }
    }
  }

  /** The smallest count is attained by an active BSS and bounds all of them. */
  lemma {:induction false} MinIsLeast(bs: seq<BssView>, k: nat)
    requires k <= |bs|
    ensures var m := TotalsOf(bs, k).min;
            && (m == 0 <==> forall i :: 0 <= i < k ==> !Active(bs[i]))
            && (m != 0 ==> exists i :: 0 <= i < k && Active(bs[i]) && bs[i].numBacklogged == m)
            && (forall i :: 0 <= i < k && Active(bs[i]) ==> m <= bs[i].numBacklogged)
  {
    if k > 0 {
      MinIsLeast(bs, k - 1);
      var m := TotalsOf(bs, k).min;
      if Active(bs[k - 1]) && m == bs[k - 1].numBacklogged {
        assert Active(bs[k - 1]) && bs[k - 1].numBacklogged == m;
      }
    }
  }

  /** Any one factor can be taken out of the product. */
  lemma {:induction false} TakeFactor(bs: seq<BssView>, k: nat, skip: set<nat>, i: nat)
    requires i < k <= |bs| && i !in skip
    ensures Prod(bs, k, skip) == Factor(bs[i]) * Prod(bs, k, skip + {i})
  {
    if i == k - 1 {
      SkipBeyond(bs, k - 1, skip, i);
    } else {
      TakeFactor(bs, k - 1, skip, i);
      if k - 1 !in skip {
        assert k - 1 !in skip + {i};
        MulSwap(Factor(bs[k - 1]), Factor(bs[i]), Prod(bs, k - 1, skip + {i}));
      }
    }
  }

  lemma {:induction false} SkipBeyond(bs: seq<BssView>, k: nat, skip: set<nat>, i: nat)
    requires k <= i < |bs|
    ensures Prod(bs, k, skip + {i}) == Prod(bs, k, skip)
  {
    if k > 0 {
      SkipBeyond(bs, k - 1, skip, i);
    }
  }

  /** With at least two active BSSs there is another one beside `i`. */
  lemma {:induction false} AnotherActive(bs: seq<BssView>, k: nat, i: nat) returns (j: nat)
    requires k <= |bs| && TotalsOf(bs, k).numBss >= (if i < k && Active(bs[i]) then 2 else 1)
    ensures j < k && j != i && Active(bs[j])
  {
    if Active(bs[k - 1]) && k - 1 != i {
      j := k - 1;
    } else {
      j := AnotherActive(bs, k - 1, i);
    }
  }

  lemma OwnFactorLeft(q: nat, n: nat, c: nat, rest: nat)
    requires q == (n * c) * rest
    ensures q == n * (c * rest)
  {
  }

  lemma OtherFactorLeft(p: nat, n: nat, q: nat, m: nat, rest: nat)
    requires p == n * q && q == m * rest && m > 0
    ensures p / m == n * rest
  {
    MulSwap(n, m, rest);
    DivExact(m, n * rest, p);
  }

  lemma PositiveFactor(p: nat, n: nat, q: nat)
    requires p >= 1 && p == n * q
    ensures q >= 1
  {
  }

  /** With two or more active BSSs each count still divides the product after the shortcut. */
  lemma CountDividesScaled(bs: seq<BssView>, i: nat) returns (q: nat)
    requires i < |bs| && Active(bs[i]) && TotalsOf(bs, |bs|).numBss >= 2
    ensures q >= 1 && Scaled(bs) == bs[i].numBacklogged * q
  {
    var n, k, m := bs[i].numBacklogged, |bs|, MinOf(bs);
    TakeFactor(bs, k, {}, i);
    q := Prod(bs, k, {} + {i});
    MinIsLeast(bs, k);
    if AllDivisible(bs, k, m) {
      var j: nat;
      if n == m {
        // the smallest count is divided out of its own factor: another active count covers it
        j := AnotherActive(bs, k, i);
      } else {
        j :| j < k && Active(bs[j]) && bs[j].numBacklogged == m;
      }
      TakeFactor(bs, k, {} + {i}, j);
      q := TakeOut(Prod(bs, k, {}), n, q, m, bs[j].numBacklogged, Prod(bs, k, {} + {i} + {j}));
    }
  }

  /** The arithmetic of the shortcut: the divisor `m` comes out of `n` itself or of another count. */
  lemma TakeOut(p: nat, n: nat, q: nat, m: nat, other: nat, rest: nat) returns (r: nat)
    requires p >= 1 && m > 0 && p == n * q && q == other * rest
    requires other % m == 0 && (n == m || other == m)
    ensures r >= 1 && p / m == n * r
  {
    PositiveFactor(p, n, q);
    PositiveFactor(q, other, rest);
    if other == m {
      OtherFactorLeft(p, n, q, m, rest);
      r := rest;
    } else {
      var c := other / m;
      DivExact(m, q, p);
      OwnFactorLeft(q, n, c, rest);
      r := c * rest;
      PositiveFactor(q, n, r);
    }
  }

  // ---------------------------------------------------------------------------------------------
  // Main results
  // ---------------------------------------------------------------------------------------------

  lemma PlanIsExact(mode: Mode, bs: seq<BssView>)
    requires Fits(bs)
    ensures var plan := PlanOf(mode, bs); plan.prod == Scaled(bs) && plan.numBss == TotalsOf(bs, |bs|).numBss
  {
    TotalsExact(bs, |bs|);
  }

  lemma WeightFromFactor(w: nat, n: nat, q: nat, p: nat)
    requires w > 0 && n > 0 && q > 0 && p == n * q
    ensures (w * p) % n == 0 && w * p / n == w * q && w * p / n * n == w * p && w * p / n >= 1
  {
    MulSwap(w, n, q);
    DivExact(n, w * q, w * p);
    MulGe(w, q);
  }

  lemma ScaledRawWeight(plan: Plan, w: nat, n: nat)
    requires plan.apply && n != 0 && plan.numBss > 1 && w * plan.prod < U32
    ensures RawWeight(plan, w, n) == w * plan.prod / n
  {
  }

  /** A scaled weight times the station count is exactly the BSS weight times the common product. */
  lemma ExactShare(mode: Mode, bs: seq<BssView>, i: nat)
    requires Fits(bs) && i < |bs| && Active(bs[i])
    requires PlanOf(mode, bs).apply && TotalsOf(bs, |bs|).numBss >= 2
    ensures var wt := BssWeight(PlanOf(mode, bs), bs[i]);
            1 <= wt < 0x2000_0000 && wt * bs[i].numBacklogged == bs[i].confWeight * Scaled(bs)
  {
    PlanIsExact(mode, bs);
    var q := CountDividesScaled(bs, i);
    assert WeightFits(bs, bs[i]);
    ScaledRawWeight(PlanOf(mode, bs), bs[i].confWeight, bs[i].numBacklogged);
    WeightFromFactor(bs[i].confWeight, bs[i].numBacklogged, q, Scaled(bs));
  }

  /** DYNAMIC mode: the shares of any two active BSSs are in exactly the ratio of their weights. */
  lemma ProportionalFairness(bs: seq<BssView>, i: nat, j: nat)
    requires Fits(bs) && i < |bs| && j < |bs| && Active(bs[i]) && Active(bs[j])
    requires TotalsOf(bs, |bs|).numBss >= 2
    ensures var plan := PlanOf(Dynamic, bs);
            BssWeight(plan, bs[i]) * bs[i].numBacklogged * bs[j].confWeight
            == BssWeight(plan, bs[j]) * bs[j].numBacklogged * bs[i].confWeight
  {
    ExactShare(Dynamic, bs, i);
    ExactShare(Dynamic, bs, j);
    var plan := PlanOf(Dynamic, bs);
    CrossMultiply(BssWeight(plan, bs[i]) * bs[i].numBacklogged, BssWeight(plan, bs[j]) * bs[j].numBacklogged,
                  bs[i].confWeight, bs[j].confWeight, Scaled(bs));
  }

  lemma {:induction false} LoadWhenScaled(mode: Mode, bs: seq<BssView>, k: nat)
    requires k <= |bs| && Fits(bs) && PlanOf(mode, bs).apply && TotalsOf(bs, |bs|).numBss >= 2
    ensures Load(PlanOf(mode, bs), bs, k) == SumWeight(bs, k) * Scaled(bs)
  {
    hide Fits, PlanOf, TotalsOf, BssWeight, Scaled;
    if k > 0 {
      LoadWhenScaled(mode, bs, k - 1);
      if Active(bs[k - 1]) {
        ExactShare(mode, bs, k - 1);
        MulAdd(SumWeight(bs, k - 1), bs[k - 1].confWeight, Scaled(bs));
      }
    }
  }

  /** Whenever weights are scaled, an active BSS's share of the total load is exactly its weight share. */
  lemma ShareEqualsWeightShare(mode: Mode, bs: seq<BssView>, i: nat)
    requires Fits(bs) && i < |bs| && Active(bs[i])
    requires PlanOf(mode, bs).apply && TotalsOf(bs, |bs|).numBss >= 2
    ensures var plan := PlanOf(mode, bs);
            BssWeight(plan, bs[i]) * bs[i].numBacklogged * SumWeight(bs, |bs|)
            == bs[i].confWeight * Load(plan, bs, |bs|)
  {
    ExactShare(mode, bs, i);
    LoadWhenScaled(mode, bs, |bs|);
    CrossMultiply(BssWeight(PlanOf(mode, bs), bs[i]) * bs[i].numBacklogged, Load(PlanOf(mode, bs), bs, |bs|),
                  bs[i].confWeight, SumWeight(bs, |bs|), Scaled(bs));
  }

  lemma {:induction false} LoadWithUnitWeights(plan: Plan, bs: seq<BssView>, k: nat)
    requires k <= |bs| && (!plan.apply || plan.numBss <= 1)
    ensures Load(plan, bs, k) == SumSta(bs, k)
  {
    if k > 0 {
      LoadWithUnitWeights(plan, bs, k - 1);
    }
  }

  lemma {:induction false} SingleActive(bs: seq<BssView>, k: nat, i: nat)
    requires i < k <= |bs| && Active(bs[i]) && TotalsOf(bs, k).numBss == 1
    ensures SumSta(bs, k) == bs[i].numBacklogged && SumWeight(bs, k) == bs[i].confWeight
  {
    if i == k - 1 {
      NoneActive(bs, k - 1);
    } else {
      if Active(bs[k - 1]) {
        NoneActive(bs, k - 1);
      }
      SingleActive(bs, k - 1, i);
    }
  }

  lemma {:induction false} NoneActive(bs: seq<BssView>, k: nat)
    requires k <= |bs| && TotalsOf(bs, k).numBss == 0
    ensures SumSta(bs, k) == 0 && SumWeight(bs, k) == 0
    ensures forall i :: 0 <= i < k ==> !Active(bs[i])
  {
    if k > 0 {
      NoneActive(bs, k - 1);
    }
  }

  /**
  The cap of LIMIT mode (and of DYNAMIC mode): a limited active BSS never gets more than its weight
  share of the total load, whether or not scaling was triggered and however many BSSs are active.
  */
  lemma LimitedShareIsCapped(mode: Mode, bs: seq<BssView>, i: nat)
    requires Fits(bs) && i < |bs| && Active(bs[i]) && bs[i].limited
    ensures var plan := PlanOf(mode, bs);
            BssWeight(plan, bs[i]) * bs[i].numBacklogged * SumWeight(bs, |bs|)
            <= bs[i].confWeight * Load(plan, bs, |bs|)
  {
    hide Fits, Load, SumWeight, SumSta, Scaled, TotalsOf, AllDivisible, AnyOverLimit, OverLimit, BssWeight;
    var plan := PlanOf(mode, bs);
    if TotalsOf(bs, |bs|).numBss == 0 {
      NoneActive(bs, |bs|);
    } else if plan.apply && plan.numBss >= 2 {
      ShareEqualsWeightShare(mode, bs, i);
    } else {
      UnitWeight(plan, bs[i]);
      LoadWithUnitWeights(plan, bs, |bs|);
      if plan.numBss == 1 {
        SingleActive(bs, |bs|, i);
      } else {
        UnscaledIsWithinShare(mode, bs, i);
      }
    }
  }

  lemma UnitWeight(plan: Plan, b: BssView)
    requires Active(b) && (!plan.apply || plan.numBss <= 1)
    ensures BssWeight(plan, b) == 1 && BssWeight(plan, b) * b.numBacklogged == b.numBacklogged
  {
  }

  /** When scaling was not triggered the limit check itself bounds a limited BSS's count. */
  lemma UnscaledIsWithinShare(mode: Mode, bs: seq<BssView>, i: nat)
    requires Fits(bs) && i < |bs| && Active(bs[i]) && bs[i].limited && !PlanOf(mode, bs).apply
    ensures bs[i].numBacklogged * SumWeight(bs, |bs|) <= bs[i].confWeight * SumSta(bs, |bs|)
  {
    MinIsLeast(bs, |bs|);
    TotalsExact(bs, |bs|);
    WithinLimit(bs[i], SumWeight(bs, |bs|), SumSta(bs, |bs|));
  }

  lemma WithinLimit(b: BssView, wtSum: nat, staSum: nat)
    requires Used(b) && b.limited && !OverLimit(b, wtSum, staSum)
    requires b.numBacklogged * wtSum < U32 && b.confWeight * staSum < U32
    ensures b.numBacklogged * wtSum <= b.confWeight * staSum
  {
  }

  /**
  The shortcut is sound: whenever all counts are multiples of the smallest, the shortened weight
  times the smallest count is the unshortened weight, and neither division leaves a remainder.
  */
  lemma ShortcutIsSound(bs: seq<BssView>, i: nat)
    requires i < |bs| && Active(bs[i]) && TotalsOf(bs, |bs|).numBss >= 2
    ensures var w, n, p := bs[i].confWeight, bs[i].numBacklogged, Prod(bs, |bs|, {});
            && (w * p) % n == 0 && (w * Scaled(bs)) % n == 0
            && (MinOf(bs) != 0 && AllDivisible(bs, |bs|, MinOf(bs)) ==>
                  MinOf(bs) * (w * Scaled(bs) / n) == w * p / n)
  {
    var w, n, p, m := bs[i].confWeight, bs[i].numBacklogged, Prod(bs, |bs|, {}), MinOf(bs);
    MinIsLeast(bs, |bs|);
    var q := CountDividesScaled(bs, i);
    WeightFromFactor(w, n, q, Scaled(bs));
    TakeFactor(bs, |bs|, {}, i);
    var r := Prod(bs, |bs|, {} + {i});
    WeightFromFactor(w, n, r, p);
    if AllDivisible(bs, |bs|, m) {
      var j: nat :| j < |bs| && Active(bs[j]) && bs[j].numBacklogged == m;
      TakeFactor(bs, |bs|, {}, j);
      DivExact(m, Prod(bs, |bs|, {} + {j}), p);
      ShortenedTimesMin(n, r, m, q, w, p, Scaled(bs));
    }
  }

  lemma ShortenedTimesMin(n: nat, r: nat, m: nat, q: nat, w: nat, p: nat, s: nat)
    requires n > 0 && p == n * r && p == m * s && s == n * q
    ensures m * (w * q) == w * r
  {
    MulSwap(m, n, q);
    CancelFactor(n, r, m * q);
    MulSwap(m, w, q);
  }

  /** Every used BSS gets a weight of at least 1 that fits the signed comparison. */
  lemma WeightAtLeastOne(mode: Mode, bs: seq<BssView>, i: nat)
    requires Fits(bs) && i < |bs| && Used(bs[i])
    ensures 1 <= BssWeight(PlanOf(mode, bs), bs[i]) < 0x2000_0000
  {
    PlanIsExact(mode, bs);
    if Active(bs[i]) && PlanOf(mode, bs).apply && TotalsOf(bs, |bs|).numBss >= 2 {
      ExactShare(mode, bs, i);
    }
  }

  lemma {:induction false} MaxIsMax(mode: Mode, bs: seq<BssView>, k: nat)
    requires Fits(bs) && k <= |bs|
    ensures var plan := PlanOf(mode, bs);
            && (forall i :: 0 <= i < k && Used(bs[i]) ==> BssWeight(plan, bs[i]) <= MaxWeight(plan, bs, k))
            && (MaxWeight(plan, bs, k) > 0 <==> exists i :: 0 <= i < k && Used(bs[i]))
            && MaxWeight(plan, bs, k) < 0x2000_0000
  {
    if k > 0 {
      MaxIsMax(mode, bs, k - 1);
      if Used(bs[k - 1]) {
        WeightAtLeastOne(mode, bs, k - 1);
      }
    }
  }

  lemma QuantumProductFits(max: nat, wt: nat)
    requires 0 < max < 0x2000_0000 && wt <= max
    ensures wt * Quantum(max) < U32
  {
    var t, q := AIRTIME_QUANTUM_TARGET / max, Quantum(max);
    if t > AIRTIME_QUANTUM_MIN {
      MulMono(wt, max, q);
      MulMono(q, t, max);
      assert max * t <= AIRTIME_QUANTUM_TARGET;
    }
  }

  lemma MulMono(a: nat, b: nat, q: nat)
    requires a <= b
    ensures a * q <= b * q && q * a <= q * b
  {
    assert b * q == a * q + (b - a) * q;
  }

  /** The word pushed to the stations of BSS `i`. */
  function PushedWeight(mode: Mode, bs: seq<BssView>, i: nat): nat
    requires i < |bs| && MaxWeight(PlanOf(mode, bs), bs, |bs|) > 0
  {
    var plan := PlanOf(mode, bs);
    Wrap32(BssWeight(plan, bs[i]) * Quantum(MaxWeight(plan, bs, |bs|)))
  }

  lemma PushedIsExact(mode: Mode, bs: seq<BssView>, i: nat)
    requires Fits(bs) && i < |bs| && Used(bs[i])
    ensures var plan := PlanOf(mode, bs); var m := MaxWeight(plan, bs, |bs|);
            m > 0 && PushedWeight(mode, bs, i) == BssWeight(plan, bs[i]) * Quantum(m) >= AIRTIME_QUANTUM_MIN
  {
    MaxIsMax(mode, bs, |bs|);
    WeightAtLeastOne(mode, bs, i);
    var plan := PlanOf(mode, bs);
    var m, wt := MaxWeight(plan, bs, |bs|), BssWeight(plan, bs[i]);
    QuantumProductFits(m, wt);
    MulGe(wt, Quantum(m));
  }

  /**
  The weights that reach the stations keep the exact ratios: scaling by the clamped quantum neither
  overflows nor rounds.
  */
  lemma PushedWeightsKeepRatios(bs: seq<BssView>, i: nat, j: nat)
    requires Fits(bs) && i < |bs| && j < |bs| && Active(bs[i]) && Active(bs[j])
    requires TotalsOf(bs, |bs|).numBss >= 2
    ensures MaxWeight(PlanOf(Dynamic, bs), bs, |bs|) > 0
    ensures PushedWeight(Dynamic, bs, i) * bs[i].numBacklogged * bs[j].confWeight
         == PushedWeight(Dynamic, bs, j) * bs[j].numBacklogged * bs[i].confWeight
  {
    ProportionalFairness(bs, i, j);
    PushedIsExact(Dynamic, bs, i);
    PushedIsExact(Dynamic, bs, j);
    var plan := PlanOf(Dynamic, bs);
    ScaleBoth(BssWeight(plan, bs[i]), bs[i].numBacklogged, bs[j].confWeight,
              BssWeight(plan, bs[j]), bs[j].numBacklogged, bs[i].confWeight,
              Quantum(MaxWeight(plan, bs, |bs|)));
  }

  lemma MulBound(a: nat, b: nat, x: nat, y: nat)
    requires a <= x && b <= y
    ensures a * b <= x * y
  {
    MulMono(a, x, b);
    MulMono(b, y, x);
  }

  lemma TwoProd(bs: seq<BssView>)
    requires |bs| == 2 && Active(bs[0]) && Active(bs[1])
    ensures Prod(bs, 2, {}) == bs[1].numBacklogged * bs[0].numBacklogged
    ensures SumSta(bs, 2) == bs[0].numBacklogged + bs[1].numBacklogged
    ensures SumWeight(bs, 2) == bs[0].confWeight + bs[1].confWeight
  {
    assert Prod(bs, 0, {}) == 1 && Prod(bs, 1, {}) == bs[0].numBacklogged * 1;
    assert SumSta(bs, 0) == 0 && SumSta(bs, 1) == bs[0].numBacklogged;
    assert SumWeight(bs, 0) == 0 && SumWeight(bs, 1) == bs[0].confWeight;
  }

  lemma ScaledAtMostProd(bs: seq<BssView>)
    ensures Scaled(bs) <= Prod(bs, |bs|, {})
  {
    if MinOf(bs) != 0 {
      DivLe(Prod(bs, |bs|, {}), MinOf(bs));
    }
  }

  /** The bounds leave room for real networks: two BSSs with up to 1000 stations and weights up to 500. */
  lemma SmallNetworksFit(bs: seq<BssView>)
    requires |bs| == 2 && Active(bs[0]) && Active(bs[1])
    requires forall i :: 0 <= i < 2 ==> bs[i].numBacklogged <= 1000 && bs[i].confWeight <= 500
    ensures Fits(bs) && TotalsOf(bs, |bs|).numBss == 2
  {
    TwoProd(bs);
    ScaledAtMostProd(bs);
    MulBound(bs[1].numBacklogged, bs[0].numBacklogged, 1000, 1000);
    forall i | 0 <= i < 2
      ensures WeightFits(bs, bs[i]) && LimitCheckFits(bs, bs[i])
    {
      SmallBssFits(bs, bs[i]);
    }
    assert TotalsOf(bs, 0).numBss == 0 && TotalsOf(bs, 1).numBss == 1;
  }

  lemma SmallBssFits(bs: seq<BssView>, b: BssView)
    requires Active(b) && b.numBacklogged <= 1000 && b.confWeight <= 500
    requires Scaled(bs) <= 1_000_000 && SumWeight(bs, |bs|) <= 1000 && SumSta(bs, |bs|) <= 2000
    ensures WeightFits(bs, b) && LimitCheckFits(bs, b)
  {
    hide Scaled, Prod, SumSta, SumWeight;
    MulBound(b.confWeight, Scaled(bs), 500, 1_000_000);
    DivLe(b.confWeight * Scaled(bs), b.numBacklogged);
    MulBound(b.numBacklogged, SumWeight(bs, |bs|), 1000, 1000);
    MulBound(b.confWeight, SumSta(bs, |bs|), 500, 2000);
  }

  // ---------------------------------------------------------------------------------------------
  // When the division traps
  // ---------------------------------------------------------------------------------------------

  lemma ModMul(n: nat, p: nat)
    ensures n * (p % U32) % U32 == n * p % U32
  {
    var q, r := p / U32, p % U32;
    assert p == U32 * q + r;
    MulSwap(n, U32, q);
    assert n * p == U32 * (n * q) + n * r by {
      MulAdd(U32 * q, r, n);
    }
    ModDrop(n * q, n * r);
  }

  lemma ModDrop(a: nat, b: nat)
    ensures (U32 * a + b) % U32 == b % U32
  {
  }

  lemma ModAdd(a: nat, b: nat)
    ensures (a % U32 + b) % U32 == (a + b) % U32
  {
    ModDrop(a / U32, a % U32 + b);
  }

  /** For all counts and weights the accumulators hold the true figures modulo 2^32. */
  lemma {:induction false} TotalsWrap(bs: seq<BssView>, k: nat)
    requires k <= |bs|
    ensures TotalsOf(bs, k).prod == Prod(bs, k, {}) % U32
    ensures TotalsOf(bs, k).staSum == SumSta(bs, k) % U32 && TotalsOf(bs, k).wtSum == SumWeight(bs, k) % U32
  {
    if k > 0 {
      TotalsWrap(bs, k - 1);
      var b := bs[k - 1];
      if Active(b) {
        ModMul(b.numBacklogged, Prod(bs, k - 1, {}));
        ModAdd(SumSta(bs, k - 1), b.numBacklogged);
        ModAdd(SumWeight(bs, k - 1), b.confWeight);
        AccumulateWrap(TotalsOf(bs, k - 1), b.numBacklogged, b.confWeight);
      }
    }
  }

  lemma AccumulateWrap(t: Totals, n: nat, w: nat)
    ensures var r := Accumulate(t, n, w);
            r.prod == n * t.prod % U32 && r.staSum == (t.staSum + n) % U32 && r.wtSum == (t.wtSum + w) % U32
  {
    MulSwap(1, n, t.prod);
  }

  /** The product as the weights see it: wrapped, and divided by the smallest count where that is done. */
  function WrappedProduct(bs: seq<BssView>): nat {
    var p := Prod(bs, |bs|, {}) % U32;
    if MinOf(bs) != 0 && AllDivisible(bs, |bs|, MinOf(bs)) then p / MinOf(bs) else p
  }

  /** Scaling gives BSS `b` a weight that is 0, or negative for the signed comparison. */
  predicate LosesWeight(mode: Mode, bs: seq<BssView>, b: BssView) {
    && PlanOf(mode, bs).apply && TotalsOf(bs, |bs|).numBss >= 2 && b.numBacklogged > 0
    && var wt := Wrap32(b.confWeight * WrappedProduct(bs)) / b.numBacklogged; wt == 0 || wt >= 0x8000_0000
  }

  lemma LosesWeightIff(mode: Mode, bs: seq<BssView>, b: BssView)
    ensures AsInt32(BssWeight(PlanOf(mode, bs), b)) <= 0 <==> LosesWeight(mode, bs, b)
  {
    TotalsWrap(bs, |bs|);
    hide Prod, SumSta, SumWeight, TotalsOf, AllDivisible, AnyOverLimit;
    assert PlanOf(mode, bs).prod == WrappedProduct(bs);
  }

  lemma {:induction false} MaxIsZeroIff(mode: Mode, bs: seq<BssView>, k: nat)
    requires k <= |bs|
    ensures MaxWeight(PlanOf(mode, bs), bs, k) == 0
        <==> forall i :: 0 <= i < k && Used(bs[i]) ==> LosesWeight(mode, bs, bs[i])
  {
    if k > 0 {
      hide LosesWeight, BssWeight, PlanOf;
      MaxIsZeroIff(mode, bs, k - 1);
      LosesWeightIff(mode, bs, bs[k - 1]);
    }
  }

  /**
  The quantum division traps exactly when every used BSS loses its weight -- for all counts and weights.
  Within the bounds of `Fits` none does, so then only the lack of a used BSS traps.
  */
  lemma UpdateTrapsIff(mode: Mode, bs: seq<BssView>)
    ensures MaxWeight(PlanOf(mode, bs), bs, |bs|) == 0
        <==> forall i :: 0 <= i < |bs| && Used(bs[i]) ==> LosesWeight(mode, bs, bs[i])
    ensures Fits(bs) ==>
              (MaxWeight(PlanOf(mode, bs), bs, |bs|) == 0 <==> forall i :: 0 <= i < |bs| ==> !Used(bs[i]))
  {
    MaxIsZeroIff(mode, bs, |bs|);
    if Fits(bs) {
      MaxIsMax(mode, bs, |bs|);
    }
  }

  /** In DYNAMIC mode a product that is a multiple of 2^32 traps the update, if all used BSSs are active. */
  lemma LostProductTraps(bs: seq<BssView>)
    requires Prod(bs, |bs|, {}) % U32 == 0 && TotalsOf(bs, |bs|).numBss >= 2
    requires forall i :: 0 <= i < |bs| && Used(bs[i]) ==> Active(bs[i])
    ensures MaxWeight(PlanOf(Dynamic, bs), bs, |bs|) == 0
  {
    assert WrappedProduct(bs) == 0;
    forall i | 0 <= i < |bs| && Used(bs[i])
      ensures LosesWeight(Dynamic, bs, bs[i])
    {
      assert Active(bs[i]) && bs[i].confWeight * WrappedProduct(bs) == 0;
      assert PlanOf(Dynamic, bs).apply;
      ZeroDivided(bs[i].numBacklogged);
    }
    UpdateTrapsIff(Dynamic, bs);
  }

  lemma ZeroDivided(n: nat)
    requires n > 0
    ensures Wrap32(0) / n == 0
  {
  }

  /** Such a network is small: eight BSSs with 16 backlogged stations each, whatever their weights. */
  lemma EightTimesSixteenTraps(bs: seq<BssView>)
    requires |bs| == 8 && forall i :: 0 <= i < 8 ==> Active(bs[i]) && bs[i].numBacklogged == 16
    ensures !Fits(bs) && MaxWeight(PlanOf(Dynamic, bs), bs, |bs|) == 0
  {
    SixteenStep(bs, 0, 1);
    SixteenStep(bs, 1, 0x10);
    SixteenStep(bs, 2, 0x100);
    SixteenStep(bs, 3, 0x1000);
    SixteenStep(bs, 4, 0x1_0000);
    SixteenStep(bs, 5, 0x10_0000);
    SixteenStep(bs, 6, 0x100_0000);
    SixteenStep(bs, 7, 0x1000_0000);
    hide MaxWeight, PlanOf, LosesWeight;
    assert Prod(bs, 8, {}) == U32;
    LostProductTraps(bs);
  }

  lemma SixteenStep(bs: seq<BssView>, k: nat, p: nat)
    requires k < |bs| && Active(bs[k]) && bs[k].numBacklogged == 16
    requires k == 0 || (Prod(bs, k, {}) == p && TotalsOf(bs, k).numBss == k)
    requires k == 0 ==> p == 1
    ensures Prod(bs, k + 1, {}) == 16 * p && TotalsOf(bs, k + 1).numBss == k + 1
  {
  }

  // ---------------------------------------------------------------------------------------------
  // The heaviest BSS
  // ---------------------------------------------------------------------------------------------

  /** The largest weight is that of a used BSS, and no used BSS has a larger one as a signed number. */
  lemma {:induction false} MaxIsAttained(plan: Plan, bs: seq<BssView>, k: nat)
    requires k <= |bs|
    ensures var m := MaxWeight(plan, bs, k);
            && (forall i :: 0 <= i < k && Used(bs[i]) ==> AsInt32(BssWeight(plan, bs[i])) <= m)
            && (m > 0 ==> exists i :: 0 <= i < k && Used(bs[i]) && BssWeight(plan, bs[i]) == m)
  {
    hide BssWeight;
    if k > 0 {
      MaxIsAttained(plan, bs, k - 1);
    }
  }

  /** The scaled weight by cases on the weight. */
  lemma ScaledByCases(w: nat, q: nat)
    requires w > 0 && IsQuantum(q, w)
    ensures w <= 4 ==> q * w == 256 * w
    ensures 4 < w <= 128 ==> 1024 - w < q * w <= 1024
    ensures w > 128 ==> q * w == 8 * w
  {
    if w <= 4 && q < AIRTIME_QUANTUM_MAX {
      MulBound(q + 1, w, AIRTIME_QUANTUM_MAX, 4);
    } else if w > 128 && q > AIRTIME_QUANTUM_MIN {
      MulBound(9, 129, q, w);
    } else if 4 < w <= 128 {
      MiddleWeight(w, q);
    }
  }

  lemma MiddleWeight(w: nat, q: nat)
    requires 4 < w <= 128 && IsQuantum(q, w)
    ensures 1024 - w < q * w <= 1024
  {
    assert (q + 1) * w == q * w + w;
    MulBound(AIRTIME_QUANTUM_MAX, 5, AIRTIME_QUANTUM_MAX, w);
    MulBound(AIRTIME_QUANTUM_MIN, w, AIRTIME_QUANTUM_MIN, 128);
  }

  lemma SwapFactors(a: nat, b: nat)
    ensures a * b == b * a
  {
  }

  /**
  After an update that does not trap, the heaviest BSS `h` pushes a word that is within one weight below
  the target, or its weight times one of the bounds of the quantum.
  */
  lemma HeaviestNearTarget(mode: Mode, bs: seq<BssView>, respond: nat -> int) returns (h: nat, word: nat)
    requires MaxWeight(PlanOf(mode, bs), bs, |bs|) > 0
    ensures h < |bs| && Used(bs[h])
    ensures var plan := PlanOf(mode, bs); var w := BssWeight(plan, bs[h]);
            && (forall i :: 0 <= i < |bs| && Used(bs[i]) ==> AsInt32(BssWeight(plan, bs[i])) <= w)
            && Pushed(Assigned(plan, bs[h]), Quantum(MaxWeight(plan, bs, |bs|)), respond)
               == PushAll(Assigned(plan, bs[h]), word, respond)
            && word == if w <= 4 then 256 * w else if w <= 128 then word else 8 * w % 0x1_0000_0000
    ensures var w := BssWeight(PlanOf(mode, bs), bs[h]); 4 < w <= 128 ==> 1024 - w < word <= 1024
  {
    hide PlanOf, BssWeight, MaxWeight, Quantum, PushAll, IsQuantum;
    var plan := PlanOf(mode, bs);
    var m := MaxWeight(plan, bs, |bs|);
    MaxIsAttained(plan, bs, |bs|);
    h :| 0 <= h < |bs| && Used(bs[h]) && BssWeight(plan, bs[h]) == m;
    QuantumIsBest(m);
    ScaledByCases(m, Quantum(m));
    SwapFactors(m, Quantum(m));
    word := Wrap32(m * Quantum(m));
  }

  // ---------------------------------------------------------------------------------------------
  // When LIMIT mode scales
  // ---------------------------------------------------------------------------------------------

  lemma OverLimitIff(b: BssView, wtSum: nat, staSum: nat)
    requires b.numBacklogged * wtSum < U32 && b.confWeight * staSum < U32
    ensures OverLimit(b, wtSum, staSum) <==>
              b.started && b.confWeight != 0 && b.limited && b.numBacklogged * wtSum > b.confWeight * staSum
  {
  }

  /**
  LIMIT mode scales exactly when some started, limited BSS has more than its weight's part of all
  backlogged stations.
  */
  lemma LimitScalesIff(bs: seq<BssView>)
    requires Fits(bs)
    ensures PlanOf(Limit, bs).apply <==>
              exists i :: 0 <= i < |bs| && bs[i].started && bs[i].confWeight != 0 && bs[i].limited
                          && bs[i].numBacklogged * SumWeight(bs, |bs|) > bs[i].confWeight * SumSta(bs, |bs|)
  {
    hide SumWeight, SumSta, TotalsOf, AllDivisible, OverLimit;
    var t, wt, sta := TotalsOf(bs, |bs|), SumWeight(bs, |bs|), SumSta(bs, |bs|);
    TotalsExact(bs, |bs|);
    MinIsLeast(bs, |bs|);
    forall i | 0 <= i < |bs| && bs[i].started && bs[i].confWeight != 0 && bs[i].limited
      ensures OverLimit(bs[i], wt, sta) <==> bs[i].numBacklogged * wt > bs[i].confWeight * sta
      ensures t.min == 0 ==> bs[i].numBacklogged == 0 && bs[i].numBacklogged * wt == 0
    {
      OverLimitIff(bs[i], wt, sta);
    }
    forall i | 0 <= i < |bs| && OverLimit(bs[i], wt, sta)
      ensures bs[i].started && bs[i].confWeight != 0 && bs[i].limited
    {
      OverLimitIsLimited(bs[i], wt, sta);
    }
  }

  lemma OverLimitIsLimited(b: BssView, wtSum: nat, staSum: nat)
    requires OverLimit(b, wtSum, staSum)
    ensures b.started && b.confWeight != 0 && b.limited
  {
  }

  /** Without a limited BSS it leaves every weight at 1, for all counts and weights. */
  lemma NoLimitUnitWeights(bs: seq<BssView>)
    requires forall i :: 0 <= i < |bs| && bs[i].started ==> !bs[i].limited
    ensures forall b :: BssWeight(PlanOf(Limit, bs), b) == 1
  {
    hide TotalsOf, AllDivisible;
    assert !PlanOf(Limit, bs).apply;
  }

  // ---------------------------------------------------------------------------------------------
  // Idle BSSs
  // ---------------------------------------------------------------------------------------------

  /** A BSS without backlog has weight 1. */
  lemma IdleHasUnitWeight(mode: Mode, bs: seq<BssView>, b: BssView)
    requires b.numBacklogged == 0
    ensures BssWeight(PlanOf(mode, bs), b) == 1
  {
  }

  /** The list without entry `i`. */
  function Dropped(bs: seq<BssView>, i: nat): (r: seq<BssView>)
    requires i < |bs|
    ensures |r| == |bs| - 1
    ensures forall j :: 0 <= j < |r| ==> r[j] == if j < i then bs[j] else bs[j + 1]
  {
    bs[..i] + bs[i + 1..]
  }

  predicate Idle(b: BssView) {
    !b.started || b.confWeight == 0 || b.numBacklogged == 0
  }

  lemma {:induction false} SameTotalsBelow(bs: seq<BssView>, i: nat, k: nat)
    requires k <= i < |bs|
    ensures TotalsOf(Dropped(bs, i), k) == TotalsOf(bs, k)
  {
    if k > 0 {
      SameTotalsBelow(bs, i, k - 1);
    }
  }

  lemma {:induction false} SameTotals(bs: seq<BssView>, i: nat, k: nat)
    requires i < k <= |bs| && Idle(bs[i])
    ensures TotalsOf(Dropped(bs, i), k - 1) == TotalsOf(bs, k)
  {
    if k - 1 == i {
      SameTotalsBelow(bs, i, i);
    } else {
      SameTotals(bs, i, k - 1);
    }
  }

  /** Who is left, and where. */
  lemma DroppedMembers(bs: seq<BssView>, i: nat, j: nat)
    requires i < |bs| && j < |bs| && j != i
    ensures bs[j] == Dropped(bs, i)[if j < i then j else j - 1]
  {
  }

  /** A BSS that is not started, has no weight or no backlog does not influence what is computed for the others. */
  lemma IdleBssIsIgnored(mode: Mode, bs: seq<BssView>, i: nat)
    requires i < |bs| && Idle(bs[i])
    ensures PlanOf(mode, Dropped(bs, i)) == PlanOf(mode, bs)
  {
    hide TotalsOf, OverLimit;
    var rest := Dropped(bs, i);
    SameTotals(bs, i, |bs|);
    var t := TotalsOf(bs, |bs|);
    assert !OverLimit(bs[i], t.wtSum, t.staSum) by {
      IdleIsWithin(bs[i], t.wtSum, t.staSum);
    }
    forall j | 0 <= j < |bs| && j != i
      ensures bs[j] == rest[if j < i then j else j - 1]
    {
      DroppedMembers(bs, i, j);
    }
    if t.min != 0 {
      assert AllDivisible(bs, |bs|, t.min) == AllDivisible(rest, |rest|, t.min);
      assert AnyOverLimit(bs, |bs|, t.wtSum, t.staSum) == AnyOverLimit(rest, |rest|, t.wtSum, t.staSum);
    }
  }

  lemma IdleIsWithin(b: BssView, wtSum: nat, staSum: nat)
    requires Idle(b)
    ensures !OverLimit(b, wtSum, staSum)
  {
    assert b.numBacklogged == 0 ==> b.numBacklogged * wtSum == 0;
  }
}
