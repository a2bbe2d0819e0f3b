/**
The airtime scheduler of hostapd (src/ap/airtime_policy.c).

A periodic update counts the backlogged stations of every BSS, derives one integer weight per BSS
from those counts, scales it by a quantum and pushes it to the stations through a driver call that
is skipped when the cached weight already matches.

The state lives in the classes `Bss` and `Interface`; every method is proved against a function on
the value `BssView`. C's 32-bit unsigned arithmetic is written out with `Wrap32`.
*/
module AirtimeModel {
  const AIRTIME_BACKLOG_EXPIRY_FACTOR: nat := 2500
  const AIRTIME_QUANTUM_MIN: nat := 8
  const AIRTIME_QUANTUM_MAX: nat := 256
  const AIRTIME_QUANTUM_TARGET: nat := 1024
  const USEC_PER_SEC: nat := 1_000_000
  const U32: nat := 0x1_0000_0000

  function Wrap32(x: nat): nat {
    x % U32
  }

  /** The conversion of an `unsigned int` to `int`. */
  function AsInt32(u: nat): int
    requires u < U32
  {
    if u < 0x8000_0000 then u else u - U32
  }

  type Mac = nat

  datatype Mode = Off | Static | Dynamic | Limit

  datatype RelTime = RelTime(sec: int, usec: int)

  /** What one query of a station's queue returned. */
  datatype ReadResult = ReadFailed | ReadOk(backlogBytes: nat)

  datatype Station = Station(addr: Mac, airtimeWeight: nat, backloggedUntil: RelTime)

  datatype DriverCall = DriverCall(addr: Mac, weight: nat)

  /** The driver's side: the weights in force, and the log of the calls made to it. */
  datatype Driver = Driver(weights: map<Mac, nat>, calls: seq<DriverCall>)

  /** A BSS as a value: its configuration, its stations, and the driver's side of their weights. */
  datatype BssView = BssView(
    started: bool, confWeight: nat, limited: bool,
    stas: seq<Station>, numBacklogged: nat, airtimeWeight: nat,
    driver: Driver)

  // ---------------------------------------------------------------------------------------------
  // Backlog timer
  // ---------------------------------------------------------------------------------------------

  predicate Before(a: RelTime, b: RelTime) {
    a.sec < b.sec || (a.sec == b.sec && a.usec < b.usec)
  }

  /** The length of the hysteresis window in microseconds, computed in 32 bits as the code does. */
  function Window(interval: nat): nat {
    Wrap32(interval * AIRTIME_BACKLOG_EXPIRY_FACTOR)
  }

  function Expiry(now: RelTime, interval: nat): RelTime {
    var usec := now.usec + Window(interval);
    if usec < USEC_PER_SEC then RelTime(now.sec, usec)
    else RelTime(now.sec + usec / USEC_PER_SEC, usec % USEC_PER_SEC)
  }

  /** A station after one poll. */
  function Polled(s: Station, interval: nat, now: RelTime, r: ReadResult): Station {
    if r.ReadOk? && r.backlogBytes > 0 then s.(backloggedUntil := Expiry(now, interval)) else s
  }

  /** Whether a station that has just been polled is counted. */
  predicate Counts(s: Station, now: RelTime, r: ReadResult) {
    r.ReadOk? && Before(now, s.backloggedUntil)
  }

  function PollAll(stas: seq<Station>, interval: nat, now: RelTime, reads_: Mac -> ReadResult): seq<Station> {
    seq(|stas|, i requires 0 <= i < |stas| => Polled(stas[i], interval, now, reads_(stas[i].addr)))
  }

  /** How many of the first `k` stations of a polled list are counted. */
  function CountBacklogged(stas: seq<Station>, k: nat, now: RelTime, reads_: Mac -> ReadResult): nat
    requires k <= |stas|
  {
    if k == 0 then 0
    else
      CountBacklogged(stas, k - 1, now, reads_)
      + if Counts(stas[k - 1], now, reads_(stas[k - 1].addr)) then 1 else 0
  }

  /** A BSS after its stations have been polled and counted. */
  function Counted(v: BssView, interval: nat, now: RelTime, reads_: Mac -> ReadResult): BssView {
    var stas := PollAll(v.stas, interval, now, reads_);
    v.(stas := stas, numBacklogged := CountBacklogged(stas, |stas|, now, reads_))
  }

  // ---------------------------------------------------------------------------------------------
  // Weight cache
  // ---------------------------------------------------------------------------------------------

  /** Station `k` after an attempt to give it `weight`; `respond` is the driver's answer per call. */
  function Push(v: BssView, k: nat, weight: nat, respond: nat -> int): BssView
    requires k < |v.stas|
  {
    var s := v.stas[k];
    if weight == s.airtimeWeight then v
    else
      var calls := v.driver.calls + [DriverCall(s.addr, weight)];
      if respond(|v.driver.calls|) != 0 then v.(driver := v.driver.(calls := calls))
      else v.(driver := Driver(v.driver.weights[s.addr := weight], calls),
              stas := v.stas[k := s.(airtimeWeight := weight)])
  }

  /** The first `k` stations of the list after `weight` has been pushed to each in turn. */
  function PushFirst(v: BssView, k: nat, weight: nat, respond: nat -> int): (r: BssView)
    requires k <= |v.stas|
    ensures |r.stas| == |v.stas|
    ensures forall i :: 0 <= i < |v.stas| ==> r.stas[i].addr == v.stas[i].addr
    ensures forall i :: k <= i < |v.stas| ==> r.stas[i] == v.stas[i]
  {
    if k == 0 then v else Push(PushFirst(v, k - 1, weight, respond), k - 1, weight, respond)
  }

  function PushAll(v: BssView, weight: nat, respond: nat -> int): BssView {
    PushFirst(v, |v.stas|, weight, respond)
  }

  /** The configured weight of a station address: first match in the list, else the BSS default. */
  function WeightForSta(list: seq<(Mac, nat)>, default_: nat, addr: Mac): (w: nat)
    ensures (forall k :: 0 <= k < |list| ==> list[k].0 != addr) ==> w == default_
    ensures forall k :: 0 <= k < |list| && list[k].0 == addr && (forall j :: 0 <= j < k ==> list[j].0 != addr) ==>
              w == list[k].1
  {
    if list == [] then default_
    else if list[0].0 == addr then list[0].1
    else WeightForSta(list[1..], default_, addr)
  }

  // ---------------------------------------------------------------------------------------------
  // Weight computation
  // ---------------------------------------------------------------------------------------------

  predicate Used(b: BssView) {
    b.started && b.confWeight != 0
  }

  predicate Active(b: BssView) {
    Used(b) && b.numBacklogged > 0
  }

  /** The figures accumulated over the active BSSs; `min` is 0 when there is none. */
  datatype Totals = Totals(min: nat, prod: nat, staSum: nat, wtSum: nat, numBss: nat)

  function Accumulate(t: Totals, n: nat, w: nat): Totals {
    Totals(if t.min == 0 || n < t.min then n else t.min,
           Wrap32(t.prod * n), Wrap32(t.staSum + n), Wrap32(t.wtSum + w), t.numBss + 1)
  }

  /** The totals of the first `k` BSSs. */
  function TotalsOf(bs: seq<BssView>, k: nat): Totals
    requires k <= |bs|
  {
    if k == 0 then Totals(0, 1, 0, 0, 0)
    else if Active(bs[k - 1]) then
      Accumulate(TotalsOf(bs, k - 1), bs[k - 1].numBacklogged, bs[k - 1].confWeight)
    else TotalsOf(bs, k - 1)
  }

  /** Every active count among the first `k` BSSs is a multiple of `m`. */
  predicate AllDivisible(bs: seq<BssView>, k: nat, m: nat)
    requires k <= |bs| && m > 0
  {
    forall i :: 0 <= i < k && Active(bs[i]) ==> bs[i].numBacklogged % m == 0
  }

  /** BSS `b` is marked as limited and would get more than its share from unit weights. */
  predicate OverLimit(b: BssView, wtSum: nat, staSum: nat) {
    Used(b) && b.limited && Wrap32(b.numBacklogged * wtSum) > Wrap32(b.confWeight * staSum)
  }

  predicate AnyOverLimit(bs: seq<BssView>, k: nat, wtSum: nat, staSum: nat)
    requires k <= |bs|
  {
    exists i :: 0 <= i < k && OverLimit(bs[i], wtSum, staSum)
  }

  /** What the first two loops decide: whether to scale, with which product, over how many BSSs. */
  datatype Plan = Plan(apply: bool, prod: nat, numBss: nat)

  function PlanOf(mode: Mode, bs: seq<BssView>): Plan {
    var t := TotalsOf(bs, |bs|);
    if t.min == 0 then Plan(mode == Dynamic, t.prod, t.numBss)
    else Plan(mode == Dynamic || AnyOverLimit(bs, |bs|, t.wtSum, t.staSum),
              if AllDivisible(bs, |bs|, t.min) then t.prod / t.min else t.prod,
              t.numBss)
  }

  lemma MulGe(n: nat, q: nat)
    requires n > 0
    ensures n * q >= q
  {
    if n > 1 {
      MulGe(n - 1, q);
      assert n * q == (n - 1) * q + q;
    }
  }

  lemma DivLe(a: nat, n: nat)
    requires n > 0
    ensures 0 <= a / n <= a
  {
    assert a == n * (a / n) + a % n;
    MulGe(n, a / n);
  }

  /** The weight computed for a used BSS of weight `w` with `n` stations, as a 32-bit word. */
  function RawWeight(plan: Plan, w: nat, n: nat): (wt: nat)
    ensures wt < U32
  {
    if plan.apply && n != 0 && plan.numBss > 1 then
      DivLe(Wrap32(w * plan.prod), n);
      Wrap32(w * plan.prod) / n
    else 1
  }

  function BssWeight(plan: Plan, b: BssView): (wt: nat)
    ensures wt < U32
  {
    RawWeight(plan, b.confWeight, b.numBacklogged)
  }

  /** The largest weight, compared as the signed `int` the code keeps it in. */
  function MaxWeight(plan: Plan, bs: seq<BssView>, k: nat): (m: nat)
    requires k <= |bs|
  {
    if k == 0 then 0
    else
      var m := MaxWeight(plan, bs, k - 1);
      if Used(bs[k - 1]) && AsInt32(BssWeight(plan, bs[k - 1])) > m
      then AsInt32(BssWeight(plan, bs[k - 1])) else m
  }

  function Quantum(maxWt: nat): nat
    requires maxWt > 0
  {
    var q := AIRTIME_QUANTUM_TARGET / maxWt;
    if q < AIRTIME_QUANTUM_MIN then AIRTIME_QUANTUM_MIN
    else if q > AIRTIME_QUANTUM_MAX then AIRTIME_QUANTUM_MAX
    else q
  }

  /** The factor that brings weight `w` closest below the target, within its two bounds. */
  predicate IsQuantum(q: nat, w: nat) {
    && AIRTIME_QUANTUM_MIN <= q <= AIRTIME_QUANTUM_MAX
    && (q == AIRTIME_QUANTUM_MIN || q * w <= AIRTIME_QUANTUM_TARGET)
    && (q == AIRTIME_QUANTUM_MAX || (q + 1) * w > AIRTIME_QUANTUM_TARGET)
  }

  lemma FloorOfTarget(w: nat)
    requires w > 0
    ensures var q := AIRTIME_QUANTUM_TARGET / w; q * w <= AIRTIME_QUANTUM_TARGET < (q + 1) * w
  {
  }

  lemma ProductGrows(a: nat, b: nat, w: nat)
    requires a <= b
    ensures a * w <= b * w
  {
  }

  lemma QuantumIsBest(w: nat)
    requires w > 0
    ensures IsQuantum(Quantum(w), w)
  {
    var q := AIRTIME_QUANTUM_TARGET / w;
    FloorOfTarget(w);
    if q < AIRTIME_QUANTUM_MIN {
      ProductGrows(q + 1, AIRTIME_QUANTUM_MIN + 1, w);
    } else if q > AIRTIME_QUANTUM_MAX {
      ProductGrows(AIRTIME_QUANTUM_MAX, q, w);
    }
  }

  /** There is only one such factor. */
  lemma QuantumUnique(q: nat, r: nat, w: nat)
    requires w > 0 && IsQuantum(q, w) && IsQuantum(r, w)
    ensures q == r
  {
    if q < r {
      ProductGrows(q + 1, r, w);
    } else if r < q {
      ProductGrows(r + 1, q, w);
    }
  }

  /** A poll of one BSS: the clock value and the answers of the driver. */
  datatype Poll = Poll(now: RelTime, reads_: Mac -> ReadResult)

  function CountUsed(v: BssView, interval: nat, p: Poll): BssView {
    if Used(v) then Counted(v, interval, p.now, p.reads_) else v
  }

  function CountAll(bs: seq<BssView>, interval: nat, polls: seq<Poll>): seq<BssView>
    requires |polls| == |bs|
  {
    seq(|bs|, i requires 0 <= i < |bs| => CountUsed(bs[i], interval, polls[i]))
  }

  function Assigned(plan: Plan, b: BssView): BssView {
    if Used(b) then b.(airtimeWeight := BssWeight(plan, b)) else b
  }

  function AssignAll(plan: Plan, bs: seq<BssView>): seq<BssView> {
    seq(|bs|, i requires 0 <= i < |bs| => Assigned(plan, bs[i]))
  }

  function Pushed(b: BssView, quantum: nat, respond: nat -> int): BssView {
    if Used(b) then PushAll(b, Wrap32(b.airtimeWeight * quantum), respond) else b
  }

  /** Nothing is done to a BSS that is not started or has no weight. */
  lemma UnusedStay(bs: seq<BssView>, interval: nat, polls: seq<Poll>, plan: Plan)
    requires |polls| == |bs|
    ensures |CountAll(bs, interval, polls)| == |AssignAll(plan, CountAll(bs, interval, polls))| == |bs|
    ensures forall i :: 0 <= i < |bs| && (!bs[i].started || bs[i].confWeight == 0) ==>
              && AssignAll(plan, CountAll(bs, interval, polls))[i] == bs[i]
              && forall q: nat, respond :: Pushed(Assigned(plan, CountAll(bs, interval, polls)[i]), q, respond) == bs[i]
  {
  }

  lemma IntervalSplit(interval: nat)
    ensures interval % 1000 * 1000 < USEC_PER_SEC
    ensures interval / 1000 * USEC_PER_SEC + interval % 1000 * 1000 == 1000 * interval
  {
  }

  /** What a run of the periodic update ended with. */
  datatype TickEnd = DividedByZero | NotRearmed | Rearmed(sec: nat, usec: nat)

  function RearmEnd(interval: nat): TickEnd {
    if interval == 0 then NotRearmed else Rearmed(interval / 1000, (interval % 1000) * 1000)
  }

  // ---------------------------------------------------------------------------------------------
  // The imperative program
  // ---------------------------------------------------------------------------------------------

  method SetNewBacklogTime(interval: nat, now: RelTime) returns (until: RelTime)
    ensures until == Expiry(now, interval)
    ensures now.usec >= 0 ==> 0 <= until.usec < USEC_PER_SEC
  {
    until := now;
    until := until.(usec := until.usec + Window(interval));
    ghost var start := until.usec;
    while until.usec >= USEC_PER_SEC
      invariant until.sec >= now.sec
      invariant start == until.usec + (until.sec - now.sec) * USEC_PER_SEC
      invariant until.sec > now.sec ==> until.usec >= 0
      decreases until.usec
    {
      until := RelTime(until.sec + 1, until.usec - USEC_PER_SEC);
    }
    if start >= USEC_PER_SEC {
      QuotientUnique(start, until.sec - now.sec, until.usec);
    }
  }

  lemma QuotientUnique(x: int, q: int, r: int)
    requires x == r + q * USEC_PER_SEC && 0 <= r < USEC_PER_SEC
    ensures x / USEC_PER_SEC == q && x % USEC_PER_SEC == r
  {
  }

  method GetAirtimeQuantum(maxWt: nat) returns (quantum: nat)
    requires maxWt > 0
    ensures quantum == Quantum(maxWt)
    ensures AIRTIME_QUANTUM_MIN <= quantum <= AIRTIME_QUANTUM_MAX
    ensures quantum != AIRTIME_QUANTUM_MIN ==> quantum * maxWt <= AIRTIME_QUANTUM_TARGET
    ensures quantum != AIRTIME_QUANTUM_MAX ==> (quantum + 1) * maxWt > AIRTIME_QUANTUM_TARGET
  {
    QuantumIsBest(maxWt);
    quantum := AIRTIME_QUANTUM_TARGET / maxWt;
    if quantum < AIRTIME_QUANTUM_MIN {
      quantum := AIRTIME_QUANTUM_MIN;
    } else if quantum > AIRTIME_QUANTUM_MAX {
      quantum := AIRTIME_QUANTUM_MAX;
    }
  }

  class Bss {
    var started: bool
    var confWeight: nat
    var limited: bool
    var stas: seq<Station>
    var numBacklogged: nat
    var airtimeWeight: nat
    var driver: Driver
    // the driver's return code for its n-th call, 0 meaning success
    const respond: nat -> int
    // per-station weights of the static mode
    const weightList: seq<(Mac, nat)>

    constructor (started: bool, confWeight: nat, limited: bool, weightList: seq<(Mac, nat)>, respond: nat -> int)
      ensures View() == BssView(started, confWeight, limited, [], 0, 0, Driver(map[], []))
      ensures this.respond == respond && this.weightList == weightList
    {
      this.started, this.confWeight, this.limited := started, confWeight, limited;
      this.weightList, this.respond := weightList, respond;
      stas, numBacklogged, airtimeWeight, driver := [], 0, 0, Driver(map[], []);
    }

    ghost function View(): BssView
      reads this
    {
      BssView(started, confWeight, limited, stas, numBacklogged, airtimeWeight, driver)
    }

    /** The body of the counting loop for one station. */
    method PollSta(i: nat, interval: nat, now: RelTime, r: ReadResult) returns (counted: bool)
      requires i < |stas|
      modifies this`stas
      ensures stas == old(stas)[i := Polled(old(stas)[i], interval, now, r)]
      ensures counted == Counts(stas[i], now, r)
    {
      if r.ReadFailed? {
        return false;
      }
      if r.backlogBytes > 0 {
        var until := SetNewBacklogTime(interval, now);
        stas := stas[i := stas[i].(backloggedUntil := until)];
      }
      return Before(now, stas[i].backloggedUntil);
    }

    method CountBackloggedSta(interval: nat, now: RelTime, reads_: Mac -> ReadResult)
      modifies this
      ensures View() == Counted(old(View()), interval, now, reads_)
    {
      ghost var s0, ps := stas, PollAll(stas, interval, now, reads_);
      var count := 0;
      var i := 0;
      while i < |stas|
        invariant 0 <= i <= |stas| == |ps|
        invariant |stas| == |s0| && forall j :: 0 <= j < |s0| ==> stas[j] == if j < i then ps[j] else s0[j]
        invariant View() == old(View()).(stas := stas)
        invariant count == CountBacklogged(ps, i, now, reads_)
      {
        var counted := PollSta(i, interval, now, reads_(stas[i].addr));
        if counted {
          count := count + 1;
        }
        i := i + 1;
      }
      assert stas == ps;
      numBacklogged := count;
    }

    method StaSetAirtimeWeight(k: nat, weight: nat) returns (ret: int)
      requires k < |stas|
      modifies this
      ensures View() == Push(old(View()), k, weight, respond)
      ensures ret == if weight == old(stas)[k].airtimeWeight then 0 else respond(|old(driver).calls|)
    {
      ret := 0;
      if weight != stas[k].airtimeWeight {
        // the driver call: it is logged, and takes effect iff it reports success
        ret := respond(|driver.calls|);
        driver := driver.(calls := driver.calls + [DriverCall(stas[k].addr, weight)]);
        if ret != 0 {
          return;
        }
        driver := driver.(weights := driver.weights[stas[k].addr := weight]);
      }
      stas := stas[k := stas[k].(airtimeWeight := weight)];
    }

    method SetStaWeights(weight: nat)
      modifies this
      ensures View() == PushAll(old(View()), weight, respond)
    {
      var k := 0;
      while k < |stas|
        invariant k <= |stas| == |old(stas)|
        invariant View() == PushFirst(old(View()), k, weight, respond)
      {
        var _ := StaSetAirtimeWeight(k, weight);
        k := k + 1;
      }
    }

    method GetWeightForSta(addr: Mac) returns (w: nat)
      ensures w == WeightForSta(weightList, confWeight, addr)
    {
      var i := 0;
      while i < |weightList| && weightList[i].0 != addr
        invariant i <= |weightList|
        invariant WeightForSta(weightList, confWeight, addr) == WeightForSta(weightList[i..], confWeight, addr)
      {
        i := i + 1;
      }
      w := if i < |weightList| then weightList[i].1 else confWeight;
    }

    method NewSta(mode: Mode, k: nat) returns (ret: int)
      requires k < |stas|
      modifies this
      ensures View() == NewStaView(old(View()), mode, k, weightList, respond)
      ensures var w := WeightForSta(weightList, old(confWeight), old(stas)[k].addr);
              ret == if mode == Static && w != 0 && w != old(stas)[k].airtimeWeight
                     then respond(|old(driver).calls|) else 0
    {
      if mode == Static {
        var weight := GetWeightForSta(stas[k].addr);
        if weight != 0 {
          ret := StaSetAirtimeWeight(k, weight);
          return;
        }
      }
      return 0;
    }
  }

  function NewStaView(v: BssView, mode: Mode, k: nat, list: seq<(Mac, nat)>, respond: nat -> int): BssView
    requires k < |v.stas|
  {
    var w := WeightForSta(list, v.confWeight, v.stas[k].addr);
    if mode == Static && w != 0 then Push(v, k, w, respond) else v
  }

  class Interface {
    const bss: seq<Bss>
    const mode: Mode
    const interval: nat

    constructor (bss: seq<Bss>, mode: Mode, interval: nat)
      ensures this.bss == bss && this.mode == mode && this.interval == interval
    {
      this.bss, this.mode, this.interval := bss, mode, interval;
    }

    ghost predicate Valid() {
      forall i, j :: 0 <= i < j < |bss| ==> bss[i] != bss[j]
    }

    ghost function Views(): (vs: seq<BssView>)
      reads bss
      ensures |vs| == |bss|
      ensures forall i :: 0 <= i < |bss| ==> vs[i] == bss[i].View()
    {
      seq(|bss|, i requires 0 <= i < |bss| reads bss => bss[i].View())
    }

    /** Polls BSS `i` if it is used. */
    method CountBss(i: nat, p: Poll)
      requires Valid() && i < |bss|
      modifies bss
      ensures Views() == old(Views())[i := CountUsed(old(Views())[i], interval, p)]
    {
      ghost var vs := Views();
      if bss[i].started && bss[i].confWeight != 0 {
        bss[i].CountBackloggedSta(interval, p.now, p.reads_);
      }
      assert forall j :: 0 <= j < |bss| && j != i ==> bss[j].View() == vs[j];
    }

    /** The first loop: polls every used BSS and accumulates the figures over the active ones. */
    method CountStations(polls: seq<Poll>) returns (t: Totals)
      requires Valid() && |polls| == |bss|
      modifies bss
      ensures Views() == CountAll(old(Views()), interval, polls)
      ensures t == TotalsOf(Views(), |bss|)
    {
      hide Counted;
      ghost var vs := Views();
      ghost var cs := CountAll(vs, interval, polls);
      t := Totals(0, 1, 0, 0, 0);
      var i := 0;
      while i < |bss|
        invariant 0 <= i <= |bss|
        invariant forall j :: 0 <= j < |bss| ==> Views()[j] == if j < i then cs[j] else vs[j]
        invariant t == TotalsOf(cs, i)
      {
        CountBss(i, polls[i]);
        assert Views()[i] == cs[i];
        var b := bss[i];
        assert b.View() == cs[i];
        ghost var t0 := t;
        if b.started && b.confWeight != 0 && b.numBacklogged != 0 {
          t := Accumulate(t, b.numBacklogged, b.confWeight);
        }
        assert t == (if Active(cs[i]) then Accumulate(t0, cs[i].numBacklogged, cs[i].confWeight) else t0);
        assert t == TotalsOf(cs, i + 1);
        i := i + 1;
      }
      assert Views() == cs;
    }

    /** The second loop: the divisibility check and the check of the limited BSSs. */
    method CheckLimits(min: nat, wtSum: nat, staSum: nat) returns (allDivMin: bool, apply: bool)
      requires min > 0
      ensures allDivMin == AllDivisible(Views(), |bss|, min)
      ensures apply == (mode == Dynamic || AnyOverLimit(Views(), |bss|, wtSum, staSum))
    {
      ghost var bs := Views();
      allDivMin, apply := true, mode == Dynamic;
      var i := 0;
      while i < |bss|
        invariant 0 <= i <= |bss|
        invariant allDivMin == AllDivisible(bs, i, min)
        invariant apply == (mode == Dynamic || AnyOverLimit(bs, i, wtSum, staSum))
      {
        var b := bss[i];
        if b.started && b.confWeight != 0 {
          if b.numBacklogged != 0 && b.numBacklogged % min > 0 {
            allDivMin := false;
          }
          if !apply && b.limited {
            if Wrap32(b.numBacklogged * wtSum) > Wrap32(b.confWeight * staSum) {
              assert OverLimit(bs[i], wtSum, staSum);
              apply := true;
            }
          }
        }
        i := i + 1;
      }
    }

    /** Stores the weight of BSS `i`. */
    method AssignBss(i: nat, plan: Plan) returns (wt: int)
      requires Valid() && i < |bss| && Used(Views()[i])
      modifies bss
      ensures wt == AsInt32(BssWeight(plan, old(Views())[i]))
      ensures Views() == old(Views())[i := Assigned(plan, old(Views())[i])]
    {
      ghost var vs := Views();
      var b := bss[i];
      var raw := RawWeight(plan, b.confWeight, b.numBacklogged);
      wt := AsInt32(raw);
      b.airtimeWeight := raw;
      assert forall j :: 0 <= j < |bss| && j != i ==> bss[j].View() == vs[j];
    }

    /** The third loop: stores each BSS's weight and finds the largest. */
    method AssignWeights(plan: Plan) returns (maxWt: nat)
      requires Valid()
      modifies bss
      ensures Views() == AssignAll(plan, old(Views()))
      ensures maxWt == MaxWeight(plan, old(Views()), |bss|)
    {
      ghost var bs := Views();
      ghost var ws := AssignAll(plan, bs);
      maxWt := 0;
      var i := 0;
      while i < |bss|
        invariant 0 <= i <= |bss|
        invariant forall j :: 0 <= j < |bss| ==> Views()[j] == if j < i then ws[j] else bs[j]
        invariant maxWt == MaxWeight(plan, bs, i)
      {
        assert Views()[i] == bs[i];
        if bss[i].started && bss[i].confWeight != 0 {
          var wt := AssignBss(i, plan);
          if wt > maxWt {
            maxWt := wt;
          }
        }
        assert maxWt == MaxWeight(plan, bs, i + 1);
        i := i + 1;
      }
      assert Views() == ws;
    }

    /** The last loop: pushes the scaled weights to the stations. */
    method PushWeights(quantum: nat)
      requires Valid()
      modifies bss
      ensures forall i :: 0 <= i < |bss| ==> bss[i].View() == Pushed(old(Views())[i], quantum, bss[i].respond)
    {
      ghost var vs := Views();
      var i := 0;
      while i < |bss|
        invariant 0 <= i <= |bss|
        invariant forall j :: 0 <= j < |bss| ==>
          bss[j].View() == if j < i then Pushed(vs[j], quantum, bss[j].respond) else vs[j]
      {
        var b := bss[i];
        if b.started && b.confWeight != 0 {
          b.SetStaWeights(Wrap32(b.airtimeWeight * quantum));
        }
        i := i + 1;
      }
    }

    /** Between the first loop and the third: whether to scale, and with which product. */
    method MakePlan(t: Totals) returns (plan: Plan)
      requires t == TotalsOf(Views(), |bss|)
      ensures plan == PlanOf(mode, Views())
    {
      var prod, apply := t.prod, mode == Dynamic;
      if t.min != 0 {
        var allDivMin;
        allDivMin, apply := CheckLimits(t.min, t.wtSum, t.staSum);
        if allDivMin {
          prod := prod / t.min;
        }
      }
      plan := Plan(apply, prod, t.numBss);
    }

    /**
    One run of the periodic update. The division in the quantum computation traps when the largest
    weight is 0; then nothing has been pushed.
    */
    method UpdateAirtimeWeights(polls: seq<Poll>) returns (end: TickEnd)
      requires Valid() && |polls| == |bss|
      modifies bss
      ensures var cs := CountAll(old(Views()), interval, polls);
              var plan := PlanOf(mode, cs);
              var m := MaxWeight(plan, cs, |cs|);
              if m == 0 then end == DividedByZero && Views() == AssignAll(plan, cs)
              else
                && end == RearmEnd(interval)
                && forall i :: 0 <= i < |bss| ==>
                     bss[i].View() == Pushed(Assigned(plan, cs[i]), Quantum(m), bss[i].respond)
      ensures end.Rearmed? ==> end.usec < USEC_PER_SEC && end.sec * USEC_PER_SEC + end.usec == 1000 * interval
      ensures end.NotRearmed? ==> interval == 0
      ensures forall i :: 0 <= i < |bss| && (!old(bss[i].started) || old(bss[i].confWeight) == 0) ==>
                bss[i].View() == old(bss[i].View())
    {
      ghost var vs := Views();
      assert forall i :: 0 <= i < |bss| ==> vs[i] == old(bss[i].View());
      hide TotalsOf, PlanOf, CountAll, AssignAll, MaxWeight, Quantum, Pushed, Assigned;
      var t := CountStations(polls);
      var plan := MakePlan(t);
      var maxWt := AssignWeights(plan);
      if maxWt == 0 {
        UnusedStay(vs, interval, polls, plan);
        return DividedByZero;
      }
      var quantum := GetAirtimeQuantum(maxWt);
      PushWeights(quantum);
      UnusedStay(vs, interval, polls, plan);
      IntervalSplit(interval);
      return if interval == 0 then NotRearmed else Rearmed(interval / 1000, (interval % 1000) * 1000);
    }
  }
}
