/**
Properties of whole runs of one BSS under the airtime scheduler: polls, weight pushes and static
assignments in any order, with a driver that may fail any query or any call.
*/
module AirtimeRuns {
  import opened AirtimeModel

  datatype Step = Polling(poll: Poll) | Pushing(weight: nat) | Assigning(k: nat, weight: nat)

  /** The same stations in the same places. */
  predicate SameAddrs(v: BssView, r: BssView) {
    |r.stas| == |v.stas| && forall i :: 0 <= i < |v.stas| ==> r.stas[i].addr == v.stas[i].addr
  }

  function Exec(v: BssView, interval: nat, step: Step, respond: nat -> int): (r: BssView)
    ensures SameAddrs(v, r)
  {
    match step
    case Polling(p) => Counted(v, interval, p.now, p.reads_)
    case Pushing(w) => PushAll(v, w, respond)
    case Assigning(k, w) => if k < |v.stas| then Push(v, k, w, respond) else v
  }

  function Run(v: BssView, interval: nat, steps: seq<Step>, n: nat, respond: nat -> int): (r: BssView)
    requires n <= |steps|
    ensures SameAddrs(v, r)
  {
    if n == 0 then v else Exec(Run(v, interval, steps, n - 1, respond), interval, steps[n - 1], respond)
  }

  // ---------------------------------------------------------------------------------------------
  // Backlog hysteresis
  // ---------------------------------------------------------------------------------------------

  function Micros(t: RelTime): int {
    t.sec * USEC_PER_SEC + t.usec
  }

  predicate Normal(t: RelTime) {
    0 <= t.usec < USEC_PER_SEC
  }

  /** Comparing (sec, usec) pairs is comparing microseconds. */
  lemma BeforeIsMicros(a: RelTime, b: RelTime)
    requires Normal(a) && Normal(b)
    ensures Before(a, b) <==> Micros(a) < Micros(b)
  {
  }

  /** Normalising the expiry loses nothing. */
  lemma ExpiryMicros(now: RelTime, interval: nat)
    requires Normal(now)
    ensures Normal(Expiry(now, interval)) && Micros(Expiry(now, interval)) == Micros(now) + Window(interval)
  {
  }

  predicate ClockAdvances(steps: seq<Step>) {
    && (forall i :: 0 <= i < |steps| && steps[i].Polling? ==> Normal(steps[i].poll.now))
    && (forall i, j :: 0 <= i < j < |steps| && steps[i].Polling? && steps[j].Polling? ==>
          Micros(steps[i].poll.now) <= Micros(steps[j].poll.now))
  }

  /** Step `j` is a successful query that found data queued for the station. */
  predicate SawBacklog(steps: seq<Step>, j: nat, addr: Mac)
    requires j < |steps|
  {
    steps[j].Polling? && var r := steps[j].poll.reads_(addr); r.ReadOk? && r.backlogBytes > 0
  }

  /** When the window opened by step `j` closes. */
  function WindowEnd(steps: seq<Step>, j: nat, interval: nat): int
    requires j < |steps| && steps[j].Polling?
  {
    Micros(steps[j].poll.now) + Window(interval)
  }

  /** At polling step `k` some sighting of backlog, at this step or earlier, is still in its window. */
  predicate InWindow(steps: seq<Step>, k: nat, interval: nat, addr: Mac)
    requires k < |steps| && steps[k].Polling?
  {
    exists j :: 0 <= j <= k && SawBacklog(steps, j, addr)
                && Micros(steps[k].poll.now) < WindowEnd(steps, j, interval)
  }

  /** Pushing weights never touches the backlog timers. */
  lemma {:induction false} PushKeepsTimers(v: BssView, k: nat, w: nat, respond: nat -> int, i: nat)
    requires k <= |v.stas| && i < |v.stas|
    ensures PushFirst(v, k, w, respond).stas[i].backloggedUntil == v.stas[i].backloggedUntil
  {
    if k > 0 {
      PushKeepsTimers(v, k - 1, w, respond, i);
    }
  }

  /** `u` is the end of the latest window opened by the first `n` steps, or still the initial `u0`. */
  predicate LatestWindow(u: RelTime, u0: RelTime, steps: seq<Step>, n: nat, interval: nat, addr: Mac)
    requires n <= |steps|
  {
    && Normal(u)
    && (u == u0 || exists j :: 0 <= j < n && SawBacklog(steps, j, addr) && Micros(u) == WindowEnd(steps, j, interval))
    && (forall j :: 0 <= j < n && SawBacklog(steps, j, addr) ==> WindowEnd(steps, j, interval) <= Micros(u))
  }

  lemma NoNewWindow(u: RelTime, u0: RelTime, steps: seq<Step>, n: nat, interval: nat, addr: Mac)
    requires n < |steps| && LatestWindow(u, u0, steps, n, interval, addr) && !SawBacklog(steps, n, addr)
    ensures LatestWindow(u, u0, steps, n + 1, interval, addr)
  {
  }

  lemma OpenWindow(u: RelTime, u0: RelTime, steps: seq<Step>, n: nat, interval: nat, addr: Mac)
    requires n < |steps| && LatestWindow(u, u0, steps, n, interval, addr) && ClockAdvances(steps)
    requires SawBacklog(steps, n, addr)
    ensures LatestWindow(Expiry(steps[n].poll.now, interval), u0, steps, n + 1, interval, addr)
  {
    ExpiryMicros(steps[n].poll.now, interval);
  }

  /** One step moves a timer only if it sees backlog there. */
  lemma ExecTimer(v: BssView, interval: nat, steps: seq<Step>, n: nat, respond: nat -> int, i: nat)
    requires n < |steps| && i < |v.stas|
    ensures Exec(v, interval, steps[n], respond).stas[i].backloggedUntil
         == if SawBacklog(steps, n, v.stas[i].addr) then Expiry(steps[n].poll.now, interval)
            else v.stas[i].backloggedUntil
  {
    if steps[n].Pushing? {
      PushKeepsTimers(v, |v.stas|, steps[n].weight, respond, i);
    }
  }

  lemma {:induction false} TimerIsLatestWindow(
      v: BssView, interval: nat, steps: seq<Step>, n: nat, respond: nat -> int, i: nat)
    requires n <= |steps| && i < |v.stas| && ClockAdvances(steps) && Normal(v.stas[i].backloggedUntil)
    ensures LatestWindow(Run(v, interval, steps, n, respond).stas[i].backloggedUntil,
                         v.stas[i].backloggedUntil, steps, n, interval, v.stas[i].addr)
  {
    if n > 0 {
      TimerIsLatestWindow(v, interval, steps, n - 1, respond, i);
      TimerStep(Run(v, interval, steps, n - 1, respond), v.stas[i].backloggedUntil, interval, steps, n - 1, respond, i);
    }
  }

  lemma TimerStep(v: BssView, u0: RelTime, interval: nat, steps: seq<Step>, n: nat, respond: nat -> int, i: nat)
    requires n < |steps| && i < |v.stas| && ClockAdvances(steps)
    requires LatestWindow(v.stas[i].backloggedUntil, u0, steps, n, interval, v.stas[i].addr)
    ensures LatestWindow(Exec(v, interval, steps[n], respond).stas[i].backloggedUntil,
                         u0, steps, n + 1, interval, v.stas[i].addr)
  {
    hide LatestWindow, SawBacklog, Exec, ClockAdvances;
    ExecTimer(v, interval, steps, n, respond, i);
    if SawBacklog(steps, n, v.stas[i].addr) {
      OpenWindow(v.stas[i].backloggedUntil, u0, steps, n, interval, v.stas[i].addr);
    } else {
      NoNewWindow(v.stas[i].backloggedUntil, u0, steps, n, interval, v.stas[i].addr);
    }
  }

  /** Its query succeeds, and some sighting of its backlog so far is still within its window. */
  predicate ShouldCount(v: BssView, interval: nat, steps: seq<Step>, k: nat, i: nat)
    requires k < |steps| && steps[k].Polling? && i < |v.stas|
  {
    steps[k].poll.reads_(v.stas[i].addr).ReadOk? && InWindow(steps, k, interval, v.stas[i].addr)
  }

  /**
  Hysteresis: at polling step `k` a station is counted exactly when its query succeeds and some
  sighting of backlog so far is still within its window.
  */
  lemma CountedIffInWindow(v: BssView, interval: nat, steps: seq<Step>, k: nat, respond: nat -> int, i: nat)
    requires k < |steps| && steps[k].Polling? && i < |v.stas| && ClockAdvances(steps)
    requires Normal(v.stas[i].backloggedUntil)
    requires Micros(v.stas[i].backloggedUntil) <= Micros(steps[k].poll.now)
    ensures var after := Run(v, interval, steps, k + 1, respond); var p := steps[k].poll;
            Counts(after.stas[i], p.now, p.reads_(v.stas[i].addr)) <==> ShouldCount(v, interval, steps, k, i)
  {
    TimerIsLatestWindow(v, interval, steps, k + 1, respond, i);
    var u := Run(v, interval, steps, k + 1, respond).stas[i].backloggedUntil;
    BeforeIsMicros(steps[k].poll.now, u);
  }

  /** Polls only, one interval (of `interval` milliseconds) apart. */
  predicate PollsEvenly(steps: seq<Step>, interval: nat) {
    && (forall j :: 0 <= j < |steps| ==> steps[j].Polling? && Normal(steps[j].poll.now))
    && forall j :: 0 <= j < |steps| ==>
         Micros(steps[j].poll.now) == Micros(steps[0].poll.now) + j * (1000 * interval)
  }

  lemma EvenPollsAdvance(steps: seq<Step>, interval: nat)
    requires PollsEvenly(steps, interval)
    ensures ClockAdvances(steps)
  {
    hide Micros, Normal;
    forall i, j | 0 <= i < j < |steps|
      ensures Micros(steps[i].poll.now) <= Micros(steps[j].poll.now)
    {
      TimesApart(i, j, 1000 * interval);
    }
  }

  lemma TimesApart(i: nat, j: nat, y: nat)
    requires i <= j
    ensures j * y - i * y == (j - i) * y >= 0
  {
  }

  lemma WindowLength(interval: nat, d: nat)
    requires 0 < interval && interval * 2500 < U32
    ensures d * (1000 * interval) < Window(interval) <==> d <= 2
  {
    var y := 1000 * interval;
    assert Window(interval) == 2500 * interval;
    if d >= 3 {
      assert d * y == (d - 3) * y + 3 * y;
    }
  }

  /**
  What the hysteresis is for: with evenly spaced polls a station is counted at a poll exactly when this poll
  reads its queue and this one or one of the two before it saw data in it.
  */
  lemma CountedForTwoMorePolls(v: BssView, interval: nat, steps: seq<Step>, k: nat, respond: nat -> int, i: nat)
    requires k < |steps| && i < |v.stas| && PollsEvenly(steps, interval) && 0 < interval && interval * 2500 < U32
    requires Normal(v.stas[i].backloggedUntil)
    requires Micros(v.stas[i].backloggedUntil) <= Micros(steps[k].poll.now)
    ensures var after, p, addr := Run(v, interval, steps, k + 1, respond), steps[k].poll, v.stas[i].addr;
            Counts(after.stas[i], p.now, p.reads_(addr))
            <==> p.reads_(addr).ReadOk? && exists j :: k - 2 <= j <= k && 0 <= j && SawBacklog(steps, j, addr)
  {
    hide Run, Counts, Window, SawBacklog;
    EvenPollsAdvance(steps, interval);
    CountedIffInWindow(v, interval, steps, k, respond, i);
    forall j | 0 <= j <= k
      ensures Micros(steps[k].poll.now) < WindowEnd(steps, j, interval) <==> k - 2 <= j
    {
      WindowLength(interval, k - j);
      TimesApart(j, k, 1000 * interval);
    }
  }

  /** Before polling step `k` no timer of the initial state is still running. */
  predicate TimersIdle(v: BssView, steps: seq<Step>, k: nat)
    requires k < |steps| && steps[k].Polling?
  {
    forall i :: 0 <= i < |v.stas| ==>
      var u := v.stas[i].backloggedUntil; Normal(u) && Micros(u) <= Micros(steps[k].poll.now)
  }

  function CountedSet(stas: seq<Station>, n: nat, now: RelTime, reads_: Mac -> ReadResult): set<nat>
    requires n <= |stas|
  {
    set i: nat | i < n && Counts(stas[i], now, reads_(stas[i].addr))
  }

  lemma {:induction false} CountIsCardinality(stas: seq<Station>, n: nat, now: RelTime, reads_: Mac -> ReadResult)
    requires n <= |stas|
    ensures CountBacklogged(stas, n, now, reads_) == |CountedSet(stas, n, now, reads_)|
  {
    if n > 0 {
      CountIsCardinality(stas, n - 1, now, reads_);
      assert CountedSet(stas, n, now, reads_)
          == CountedSet(stas, n - 1, now, reads_)
             + if Counts(stas[n - 1], now, reads_(stas[n - 1].addr)) then {n - 1} else {};
    }
  }

  /** The stations that polling step `k` should count. */
  function BackloggedSet(v: BssView, interval: nat, steps: seq<Step>, k: nat): set<nat>
    requires k < |steps| && steps[k].Polling?
  {
    set i: nat | i < |v.stas| && ShouldCount(v, interval, steps, k, i)
  }

  /** The figure a poll stores is the number of stations inside their hysteresis window. */
  lemma NumBackloggedIsExact(v: BssView, interval: nat, steps: seq<Step>, k: nat, respond: nat -> int)
    requires k < |steps| && steps[k].Polling? && ClockAdvances(steps) && TimersIdle(v, steps, k)
    ensures Run(v, interval, steps, k + 1, respond).numBacklogged == |BackloggedSet(v, interval, steps, k)|
  {
    var stas, p := Run(v, interval, steps, k + 1, respond).stas, steps[k].poll;
    CountIsCardinality(stas, |stas|, p.now, p.reads_);
    forall i: nat | i < |v.stas|
      ensures i in CountedSet(stas, |stas|, p.now, p.reads_) <==> i in BackloggedSet(v, interval, steps, k)
    {
      CountedIffInWindow(v, interval, steps, k, respond, i);
    }
    assert CountedSet(stas, |stas|, p.now, p.reads_) == BackloggedSet(v, interval, steps, k);
  }

  // ---------------------------------------------------------------------------------------------
  // Weight cache
  // ---------------------------------------------------------------------------------------------

  predicate DistinctAddrs(v: BssView) {
    forall i, j :: 0 <= i < j < |v.stas| ==> v.stas[i].addr != v.stas[j].addr
  }

  /** The cached weight of station `i` is the one in force in the driver. */
  predicate Agrees(v: BssView, i: nat)
    requires i < |v.stas|
  {
    v.stas[i].addr in v.driver.weights && v.driver.weights[v.stas[i].addr] == v.stas[i].airtimeWeight
  }

  lemma PushKeepsAgreement(v: BssView, k: nat, w: nat, respond: nat -> int, i: nat)
    requires k < |v.stas| && i < |v.stas| && DistinctAddrs(v)
    ensures Agrees(v, i) ==> Agrees(Push(v, k, w, respond), i)
    ensures i != k ==> Agrees(v, i) == Agrees(Push(v, k, w, respond), i)
  {
    assert i != k ==> v.stas[i].addr != v.stas[k].addr;
  }

  lemma {:induction false} PushFirstKeepsAgreement(v: BssView, k: nat, w: nat, respond: nat -> int, i: nat)
    requires k <= |v.stas| && i < |v.stas| && DistinctAddrs(v) && Agrees(v, i)
    ensures Agrees(PushFirst(v, k, w, respond), i)
  {
    if k > 0 {
      PushFirstKeepsAgreement(v, k - 1, w, respond, i);
      PushKeepsAgreement(PushFirst(v, k - 1, w, respond), k - 1, w, respond, i);
    }
  }

  /**
  Cache coherence: a station whose cached weight agrees with the driver keeps agreeing through every
  run, whichever queries and calls the driver fails.
  */
  lemma {:induction false} CacheStaysCoherent(
      v: BssView, interval: nat, steps: seq<Step>, n: nat, respond: nat -> int, i: nat)
    requires n <= |steps| && i < |v.stas| && DistinctAddrs(v) && Agrees(v, i)
    ensures Agrees(Run(v, interval, steps, n, respond), i)
  {
    if n > 0 {
      CacheStaysCoherent(v, interval, steps, n - 1, respond, i);
      var before := Run(v, interval, steps, n - 1, respond);
      assert DistinctAddrs(before);
      match steps[n - 1] {
        case Polling(p) =>
        case Pushing(w) => PushFirstKeepsAgreement(before, |before.stas|, w, respond, i);
        case Assigning(k, w) =>
          if k < |before.stas| {
            PushKeepsAgreement(before, k, w, respond, i);
          }
      }
    }
  }

  /** How many of the first `k` stations have a cached weight other than `w`. */
  function Stale(v: BssView, k: nat, w: nat): nat
    requires k <= |v.stas|
  {
    if k == 0 then 0 else Stale(v, k - 1, w) + if v.stas[k - 1].airtimeWeight != w then 1 else 0
  }

  /** The driver is called once for each station whose cached weight differs, and for no other. */
  lemma {:induction false} CallsOnlyWhenStale(v: BssView, k: nat, w: nat, respond: nat -> int)
    requires k <= |v.stas|
    ensures var before, after := v.driver.calls, PushFirst(v, k, w, respond).driver.calls;
            && |after| == |before| + Stale(v, k, w)
            && before <= after
            && (forall c :: |before| <= c < |after| ==> after[c].weight == w)
  {
    if k > 0 {
      CallsOnlyWhenStale(v, k - 1, w, respond);
    }
  }

  /** A driver that accepts every call ends up with weight `w` at every station ... */
  lemma {:induction false} PushReachesAll(v: BssView, k: nat, w: nat, respond: nat -> int)
    requires k <= |v.stas| && forall c: nat :: respond(c) == 0
    ensures forall i :: 0 <= i < k ==> PushFirst(v, k, w, respond).stas[i].airtimeWeight == w
  {
    if k > 0 {
      PushReachesAll(v, k - 1, w, respond);
    }
  }

  /** ... after which pushing the same weight again changes nothing and makes no call. */
  lemma {:induction false} PushAgainIsNoOp(v: BssView, k: nat, w: nat, respond: nat -> int)
    requires k <= |v.stas| && forall i :: 0 <= i < |v.stas| ==> v.stas[i].airtimeWeight == w
    ensures PushFirst(v, k, w, respond) == v
  {
    if k > 0 {
      PushAgainIsNoOp(v, k - 1, w, respond);
    }
  }

  lemma PushIsIdempotent(v: BssView, w: nat, respond: nat -> int)
    requires forall c: nat :: respond(c) == 0
    ensures PushAll(PushAll(v, w, respond), w, respond) == PushAll(v, w, respond)
  {
    PushReachesAll(v, |v.stas|, w, respond);
    PushAgainIsNoOp(PushAll(v, w, respond), |v.stas|, w, respond);
  }

  // ---------------------------------------------------------------------------------------------
  // The periodic update as steps
  // ---------------------------------------------------------------------------------------------

  lemma {:induction false} PushIgnoresBssWeight(v: BssView, x: nat, k: nat, w: nat, respond: nat -> int)
    requires k <= |v.stas|
    ensures PushFirst(v.(airtimeWeight := x), k, w, respond) == PushFirst(v, k, w, respond).(airtimeWeight := x)
  {
    if k > 0 {
      PushIgnoresBssWeight(v, x, k - 1, w, respond);
    }
  }

  /** What one run of the periodic update does to a used BSS is one poll followed by one push. */
  lemma TickIsTwoSteps(v: BssView, interval: nat, p: Poll, plan: Plan, quantum: nat, respond: nat -> int)
    requires Used(v)
    ensures var counted := CountUsed(v, interval, p);
            var wt := BssWeight(plan, counted);
            Pushed(Assigned(plan, counted), quantum, respond)
            == Run(v, interval, [Polling(p), Pushing(Wrap32(wt * quantum))], 2, respond).(airtimeWeight := wt)
  {
    var counted := CountUsed(v, interval, p);
    var wt := BssWeight(plan, counted);
    var w := Wrap32(wt * quantum);
    var steps := [Polling(p), Pushing(w)];
    assert Run(v, interval, steps, 0, respond) == v && Run(v, interval, steps, 1, respond) == counted;
    PushIgnoresBssWeight(counted, wt, |counted.stas|, w, respond);
  }
}
