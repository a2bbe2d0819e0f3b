/**
Order and time in the DNS log: which record a full queue loses, what the rows of the table say about the
log lines they stand for, and how far apart rows of the same key are.
*/
module DnsLogOrder {
  import opened DnsLogSpec

  /** The number of the log line that started the record. */
  function First(r: Record): nat {
    if r.events == [] then 0 else r.events[0]
  }

  predicate Increasing(rs: seq<Record>) {
    forall i, j :: 0 <= i < j < |rs| ==> First(rs[i]) < First(rs[j])
  }

  /** Every record of `rs` was started by an earlier line than any of `qs`. */
  predicate Before(rs: seq<Record>, qs: seq<Record>) {
    forall i, j :: 0 <= i < |rs| && 0 <= j < |qs| ==> First(rs[i]) < First(qs[j])
  }

  predicate StartedBelow(rs: seq<Record>, n: nat) {
    forall i :: 0 <= i < |rs| ==> rs[i].events != [] && First(rs[i]) < n
  }

  /** The queue is in the order of the log, and so are the evicted records, all older than the queue. */
  predicate InOrder(s: State) {
    && StartedBelow(s.queue, |s.history|) && Increasing(s.queue)
    && StartedBelow(s.evicted, |s.history|) && Increasing(s.evicted) && Before(s.evicted, s.queue)
  }

  lemma InitialOrder(s: State)
    requires s == INITIAL
    ensures InOrder(s)
  {
  }

  // ---------------------------------------------------------------------------------------------
  // Eviction
  // ---------------------------------------------------------------------------------------------

  lemma ProcessKeepsOrder(s: State, e: Event, now: real)
    requires InOrder(s)
    ensures InOrder(Process(s, e, now))
  {
    hide FindKey, First;
    var i, n := FindKey(s.queue, e.key), |s.history|;
    if i < |s.queue| {
      MergedFirst(s.queue[i], n, e.status);
    } else {
      var r := Record(e.key, e.client, e.status, now, false, [n]);
      FirstOfNew(r, n);
      if |s.queue| >= MAX_PENDING {
        var lost, rest := s.queue[0], s.queue[1..];
        assert forall j :: 0 <= j < |rest| ==> rest[j] == s.queue[j + 1];
        assert First(lost) < n && Before([lost], rest + [r]) && Before(s.evicted, [lost]);
      }
    }
  }

  /**
  Which record is lost: one is evicted exactly when 25 are pending and none of them has the key of the line,
  and then it is the one whose first line is the oldest; all others stay pending.
  */
  lemma OldestIsEvicted(s: State, e: Event, now: real)
    requires InOrder(s) && QueueOk(s.queue)
    ensures var t := Process(s, e, now);
            if |s.queue| == 25 && forall i :: 0 <= i < |s.queue| ==> s.queue[i].key != e.key then
              && |t.evicted| == |s.evicted| + 1 && t.evicted[..|s.evicted|] == s.evicted
              && var lost := t.evicted[|s.evicted|];
                 && lost in s.queue && lost !in t.queue
                 && (forall r :: r in t.queue ==> First(lost) < First(r))
                 && (forall r :: r in s.queue ==> r == lost || r in t.queue)
            else t.evicted == s.evicted && |t.queue| >= |s.queue|
  {
    hide FindKey, First;
    var t := Process(s, e, now);
    if FindKey(s.queue, e.key) == |s.queue| && |s.queue| == 25 {
      var r := Record(e.key, e.client, e.status, now, false, [|s.history|]);
      assert First(r) == |s.history| by {
        FirstOfNew(r, |s.history|);
      }
      assert t.queue == s.queue[1..] + [r] && t.evicted == s.evicted + [s.queue[0]];
      OldestGone(s.queue, r, |s.history|);
    }
  }

  lemma FirstOfNew(r: Record, n: nat)
    requires r.events == [n]
    ensures First(r) == n
  {
  }

  lemma OldestGone(q: seq<Record>, r: Record, n: nat)
    requires q != [] && Increasing(q) && StartedBelow(q, n) && First(r) == n
    ensures var t := q[1..] + [r];
            && q[0] in q && q[0] !in t
            && (forall x :: x in t ==> First(q[0]) < First(x)) && (forall x :: x in q ==> x == q[0] || x in t)
  {
    hide First;
    var t := q[1..] + [r];
    forall x | x in t
      ensures First(q[0]) < First(x)
    {
      var j :| 0 <= j < |t| && t[j] == x;
      assert j < |q| - 1 ==> x == q[j + 1];
    }
    forall x | x in q
      ensures x == q[0] || x in t
    {
      var j :| 0 <= j < |q| && q[j] == x;
      assert j > 0 ==> t[j - 1] == x;
    }
  }

  // ---------------------------------------------------------------------------------------------
  // Flushing
  // ---------------------------------------------------------------------------------------------

  lemma {:induction false} YoungIncreasing(q: seq<Record>, now: real)
    requires Increasing(q)
    ensures Increasing(Young(q, now))
  {
    if q != [] {
      var front, last := q[..|q| - 1], q[|q| - 1];
      YoungIncreasing(front, now);
      forall i | 0 <= i < |Young(front, now)|
        ensures First(Young(front, now)[i]) < First(last)
      {
        YoungMembers(front, now, Young(front, now)[i]);
      }
    }
  }

  lemma YoungIn(q: seq<Record>, now: real)
    ensures forall i :: 0 <= i < |Young(q, now)| ==> Young(q, now)[i] in q && !IsDue(Young(q, now)[i], now)
  {
    forall i | 0 <= i < |Young(q, now)|
      ensures Young(q, now)[i] in q && !IsDue(Young(q, now)[i], now)
    {
      YoungMembers(q, now, Young(q, now)[i]);
    }
  }

  lemma FlushKeepsOrder(s: State, now: real, oracle: Oracle)
    requires InOrder(s)
    ensures InOrder(Flush(s, now, oracle))
  {
    hide InsertDue, Young, IsDue;
    YoungIncreasing(s.queue, now);
    YoungIn(s.queue, now);
  }

  /** Every run keeps the order, whatever the clock readings and the database do. */
  lemma {:induction false} RunKeepsOrder(start: State, lines: seq<Line>, n: nat, oracle: Oracle)
    requires n <= |lines| && InOrder(start)
    ensures InOrder(Run(start, lines, n, oracle))
  {
    hide InOrder;
    if n > 0 {
      RunKeepsOrder(start, lines, n - 1, oracle);
      var l, s := lines[n - 1], Run(start, lines, n - 1, oracle);
      ProcessKeepsOrder(s, l.event, l.seen);
      FlushKeepsOrder(Process(s, l.event, l.seen), l.flushed, oracle);
    }
  }

  // ---------------------------------------------------------------------------------------------
  // What a record says
  // ---------------------------------------------------------------------------------------------

  /** The record is a summary of some of the first `n` lines: the first of them gives client and time. */
  predicate Tells(r: Record, lines: seq<Line>, n: nat)
    requires n <= |lines|
  {
    && r.events != [] && (forall k :: 0 <= k < |r.events| ==> r.events[k] < n)
    && (forall k, l :: 0 <= k < l < |r.events| ==> r.events[k] < r.events[l])
    && (forall k :: 0 <= k < |r.events| ==> lines[r.events[k]].event.key == r.key)
    && r.client == lines[First(r)].event.client && r.firstSeen == lines[First(r)].seen
    && (r.status == Blocked <==> exists k :: 0 <= k < |r.events| && lines[r.events[k]].event.status == Blocked)
  }

  predicate AllTell(rs: seq<Record>, lines: seq<Line>, n: nat)
    requires n <= |lines|
  {
    forall i :: 0 <= i < |rs| ==> Tells(rs[i], lines, n)
  }

  predicate Told(s: State, lines: seq<Line>, n: nat)
    requires n <= |lines|
  {
    && |s.history| == n
    && AllTell(s.queue, lines, n) && AllTell(s.rows, lines, n) && AllTell(s.evicted, lines, n)
  }

  lemma TellsMore(r: Record, lines: seq<Line>, n: nat)
    requires n < |lines| && Tells(r, lines, n)
    ensures Tells(r, lines, n + 1)
  {
  }

  lemma NewTells(lines: seq<Line>, n: nat)
    requires n < |lines|
    ensures var e := lines[n].event; Tells(Record(e.key, e.client, e.status, lines[n].seen, false, [n]), lines, n + 1)
  {
    var e := lines[n].event;
    var r := Record(e.key, e.client, e.status, lines[n].seen, false, [n]);
    assert r.events[0] == n;
  }

  lemma MergedTells(r: Record, lines: seq<Line>, n: nat)
    requires n < |lines| && Tells(r, lines, n) && lines[n].event.key == r.key
    ensures Tells(Merged(r, n, lines[n].event.status), lines, n + 1)
  {
    var m, last := Merged(r, n, lines[n].event.status), |r.events|;
    assert m.events[last] == n && forall k :: 0 <= k < last ==> m.events[k] == r.events[k];
    if r.status == Blocked {
      var k :| 0 <= k < |r.events| && lines[r.events[k]].event.status == Blocked;
      assert lines[m.events[k]].event.status == Blocked;
    }
    if lines[n].event.status == Blocked {
      assert lines[m.events[last]].event.status == Blocked;
    }
  }

  lemma AllTellMore(rs: seq<Record>, lines: seq<Line>, n: nat)
    requires n < |lines| && AllTell(rs, lines, n)
    ensures AllTell(rs, lines, n + 1)
  {
    forall i | 0 <= i < |rs|
      ensures Tells(rs[i], lines, n + 1)
    {
      TellsMore(rs[i], lines, n);
    }
  }

  lemma ProcessTells(s: State, lines: seq<Line>, n: nat)
    requires n < |lines| && Told(s, lines, n)
    ensures Told(Process(s, lines[n].event, lines[n].seen), lines, n + 1)
  {
    hide Tells, FindKey;
    var e, now := lines[n].event, lines[n].seen;
    var i := FindKey(s.queue, e.key);
    AllTellMore(s.queue, lines, n);
    AllTellMore(s.rows, lines, n);
    AllTellMore(s.evicted, lines, n);
    if i < |s.queue| {
      MergedTells(s.queue[i], lines, n);
    } else {
      NewTells(lines, n);
    }
  }

  lemma {:induction false} InsertDueMembers(s: State, q: seq<Record>, k: nat, now: real, oracle: Oracle)
    requires k <= |q|
    ensures forall r :: r in InsertDue(s, q, k, now, oracle).rows ==>
              r in s.rows || exists i :: 0 <= i < k && q[i] == r && IsDue(r, now)
  {
    hide IsDue;
    if k > 0 {
      InsertDueMembers(s, q, k - 1, now, oracle);
      InsertedRows(InsertDue(s, q, k - 1, now, oracle), q[k - 1], oracle);
    }
  }

  lemma InsertedRows(s: State, r: Record, oracle: Oracle)
    ensures var rows := Inserted(s, r, oracle).rows; rows == s.rows || rows == s.rows + [r]
  {
  }

  lemma FlushTells(s: State, now: real, oracle: Oracle, lines: seq<Line>, n: nat)
    requires n <= |lines| && Told(s, lines, n)
    ensures Told(Flush(s, now, oracle), lines, n)
  {
    hide Tells, InsertDue, Young, IsDue;
    InsertDueMembers(s, s.queue, |s.queue|, now, oracle);
    YoungIn(s.queue, now);
    var t := Flush(s, now, oracle);
    forall i | 0 <= i < |t.rows|
      ensures Tells(t.rows[i], lines, n)
    {
      assert t.rows[i] in t.rows;
    }
  }

  /** Over every run, each row, pending and evicted record is a summary of log lines. */
  lemma {:induction false} RunTells(lines: seq<Line>, n: nat, oracle: Oracle)
    requires n <= |lines|
    ensures Told(Run(INITIAL, lines, n, oracle), lines, n)
  {
    hide Tells;
    if n > 0 {
      hide Process, Flush;
      RunTells(lines, n - 1, oracle);
      var s := Run(INITIAL, lines, n - 1, oracle);
      ProcessTells(s, lines, n - 1);
      FlushTells(Process(s, lines[n - 1].event, lines[n - 1].seen), lines[n - 1].flushed, oracle, lines, n);
    }
  }

  lemma WholeRunTells(lines: seq<Line>, end: real, oracle: Oracle)
    ensures Told(WholeRun(INITIAL, lines, end, oracle), lines, |lines|)
  {
    hide Told, Flush, Run;
    RunTells(lines, |lines|, oracle);
    FlushTells(Run(INITIAL, lines, |lines|, oracle), end, oracle, lines, |lines|);
  }

  // ---------------------------------------------------------------------------------------------
  // Time
  // ---------------------------------------------------------------------------------------------

  /** No clock reading is below an earlier one. */
  predicate ClockAdvances(lines: seq<Line>) {
    && (forall k :: 0 <= k < |lines| ==> lines[k].seen <= lines[k].flushed)
    && (forall k, l :: 0 <= k < l < |lines| ==> lines[k].flushed <= lines[l].seen)
  }

  /** Of two rows of the same key the later one began at least the window after the earlier one. */
  predicate Apart(rows: seq<Record>) {
    forall i, j :: 0 <= i < j < |rows| && rows[i].key == rows[j].key ==>
      rows[j].firstSeen - rows[i].firstSeen >= 5.0
  }

  predicate ApartFrom(rows: seq<Record>, q: seq<Record>) {
    forall i, j :: 0 <= i < |rows| && 0 <= j < |q| && rows[i].key == q[j].key ==>
      q[j].firstSeen - rows[i].firstSeen >= 5.0
  }

  /** Records in the order of their lines are in the order of time. */
  predicate Aged(q: seq<Record>, now: real) {
    && (forall i, j :: 0 <= i < |q| && 0 <= j < |q| && First(q[i]) < First(q[j]) ==> q[i].firstSeen <= q[j].firstSeen)
    && (forall i :: 0 <= i < |q| ==> q[i].firstSeen <= now)
  }

  predicate Old(rows: seq<Record>, now: real) {
    forall i :: 0 <= i < |rows| ==> now - rows[i].firstSeen >= 5.0
  }

  /** The queue is in the order of the log and time, and behind the rows. */
  predicate QueueTimed(rows: seq<Record>, q: seq<Record>, now: real, n: nat) {
    && DistinctKeys(q) && Aged(q, now) && Increasing(q) && StartedBelow(q, n)
    && ApartFrom(rows, q) && Before(rows, q)
  }

  predicate Timed(s: State, now: real) {
    && QueueTimed(s.rows, s.queue, now, |s.history|)
    && Old(s.rows, now) && Apart(s.rows) && Increasing(s.rows) && StartedBelow(s.rows, |s.history|)
  }

  lemma ProcessTimed(s: State, e: Event, last: real, now: real)
    requires Timed(s, last) && last <= now
    ensures Timed(Process(s, e, now), now)
  {
    hide QueueTimed, First;
    RowsOlder(s, last, now);
    QueueStarted(s, last);
    var i, n := FindKey(s.queue, e.key), |s.history|;
    if i < |s.queue| {
      MergedFirst(s.queue[i], n, e.status);
      MergedTimed(s.rows, s.queue, i, Merged(s.queue[i], n, e.status), last, now, n);
    } else {
      var r := Record(e.key, e.client, e.status, now, false, [n]);
      if |s.queue| >= MAX_PENDING {
        TailTimed(s.rows, s.queue, last, n);
        AppendedTimed(s.rows, s.queue[1..], r, last, now, n);
      } else {
        AppendedTimed(s.rows, s.queue, r, last, now, n);
      }
    }
  }

  lemma QueueStarted(s: State, last: real)
    requires Timed(s, last)
    ensures DistinctKeys(s.queue) && forall i :: 0 <= i < |s.queue| ==> s.queue[i].events != []
  {
  }

  lemma RowsOlder(s: State, last: real, now: real)
    requires Timed(s, last) && last <= now
    ensures Old(s.rows, now) && StartedBelow(s.rows, |s.history| + 1)
  {
  }

  lemma MergedFirst(r: Record, n: nat, status: Status)
    ensures var m := Merged(r, n, status); m.events != [] && (r.events != [] ==> First(m) == First(r))
  {
  }

  lemma MergedTimed(rows: seq<Record>, q: seq<Record>, i: nat, m: Record, last: real, now: real, n: nat)
    requires QueueTimed(rows, q, last, n) && i < |q| && last <= now
    requires m.key == q[i].key && m.firstSeen == q[i].firstSeen && m.events != [] && First(m) == First(q[i])
    ensures QueueTimed(rows, q[i := m], now, n + 1)
  {
    hide First;
    assert forall j :: 0 <= j < |q| ==>
      q[i := m][j].key == q[j].key && q[i := m][j].firstSeen == q[j].firstSeen && First(q[i := m][j]) == First(q[j]);
  }

  lemma TailTimed(rows: seq<Record>, q: seq<Record>, last: real, n: nat)
    requires QueueTimed(rows, q, last, n) && q != []
    ensures QueueTimed(rows, q[1..], last, n)
  {
    hide First;
  }

  lemma AppendedTimed(rows: seq<Record>, q: seq<Record>, r: Record, last: real, now: real, n: nat)
    requires QueueTimed(rows, q, last, n) && last <= now && StartedBelow(rows, n) && Old(rows, last)
    requires (forall j :: 0 <= j < |q| ==> q[j].key != r.key) && r.firstSeen == now && r.events == [n]
    ensures QueueTimed(rows, q + [r], now, n + 1)
  {
    assert First(r) == n;
    hide First;
  }

  /** The rows after the insertions for the first `k` pending records. */
  predicate Fitting(rows: seq<Record>, q: seq<Record>, k: nat)
    requires k <= |q|
  {
    && Apart(rows) && ApartFrom(rows, q[k..]) && Increasing(rows) && Before(rows, q[k..])
  }

  lemma {:induction false} InsertDueTimed(s: State, q: seq<Record>, k: nat, now: real, oracle: Oracle)
    requires k <= |q| && DistinctKeys(q) && Increasing(q) && Fitting(s.rows, q, 0)
    ensures Fitting(InsertDue(s, q, k, now, oracle).rows, q, k)
  {
    hide Fitting, Apart, ApartFrom, Increasing, Before, DistinctKeys, IsDue;
    if k > 0 {
      InsertDueTimed(s, q, k - 1, now, oracle);
      var t := InsertDue(s, q, k - 1, now, oracle);
      InsertedRows(t, q[k - 1], oracle);
      FitNext(t.rows, q, k - 1);
    }
  }

  /** Whether the next record is put behind the rows or not, they fit the rest of the queue. */
  lemma FitNext(rows: seq<Record>, q: seq<Record>, k: nat)
    requires k < |q| && DistinctKeys(q) && Increasing(q) && Fitting(rows, q, k)
    ensures Fitting(rows, q, k + 1) && Fitting(rows + [q[k]], q, k + 1)
  {
    hide First;
    var tail := q[k..];
    assert tail[0] == q[k] && tail[1..] == q[k + 1..];
  }

  /** What is not due is younger than what is, and of another key. */
  lemma YoungFits(q: seq<Record>, last: real, now: real, before: seq<Record>, rows: seq<Record>, n: nat)
    requires DistinctKeys(q) && Aged(q, last) && last <= now && Increasing(q) && StartedBelow(q, n)
    requires ApartFrom(before, q) && Before(before, q)
    requires forall r :: r in rows ==> r in before || exists i :: 0 <= i < |q| && q[i] == r && IsDue(r, now)
    ensures var y := Young(q, now);
            && DistinctKeys(y) && Aged(y, now) && Increasing(y) && StartedBelow(y, n)
            && ApartFrom(rows, y) && Before(rows, y)
  {
    hide First, Young;
    var y := Young(q, now);
    YoungKeys(q, now);
    YoungIncreasing(q, now);
    YoungIn(q, now);
    forall i, j | 0 <= i < |rows| && 0 <= j < |y|
      ensures First(rows[i]) < First(y[j])
      ensures rows[i].key == y[j].key ==> y[j].firstSeen - rows[i].firstSeen >= 5.0
    {
      assert rows[i] in rows;
      var b :| 0 <= b < |q| && q[b] == y[j];
      if rows[i] in before {
        var a :| 0 <= a < |before| && before[a] == rows[i];
      } else {
        var a :| 0 <= a < |q| && q[a] == rows[i] && IsDue(rows[i], now);
        assert a != b;
      }
    }
  }

  lemma FlushTimed(s: State, last: real, now: real, oracle: Oracle)
    requires Timed(s, last) && last <= now
    ensures Timed(Flush(s, now, oracle), now)
  {
    hide InsertDue, Young, First;
    var q, t := s.queue, Flush(s, now, oracle);
    assert q[0..] == q;
    InsertDueTimed(s, q, |q|, now, oracle);
    InsertDueMembers(s, q, |q|, now, oracle);
    YoungFits(q, last, now, s.rows, t.rows, |s.history|);
    forall i | 0 <= i < |t.rows|
      ensures now - t.rows[i].firstSeen >= 5.0 && t.rows[i].events != [] && First(t.rows[i]) < |s.history|
    {
      assert t.rows[i] in t.rows;
    }
  }

  lemma FlushLeavesYoung(s: State, now: real, oracle: Oracle)
    ensures var q := Flush(s, now, oracle).queue; forall i :: 0 <= i < |q| ==> now - q[i].firstSeen < 5.0
  {
    hide InsertDue, Young;
    YoungIn(s.queue, now);
  }

  lemma InitialTimed(now: real)
    ensures Timed(INITIAL, now)
  {
  }

  /** The clock reading of the last flush of the first `n` lines. */
  function LastFlush(lines: seq<Line>, n: nat, start: real): real
    requires n <= |lines|
  {
    if n == 0 then start else lines[n - 1].flushed
  }

  lemma {:induction false} RunTimed(lines: seq<Line>, n: nat, start: real, oracle: Oracle)
    requires n <= |lines| && ClockAdvances(lines) && (lines != [] ==> start <= lines[0].seen)
    ensures Timed(Run(INITIAL, lines, n, oracle), LastFlush(lines, n, start))
  {
    hide Timed, Process, Flush;
    if n == 0 {
      InitialTimed(start);
    } else {
      RunTimed(lines, n - 1, start, oracle);
      var s, l := Run(INITIAL, lines, n - 1, oracle), lines[n - 1];
      ProcessTimed(s, l.event, LastFlush(lines, n - 1, start), l.seen);
      FlushTimed(Process(s, l.event, l.seen), l.seen, l.flushed, oracle);
    }
  }

  /**
  What the table says of the log, over every whole run with a clock that does not go back: the rows are in
  the order of the lines that started them, two rows of the same key began at least five seconds apart,
  every row began at least five seconds before the end, and every record still pending less than that.
  */
  lemma TableIsDeduplicated(lines: seq<Line>, end: real, oracle: Oracle)
    requires ClockAdvances(lines) && (lines != [] ==> lines[|lines| - 1].flushed <= end)
    ensures var rows := WholeRun(INITIAL, lines, end, oracle).rows;
            && AllTell(rows, lines, |lines|)
            && (forall i, j :: 0 <= i < j < |rows| ==> First(rows[i]) < First(rows[j]))
            && (forall i, j :: 0 <= i < j < |rows| && rows[i].key == rows[j].key ==>
                  lines[First(rows[j])].seen - lines[First(rows[i])].seen >= 5.0)
            && (forall i :: 0 <= i < |rows| ==> end - lines[First(rows[i])].seen >= 5.0)
    ensures var q := WholeRun(INITIAL, lines, end, oracle).queue;
            AllTell(q, lines, |lines|) && forall i :: 0 <= i < |q| ==> end - lines[First(q[i])].seen < 5.0
  {
    hide Flush, Run, First;
    var start := if lines == [] then end else lines[0].seen;
    var s, t := Run(INITIAL, lines, |lines|, oracle), WholeRun(INITIAL, lines, end, oracle);
    RunTimed(lines, |lines|, start, oracle);
    FlushTimed(s, LastFlush(lines, |lines|, start), end, oracle);
    WholeRunTells(lines, end, oracle);
    FlushLeavesYoung(s, end, oracle);
    assert forall i :: 0 <= i < |t.rows| ==> Tells(t.rows[i], lines, |lines|);
    assert forall i :: 0 <= i < |t.queue| ==> Tells(t.queue[i], lines, |lines|);
  }
}
