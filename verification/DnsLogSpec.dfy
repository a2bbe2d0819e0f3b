/**
The DNS log of bin/run_unbound.py as a state machine on values: log lines are merged into pending
records by key, records older than a window are inserted into a database table, and a full queue
drops its oldest record.
*/
module DnsLogSpec {
  const DEDUP_WINDOW: real := 5.0
  const MAX_PENDING: nat := 25

  datatype Status = Allowed | Blocked

  datatype Key = Key(domain: string, epoch: int, vlan: int)

  /** A parsed log line. */
  datatype Event = Event(key: Key, client: string, status: Status)

  /** A pending record; `events` are the numbers of the log lines merged into it. */
  datatype Record = Record(
    key: Key, client: string, status: Status, firstSeen: real, inserted: bool, events: seq<nat>)

  /** How an insertion went. The last case is a row committed by a call that then failed. */
  datatype Outcome = Stored | Rejected | StoredUnreported

  type Oracle = nat -> Outcome

  /**
  The state of a run. `rows` is the table; every record that left the queue is in exactly one of
  `reported`, `unreported`, `rejected` and `evicted`.
  */
  datatype State = State(
    history: seq<Event>, queue: seq<Record>, rows: seq<Record>,
    reported: seq<Record>, unreported: seq<Record>, rejected: seq<Record>, evicted: seq<Record>,
    created: nat, allowed: nat, blocked: nat, lateUpdates: nat)

  const INITIAL: State := State([], [], [], [], [], [], [], 0, 0, 0, 0)

  function Attempts(s: State): nat {
    |s.reported| + |s.unreported| + |s.rejected|
  }

  // ---------------------------------------------------------------------------------------------
  // One line
  // ---------------------------------------------------------------------------------------------

  /** The first pending record with the key, or |q|. */
  function FindKey(q: seq<Record>, key: Key): (i: nat)
    ensures i <= |q|
    ensures i < |q| ==> q[i].key == key
    ensures forall j :: 0 <= j < i ==> q[j].key != key
  {
    if q == [] || q[0].key == key then 0 else 1 + FindKey(q[1..], key)
  }

  function Merged(r: Record, n: nat, status: Status): Record {
    r.(status := if status == Blocked then Blocked else r.status, events := r.events + [n])
  }

  /** The line is merged into pending record `i`; `lateUpdates` counts updates of rows already inserted. */
  function MergeAt(s: State, i: nat, e: Event): State
    requires i < |s.queue|
  {
    var late := e.status == Blocked && s.queue[i].status != Blocked && s.queue[i].inserted;
    s.(history := s.history + [e],
       queue := s.queue[i := Merged(s.queue[i], |s.history|, e.status)],
       lateUpdates := s.lateUpdates + if late then 1 else 0)
  }

  /** The line starts a record of its own; a full queue loses its oldest record. */
  function AppendNew(s: State, e: Event, now: real): State {
    var r := Record(e.key, e.client, e.status, now, false, [|s.history|]);
    if |s.queue| >= MAX_PENDING then
      s.(history := s.history + [e], created := s.created + 1,
         queue := s.queue[1..] + [r], evicted := s.evicted + [s.queue[0]])
    else
      s.(history := s.history + [e], created := s.created + 1, queue := s.queue + [r])
  }

  /** process_line at time `now`. */
  function Process(s: State, e: Event, now: real): State {
    var i := FindKey(s.queue, e.key);
    if i < |s.queue| then MergeAt(s, i, e) else AppendNew(s, e, now)
  }

  // ---------------------------------------------------------------------------------------------
  // Flushing
  // ---------------------------------------------------------------------------------------------

  predicate IsDue(r: Record, now: real) {
    now - r.firstSeen >= DEDUP_WINDOW
  }

  /** The insertion of one due record. */
  function Inserted(s: State, r: Record, oracle: Oracle): State {
    if r.inserted then s
    else match oracle(Attempts(s))
      case Rejected => s.(rejected := s.rejected + [r])
      case StoredUnreported => s.(rows := s.rows + [r], unreported := s.unreported + [r])
      case Stored =>
        var s1 := s.(rows := s.rows + [r], reported := s.reported + [r]);
        if r.status == Blocked then s1.(blocked := s.blocked + 1) else s1.(allowed := s.allowed + 1)
  }

  /** The insertions for the first `k` records of `q`. */
  function InsertDue(s: State, q: seq<Record>, k: nat, now: real, oracle: Oracle): (r: State)
    requires k <= |q|
    ensures r.queue == s.queue && r.history == s.history && r.evicted == s.evicted && r.created == s.created
    ensures r.lateUpdates == s.lateUpdates
  {
    if k == 0 then s
    else
      var s1 := InsertDue(s, q, k - 1, now, oracle);
      if IsDue(q[k - 1], now) then Inserted(s1, q[k - 1], oracle) else s1
  }

  /** The records of `q` that are not due. */
  function Young(q: seq<Record>, now: real): (r: seq<Record>)
    ensures |r| <= |q|
  {
    if q == [] then []
    else if IsDue(q[|q| - 1], now) then Young(q[..|q| - 1], now)
    else Young(q[..|q| - 1], now) + [q[|q| - 1]]
  }

  /** flush_pending at time `now`. */
  function Flush(s: State, now: real, oracle: Oracle): State {
    InsertDue(s, s.queue, |s.queue|, now, oracle).(queue := Young(s.queue, now))
  }

  // ---------------------------------------------------------------------------------------------
  // Runs
  // ---------------------------------------------------------------------------------------------

  /** A matching line with the clock readings of its processing and of the flush after it. */
  datatype Line = Line(event: Event, seen: real, flushed: real)

  /** The state after the first `n` lines of a run that begins in `start`. */
  function Run(start: State, lines: seq<Line>, n: nat, oracle: Oracle): State
    requires n <= |lines|
  {
    if n == 0 then start
    else
      var l := lines[n - 1];
      Flush(Process(Run(start, lines, n - 1, oracle), l.event, l.seen), l.flushed, oracle)
  }

  /** A whole run: every line, then the flush on the way out. */
  function WholeRun(start: State, lines: seq<Line>, end: real, oracle: Oracle): State {
    Flush(Run(start, lines, |lines|, oracle), end, oracle)
  }

  // ---------------------------------------------------------------------------------------------
  // Invariant
  // ---------------------------------------------------------------------------------------------

  /** A record stands for lines of its own key, and is blocked iff one of them is. */
  predicate Sound(r: Record, history: seq<Event>) {
    && r.events != []
    && (forall k :: 0 <= k < |r.events| ==> r.events[k] < |history| && history[r.events[k]].key == r.key)
    && (r.status == Blocked <==> exists k :: 0 <= k < |r.events| && history[r.events[k]].status == Blocked)
  }

  predicate AllSound(rs: seq<Record>, history: seq<Event>) {
    forall i :: 0 <= i < |rs| ==> Sound(rs[i], history)
  }

  predicate DistinctKeys(q: seq<Record>) {
    forall i, j :: 0 <= i < j < |q| ==> q[i].key != q[j].key
  }

  predicate NoneInserted(q: seq<Record>) {
    forall i :: 0 <= i < |q| ==> !q[i].inserted
  }

  predicate QueueOk(q: seq<Record>) {
    |q| <= MAX_PENDING && DistinctKeys(q) && NoneInserted(q)
  }

  /** How often line `n` occurs among the merged lines of a record. */
  function Occurs(events: seq<nat>, n: nat): nat {
    if events == [] then 0 else Occurs(events[..|events| - 1], n) + if events[|events| - 1] == n then 1 else 0
  }

  /** How often line `n` occurs in a list of records. */
  function OccursIn(rs: seq<Record>, n: nat): nat {
    if rs == [] then 0 else OccursIn(rs[..|rs| - 1], n) + Occurs(rs[|rs| - 1].events, n)
  }

  function OccursLeft(s: State, n: nat): nat {
    OccursIn(s.reported, n) + OccursIn(s.unreported, n) + OccursIn(s.rejected, n)
  }

  /** Every line processed so far is in exactly one record, and in it once. */
  ghost predicate EveryLineOnce(s: State) {
    forall n: nat ::
      OccursIn(s.queue, n) + OccursLeft(s, n) + OccursIn(s.evicted, n) == if n < |s.history| then 1 else 0
  }

  function CountBlocked(rs: seq<Record>): (n: nat)
    ensures n <= |rs|
  {
    if rs == [] then 0
    else CountBlocked(rs[..|rs| - 1]) + if rs[|rs| - 1].status == Blocked then 1 else 0
  }

  /** Records created = inserted + failed + evicted + pending. */
  predicate EveryRecordOnce(s: State) {
    s.created == |s.queue| + Attempts(s) + |s.evicted|
  }

  /** The table holds the reported insertions and the unreported ones; the counters count the reported. */
  predicate TableOk(s: State) {
    && multiset(s.rows) == multiset(s.reported) + multiset(s.unreported)
    && s.allowed + s.blocked == |s.reported| && s.blocked == CountBlocked(s.reported)
  }

  predicate Records(s: State) {
    QueueOk(s.queue) && AllSound(s.queue, s.history) && AllSound(s.rows, s.history)
  }

  /** Everything is accounted for; this is what every run keeps. */
  ghost predicate Invariant(s: State) {
    Records(s) && EveryLineOnce(s) && EveryRecordOnce(s) && TableOk(s) && s.lateUpdates == 0
  }

  // ---------------------------------------------------------------------------------------------
  // Lists of records
  // ---------------------------------------------------------------------------------------------

  lemma OccursInAppend(rs: seq<Record>, r: Record, n: nat)
    ensures OccursIn(rs + [r], n) == OccursIn(rs, n) + Occurs(r.events, n)
  {
    assert (rs + [r])[..|rs|] == rs;
  }

  lemma {:induction false} OccursInTail(rs: seq<Record>, n: nat)
    requires rs != []
    ensures OccursIn(rs, n) == Occurs(rs[0].events, n) + OccursIn(rs[1..], n)
  {
    if |rs| > 1 {
      var front := rs[..|rs| - 1];
      OccursInTail(front, n);
      assert rs[1..][..|rs| - 2] == front[1..];
    }
  }

  lemma {:induction false} OccursInUpdate(rs: seq<Record>, i: nat, m: nat, status: Status, n: nat)
    requires i < |rs|
    ensures OccursIn(rs[i := Merged(rs[i], m, status)], n) == OccursIn(rs, n) + if n == m then 1 else 0
  {
    var rs' := rs[i := Merged(rs[i], m, status)];
    var front := rs[..|rs| - 1];
    if i == |rs| - 1 {
      assert rs'[..|rs| - 1] == front;
      assert (rs[i].events + [m])[..|rs[i].events|] == rs[i].events;
    } else {
      assert rs'[..|rs| - 1] == front[i := Merged(front[i], m, status)];
      OccursInUpdate(front, i, m, status, n);
    }
  }

  lemma CountBlockedAppend(rs: seq<Record>, r: Record)
    ensures CountBlocked(rs + [r]) == CountBlocked(rs) + if r.status == Blocked then 1 else 0
  {
    assert (rs + [r])[..|rs|] == rs;
  }

  /** More history does not unsettle a record. */
  lemma SoundExtends(r: Record, history: seq<Event>, e: Event)
    requires Sound(r, history)
    ensures Sound(r, history + [e])
  {
    var h := history + [e];
    assert forall k :: 0 <= k < |r.events| ==> h[r.events[k]] == history[r.events[k]];
  }

  lemma AllSoundExtends(rs: seq<Record>, history: seq<Event>, e: Event)
    requires AllSound(rs, history)
    ensures AllSound(rs, history + [e])
  {
    forall i | 0 <= i < |rs|
      ensures Sound(rs[i], history + [e])
    {
      SoundExtends(rs[i], history, e);
    }
  }

  lemma MergedIsSound(r: Record, history: seq<Event>, e: Event)
    requires Sound(r, history) && e.key == r.key
    ensures Sound(Merged(r, |history|, e.status), history + [e])
  {
    var h, m := history + [e], Merged(r, |history|, e.status);
    assert m.events[|r.events|] == |history|;
    assert forall k :: 0 <= k < |r.events| ==> m.events[k] == r.events[k] && h[r.events[k]] == history[r.events[k]];
    if r.status == Blocked {
      var k :| 0 <= k < |r.events| && history[r.events[k]].status == Blocked;
      assert h[m.events[k]].status == Blocked;
    }
    if e.status == Blocked {
      assert h[m.events[|r.events|]].status == Blocked;
    }
  }

  lemma NewRecordIsSound(history: seq<Event>, e: Event, now: real)
    ensures Sound(Record(e.key, e.client, e.status, now, false, [|history|]), history + [e])
  {
    var h, r := history + [e], Record(e.key, e.client, e.status, now, false, [|history|]);
    assert h[r.events[0]] == e;
  }

  // ---------------------------------------------------------------------------------------------
  // A line keeps the invariant
  // ---------------------------------------------------------------------------------------------

  lemma ProcessKeepsRecords(s: State, e: Event, now: real)
    requires Records(s)
    ensures Records(Process(s, e, now))
    ensures Process(s, e, now).lateUpdates == s.lateUpdates
  {
    AllSoundExtends(s.queue, s.history, e);
    AllSoundExtends(s.rows, s.history, e);
    var i := FindKey(s.queue, e.key);
    if i < |s.queue| {
      MergedIsSound(s.queue[i], s.history, e);
    } else {
      NewRecordIsSound(s.history, e, now);
    }
  }

  lemma ProcessKeepsQueue(s: State, e: Event, now: real)
    requires QueueOk(s.queue)
    ensures QueueOk(Process(s, e, now).queue)
  {
  }

  lemma ProcessKeepsLines(s: State, e: Event, now: real, n: nat)
    ensures var t := Process(s, e, now);
            OccursIn(t.queue, n) + OccursIn(t.evicted, n)
            == OccursIn(s.queue, n) + OccursIn(s.evicted, n) + if n == |s.history| then 1 else 0
  {
    var i, m := FindKey(s.queue, e.key), |s.history|;
    if i < |s.queue| {
      OccursInUpdate(s.queue, i, m, e.status, n);
    } else {
      var r := Record(e.key, e.client, e.status, now, false, [m]);
      assert r.events == [] + [m];
      assert Occurs(r.events, n) == if n == m then 1 else 0;
      if |s.queue| >= MAX_PENDING {
        OccursInTail(s.queue, n);
        OccursInAppend(s.queue[1..], r, n);
        OccursInAppend(s.evicted, s.queue[0], n);
      } else {
        OccursInAppend(s.queue, r, n);
      }
    }
  }

  /** Merging, appending and evicting keep the invariant; in particular no late update fires. */
  lemma ProcessKeepsInvariant(s: State, e: Event, now: real)
    requires Invariant(s)
    ensures Invariant(Process(s, e, now))
  {
    ProcessKeepsRecords(s, e, now);
    var t := Process(s, e, now);
    forall n: nat
      ensures OccursIn(t.queue, n) + OccursLeft(t, n) + OccursIn(t.evicted, n) == if n < |t.history| then 1 else 0
    {
      ProcessKeepsLines(s, e, now, n);
      assert OccursIn(s.queue, n) + OccursLeft(s, n) + OccursIn(s.evicted, n) == if n < |s.history| then 1 else 0;
    }
  }

  // ---------------------------------------------------------------------------------------------
  // A flush keeps the invariant
  // ---------------------------------------------------------------------------------------------

  lemma {:induction false} YoungMembers(q: seq<Record>, now: real, r: Record)
    ensures r in Young(q, now) <==> r in q && !IsDue(r, now)
  {
    if q != [] {
      YoungMembers(q[..|q| - 1], now, r);
      assert q == q[..|q| - 1] + [q[|q| - 1]];
    }
  }

  lemma {:induction false} YoungKeys(q: seq<Record>, now: real)
    requires DistinctKeys(q)
    ensures DistinctKeys(Young(q, now))
  {
    if q != [] {
      var front, last := q[..|q| - 1], q[|q| - 1];
      YoungKeys(front, now);
      forall i | 0 <= i < |Young(front, now)|
        ensures Young(front, now)[i].key != last.key
      {
        YoungMembers(front, now, Young(front, now)[i]);
      }
    }
  }

  lemma YoungQueueOk(q: seq<Record>, now: real)
    requires QueueOk(q)
    ensures QueueOk(Young(q, now))
  {
    YoungKeys(q, now);
    var y := Young(q, now);
    forall i | 0 <= i < |y|
      ensures !y[i].inserted
    {
      YoungMembers(q, now, y[i]);
    }
  }

  lemma FlushQueue(s: State, now: real, oracle: Oracle)
    requires QueueOk(s.queue)
    ensures Flush(s, now, oracle).queue == Young(s.queue, now) && QueueOk(Young(s.queue, now))
  {
    YoungQueueOk(s.queue, now);
  }

  lemma YoungOk(q: seq<Record>, now: real, history: seq<Event>)
    requires QueueOk(q) && AllSound(q, history)
    ensures QueueOk(Young(q, now)) && AllSound(Young(q, now), history)
    ensures forall i :: 0 <= i < |Young(q, now)| ==> !IsDue(Young(q, now)[i], now)
  {
    YoungQueueOk(q, now);
    var y := Young(q, now);
    forall i | 0 <= i < |y|
      ensures Sound(y[i], history) && !IsDue(y[i], now)
    {
      YoungMembers(q, now, y[i]);
      var j :| 0 <= j < |q| && q[j] == y[i];
    }
  }

  lemma InsertedTable(s: State, r: Record, oracle: Oracle)
    requires TableOk(s)
    ensures TableOk(Inserted(s, r, oracle))
  {
    CountBlockedAppend(s.reported, r);
  }

  lemma {:induction false} InsertDueTable(s: State, q: seq<Record>, k: nat, now: real, oracle: Oracle)
    requires TableOk(s) && k <= |q|
    ensures TableOk(InsertDue(s, q, k, now, oracle))
  {
    if k > 0 {
      InsertDueTable(s, q, k - 1, now, oracle);
      InsertedTable(InsertDue(s, q, k - 1, now, oracle), q[k - 1], oracle);
    }
  }

  lemma {:induction false} InsertDueSound(s: State, q: seq<Record>, k: nat, now: real, oracle: Oracle)
    requires AllSound(q, s.history) && AllSound(s.rows, s.history) && k <= |q|
    ensures AllSound(InsertDue(s, q, k, now, oracle).rows, s.history)
  {
    if k > 0 {
      InsertDueSound(s, q, k - 1, now, oracle);
      var t := InsertDue(s, q, k - 1, now, oracle);
      assert Inserted(t, q[k - 1], oracle).rows == t.rows || Inserted(t, q[k - 1], oracle).rows == t.rows + [q[k - 1]];
    }
  }

  /** Each due record is attempted once; the others stay pending. */
  lemma {:induction false} InsertDueCount(s: State, q: seq<Record>, k: nat, now: real, oracle: Oracle)
    requires NoneInserted(q) && k <= |q|
    ensures Attempts(InsertDue(s, q, k, now, oracle)) + |Young(q[..k], now)| == Attempts(s) + k
  {
    if k > 0 {
      InsertDueCount(s, q, k - 1, now, oracle);
      assert q[..k][..k - 1] == q[..k - 1];
    }
  }

  lemma InsertedLines(s: State, r: Record, oracle: Oracle, n: nat)
    requires !r.inserted
    ensures OccursLeft(Inserted(s, r, oracle), n) == OccursLeft(s, n) + Occurs(r.events, n)
  {
    match oracle(Attempts(s)) {
      case Stored => OccursInAppend(s.reported, r, n);
      case StoredUnreported => OccursInAppend(s.unreported, r, n);
      case Rejected => OccursInAppend(s.rejected, r, n);
    }
  }

  /** Each line of the queue is moved to exactly one of the lists, or stays pending. */
  lemma {:induction false} InsertDueLines(s: State, q: seq<Record>, k: nat, now: real, oracle: Oracle, n: nat)
    requires NoneInserted(q) && k <= |q|
    ensures OccursLeft(InsertDue(s, q, k, now, oracle), n) + OccursIn(Young(q[..k], now), n)
         == OccursLeft(s, n) + OccursIn(q[..k], n)
  {
    if k > 0 {
      hide OccursLeft, Inserted;
      InsertDueLines(s, q, k - 1, now, oracle, n);
      assert q[..k][..k - 1] == q[..k - 1];
      if IsDue(q[k - 1], now) {
        InsertedLines(InsertDue(s, q, k - 1, now, oracle), q[k - 1], oracle, n);
      } else {
        OccursInAppend(Young(q[..k - 1], now), q[k - 1], n);
      }
    }
  }

  lemma FlushRecords(s: State, now: real, oracle: Oracle)
    requires Invariant(s)
    ensures var t := Flush(s, now, oracle);
      Records(t) && t.lateUpdates == 0 && forall i :: 0 <= i < |t.queue| ==> !IsDue(t.queue[i], now)
  {
    hide InsertDue, Young, QueueOk, AllSound, EveryLineOnce, EveryRecordOnce, TableOk, IsDue;
    InsertDueSound(s, s.queue, |s.queue|, now, oracle);
    YoungOk(s.queue, now, s.history);
  }

  lemma FlushCounts(s: State, now: real, oracle: Oracle)
    requires Invariant(s)
    ensures EveryRecordOnce(Flush(s, now, oracle)) && TableOk(Flush(s, now, oracle))
  {
    hide InsertDue, Young, AllSound, EveryLineOnce, DistinctKeys, NoneInserted, CountBlocked;
    assert s.queue[..|s.queue|] == s.queue;
    InsertDueTable(s, s.queue, |s.queue|, now, oracle);
    InsertDueCount(s, s.queue, |s.queue|, now, oracle);
  }

  lemma FlushLine(s: State, now: real, oracle: Oracle, n: nat)
    requires NoneInserted(s.queue)
    ensures var t := Flush(s, now, oracle);
      OccursIn(t.queue, n) + OccursLeft(t, n) + OccursIn(t.evicted, n)
      == OccursIn(s.queue, n) + OccursLeft(s, n) + OccursIn(s.evicted, n)
  {
    hide InsertDue, Young, OccursIn, NoneInserted;
    assert s.queue[..|s.queue|] == s.queue;
    InsertDueLines(s, s.queue, |s.queue|, now, oracle, n);
  }

  lemma FlushLines(s: State, now: real, oracle: Oracle)
    requires Invariant(s)
    ensures EveryLineOnce(Flush(s, now, oracle))
  {
    hide InsertDue, Young, OccursIn, OccursLeft, AllSound, EveryRecordOnce, TableOk, DistinctKeys, NoneInserted;
    var t := Flush(s, now, oracle);
    forall n: nat
      ensures OccursIn(t.queue, n) + OccursLeft(t, n) + OccursIn(t.evicted, n) == if n < |t.history| then 1 else 0
    {
      FlushLine(s, now, oracle, n);
    }
  }

  /** A flush keeps the invariant and leaves only records inside the window. */
  lemma FlushKeepsInvariant(s: State, now: real, oracle: Oracle)
    requires Invariant(s)
    ensures Invariant(Flush(s, now, oracle))
    ensures var q := Flush(s, now, oracle).queue; forall i :: 0 <= i < |q| ==> !IsDue(q[i], now)
  {
    hide Flush, Records, EveryLineOnce, EveryRecordOnce, TableOk;
    FlushRecords(s, now, oracle);
    FlushCounts(s, now, oracle);
    FlushLines(s, now, oracle);
  }

  lemma EmptyLists(s: State, n: nat)
    requires s.queue == [] && s.reported == [] && s.unreported == [] && s.rejected == [] && s.evicted == []
    ensures OccursIn(s.queue, n) == 0 && OccursLeft(s, n) == 0 && OccursIn(s.evicted, n) == 0
  {
  }

  lemma InitialLines(s: State)
    requires s == INITIAL
    ensures EveryLineOnce(s)
  {
    forall n: nat
      ensures OccursIn(s.queue, n) + OccursLeft(s, n) + OccursIn(s.evicted, n) == if n < |s.history| then 1 else 0
    {
      EmptyLists(s, n);
    }
  }

  lemma InitialRest(s: State)
    requires s == INITIAL
    ensures Records(s) && EveryRecordOnce(s) && TableOk(s)
  {
  }

  lemma InitialInvariant(s: State)
    requires s == INITIAL
    ensures Invariant(s)
  {
    InitialLines(s);
    InitialRest(s);
  }

  /** Every run keeps the invariant, whatever the clock readings and the database do. */
  lemma {:induction false} RunKeepsInvariant(start: State, lines: seq<Line>, n: nat, oracle: Oracle)
    requires n <= |lines| && Invariant(start)
    ensures Invariant(Run(start, lines, n, oracle))
    ensures |Run(start, lines, n, oracle).history| == |start.history| + n
  {
    hide Invariant;
    if n > 0 {
      RunKeepsInvariant(start, lines, n - 1, oracle);
      var l, s := lines[n - 1], Run(start, lines, n - 1, oracle);
      ProcessKeepsInvariant(s, l.event, l.seen);
      FlushKeepsInvariant(Process(s, l.event, l.seen), l.flushed, oracle);
    }
  }

  lemma WholeRunKeepsInvariant(start: State, lines: seq<Line>, end: real, oracle: Oracle)
    requires Invariant(start)
    ensures Invariant(WholeRun(start, lines, end, oracle))
    ensures |WholeRun(start, lines, end, oracle).history| == |start.history| + |lines|
  {
    RunKeepsInvariant(start, lines, |lines|, oracle);
    FlushKeepsInvariant(Run(start, lines, |lines|, oracle), end, oracle);
  }

  // ---------------------------------------------------------------------------------------------
  // Counters and database answers
  // ---------------------------------------------------------------------------------------------

  /** How many of the first `n` insertions the database answered with `o`. */
  function Answered(oracle: Oracle, n: nat, o: Outcome): (k: nat)
    ensures k <= n
  {
    if n == 0 then 0 else Answered(oracle, n - 1, o) + if oracle(n - 1) == o then 1 else 0
  }

  /** Every insertion so far is in the list of its answer. */
  predicate AnswersOk(s: State, oracle: Oracle) {
    && |s.reported| == Answered(oracle, Attempts(s), Stored)
    && |s.unreported| == Answered(oracle, Attempts(s), StoredUnreported)
    && |s.rejected| == Answered(oracle, Attempts(s), Rejected)
  }

  lemma {:induction false} InsertDueAnswers(s: State, q: seq<Record>, k: nat, now: real, oracle: Oracle)
    requires AnswersOk(s, oracle) && k <= |q|
    ensures AnswersOk(InsertDue(s, q, k, now, oracle), oracle)
  {
    if k > 0 {
      InsertDueAnswers(s, q, k - 1, now, oracle);
      InsertedAnswers(InsertDue(s, q, k - 1, now, oracle), q[k - 1], oracle);
    }
  }

  lemma InsertedAnswers(s: State, r: Record, oracle: Oracle)
    requires AnswersOk(s, oracle)
    ensures AnswersOk(Inserted(s, r, oracle), oracle)
  {
    if !r.inserted {
      var n := Attempts(s);
      assert Answered(oracle, n + 1, Stored) == Answered(oracle, n, Stored) + if oracle(n) == Stored then 1 else 0;
      assert Answered(oracle, n + 1, Rejected) == Answered(oracle, n, Rejected) + if oracle(n) == Rejected then 1 else 0;
    }
  }

  lemma ProcessAnswers(s: State, e: Event, now: real, oracle: Oracle)
    requires AnswersOk(s, oracle)
    ensures AnswersOk(Process(s, e, now), oracle)
  {
    hide Answered;
  }

  lemma FlushAnswers(s: State, now: real, oracle: Oracle)
    requires AnswersOk(s, oracle)
    ensures AnswersOk(Flush(s, now, oracle), oracle)
  {
    hide InsertDue, Answered;
    InsertDueAnswers(s, s.queue, |s.queue|, now, oracle);
  }

  lemma {:induction false} RunAnswers(start: State, lines: seq<Line>, n: nat, oracle: Oracle)
    requires n <= |lines| && AnswersOk(start, oracle)
    ensures AnswersOk(Run(start, lines, n, oracle), oracle)
  {
    if n > 0 {
      hide AnswersOk, Flush, Process;
      RunAnswers(start, lines, n - 1, oracle);
      var l, s := lines[n - 1], Run(start, lines, n - 1, oracle);
      ProcessAnswers(s, l.event, l.seen, oracle);
      FlushAnswers(Process(s, l.event, l.seen), l.flushed, oracle);
    }
  }

  lemma {:induction false} NoneAnswered(oracle: Oracle, n: nat, o: Outcome)
    ensures Answered(oracle, n, o) == 0 <==> forall i :: 0 <= i < n ==> oracle(i) != o
  {
    if n > 0 {
      NoneAnswered(oracle, n - 1, o);
    }
  }

  /**
  The counters count the insertions that were stored and reported, the table also holds those that were
  stored and then failed; so they agree exactly when the database never did the latter.
  */
  lemma CountersFollowAnswers(start: State, lines: seq<Line>, end: real, oracle: Oracle)
    requires Invariant(start) && AnswersOk(start, oracle)
    ensures var s := WholeRun(start, lines, end, oracle); var n := Attempts(s);
            && s.allowed + s.blocked == Answered(oracle, n, Stored)
            && |s.rows| == Answered(oracle, n, Stored) + Answered(oracle, n, StoredUnreported)
            && (s.allowed + s.blocked == |s.rows| <==> forall i :: 0 <= i < n ==> oracle(i) != StoredUnreported)
  {
    hide Answered, InsertDue, Run, Flush;
    WholeRunKeepsInvariant(start, lines, end, oracle);
    RunAnswers(start, lines, |lines|, oracle);
    FlushAnswers(Run(start, lines, |lines|, oracle), end, oracle);
    var s := WholeRun(start, lines, end, oracle);
    assert |multiset(s.rows)| == |multiset(s.reported)| + |multiset(s.unreported)|;
    NoneAnswered(oracle, Attempts(s), StoredUnreported);
  }

  lemma InitialAnswers(s: State, oracle: Oracle)
    requires s == INITIAL
    ensures AnswersOk(s, oracle)
  {
  }

  // ---------------------------------------------------------------------------------------------
  // Rows
  // ---------------------------------------------------------------------------------------------

  lemma {:induction false} OccursInSplit(a: seq<Record>, b: seq<Record>, n: nat)
    ensures OccursIn(a + b, n) == OccursIn(a, n) + OccursIn(b, n)
  {
    if b == [] {
      assert a + b == a;
    } else {
      OccursInSplit(a, b[..|b| - 1], n);
      assert (a + b)[..|a + b| - 1] == a + b[..|b| - 1];
    }
  }

  lemma OccursInOne(r: Record, n: nat)
    ensures OccursIn([r], n) == Occurs(r.events, n)
  {
    assert [r][..0] == [];
  }

  lemma OccursInAround(rs: seq<Record>, i: nat, n: nat)
    requires i < |rs|
    ensures OccursIn(rs, n) == OccursIn(rs[..i] + rs[i + 1..], n) + Occurs(rs[i].events, n)
  {
    assert rs == rs[..i] + ([rs[i]] + rs[i + 1..]);
    OccursInSplit(rs[..i], [rs[i]] + rs[i + 1..], n);
    OccursInSplit([rs[i]], rs[i + 1..], n);
    OccursInSplit(rs[..i], rs[i + 1..], n);
    OccursInOne(rs[i], n);
  }

  lemma WithoutBoth(a: seq<Record>, b: seq<Record>, i: nat)
    requires a != [] && i < |b| && b[i] == a[|a| - 1] && multiset(a) == multiset(b)
    ensures multiset(a[..|a| - 1]) == multiset(b[..i] + b[i + 1..])
  {
    var x := b[i];
    assert a == a[..|a| - 1] + [x];
    assert b == b[..i] + ([x] + b[i + 1..]);
    assert multiset(a[..|a| - 1]) == multiset(a) - multiset{x};
    assert multiset(b[..i] + b[i + 1..]) == multiset(b) - multiset{x};
  }

  /** Only which records a list holds matters, not their order. */
  lemma {:induction false} OccursInPermuted(a: seq<Record>, b: seq<Record>, n: nat)
    requires multiset(a) == multiset(b)
    ensures OccursIn(a, n) == OccursIn(b, n)
  {
    if a == [] {
      assert |multiset(b)| == 0;
    } else {
      hide OccursIn, Occurs;
      var front, x := a[..|a| - 1], a[|a| - 1];
      assert front + a[|a|..] == front;
      assert x in multiset(b);
      var i :| 0 <= i < |b| && b[i] == x;
      WithoutBoth(a, b, i);
      OccursInPermuted(front, b[..i] + b[i + 1..], n);
      OccursInAround(b, i, n);
      OccursInAround(a, |a| - 1, n);
    }
  }

  lemma {:induction false} OccursAtLeastOnce(events: seq<nat>, k: nat)
    requires k < |events|
    ensures Occurs(events, events[k]) >= 1
  {
    if k < |events| - 1 {
      OccursAtLeastOnce(events[..|events| - 1], k);
    }
  }

  /** No log line is in two rows. */
  predicate RowsDistinct(rows: seq<Record>) {
    forall i, j, k, l ::
      0 <= i < j < |rows| && 0 <= k < |rows[i].events| && 0 <= l < |rows[j].events| ==>
        rows[i].events[k] != rows[j].events[l]
  }

  /** No record is inserted twice: the rows of the table stand for disjoint, non-empty sets of log lines. */
  lemma NoRowTwice(s: State)
    requires Invariant(s)
    ensures RowsDistinct(s.rows) && forall i, j :: 0 <= i < j < |s.rows| ==> s.rows[i] != s.rows[j]
  {
    forall i, j, k, l | 0 <= i < j < |s.rows| && 0 <= k < |s.rows[i].events| && 0 <= l < |s.rows[j].events|
      ensures s.rows[i].events[k] != s.rows[j].events[l]
    {
      LineInOneRow(s, s.rows[i].events[k]);
      TwoRowsTwice(s.rows, i, j, k, l);
    }
    forall i, j | 0 <= i < j < |s.rows|
      ensures s.rows[i] != s.rows[j]
    {
      assert Sound(s.rows[i], s.history) && Sound(s.rows[j], s.history);
      assert s.rows[i].events[0] != s.rows[j].events[0];
    }
  }

  lemma LineInOneRow(s: State, n: nat)
    requires Invariant(s)
    ensures OccursIn(s.rows, n) <= 1
  {
    hide OccursIn;
    OccursInSplit(s.reported, s.unreported, n);
    assert multiset(s.reported + s.unreported) == multiset(s.rows);
    OccursInPermuted(s.rows, s.reported + s.unreported, n);
    assert OccursIn(s.queue, n) + OccursLeft(s, n) + OccursIn(s.evicted, n) <= 1;
  }

  lemma TwoRowsTwice(rows: seq<Record>, i: nat, j: nat, k: nat, l: nat)
    requires i < j < |rows| && k < |rows[i].events| && l < |rows[j].events|
    ensures rows[i].events[k] == rows[j].events[l] ==> OccursIn(rows, rows[i].events[k]) >= 2
  {
    var n := rows[i].events[k];
    if n == rows[j].events[l] {
      hide OccursIn, Occurs;
      OccursInAround(rows, j, n);
      var rest := rows[..j] + rows[j + 1..];
      OccursInAround(rest, i, n);
      assert rest[i] == rows[i];
      OccursAtLeastOnce(rows[i].events, k);
      OccursAtLeastOnce(rows[j].events, l);
    }
  }
}
