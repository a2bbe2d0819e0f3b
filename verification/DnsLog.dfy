/**
The DNS log of bin/run_unbound.py as the program runs it: a bounded queue of mutable records, global
counters, and a database table reached through insertions that may fail.
*/
module DnsLog {
  import opened DnsLogSpec

  /** The dictionary of a pending record. `events` exists for the proof only. */
  class Pending {
    const key: Key
    const client: string
    const firstSeen: real
    var status: Status
    var inserted: bool
    ghost var events: seq<nat>

    constructor (e: Event, now: real, ghost n: nat)
      ensures View() == Record(e.key, e.client, e.status, now, false, [n])
    {
      key, client, firstSeen, status, inserted, events := e.key, e.client, now, e.status, false, [n];
    }

    ghost function View(): Record
      reads this
    {
      Record(key, client, status, firstSeen, inserted, events)
    }

    /** Equality of dictionaries: of their contents. */
    predicate SameContents(other: Pending)
      reads this, other
    {
      key == other.key && client == other.client && firstSeen == other.firstSeen
      && status == other.status && inserted == other.inserted
    }
  }

  predicate Distinct(q: seq<Pending>) {
    forall i, j :: 0 <= i < j < |q| ==> q[i] != q[j]
  }

  ghost function Views(q: seq<Pending>): (vs: seq<Record>)
    reads q
    ensures |vs| == |q|
    ensures forall i :: 0 <= i < |q| ==> vs[i] == q[i].View()
  {
    seq(|q|, i requires 0 <= i < |q| reads q => q[i].View())
  }

  // ---------------------------------------------------------------------------------------------
  // Removing objects from the queue
  // ---------------------------------------------------------------------------------------------

  /** The first record with the contents of `item`, or |q|. */
  function FirstAlike(q: seq<Pending>, item: Pending): (i: nat)
    reads q, item
    ensures i <= |q|
    ensures forall j :: 0 <= j < i ==> !q[j].SameContents(item)
    ensures i < |q| ==> q[i].SameContents(item)
  {
    if q == [] then 0 else if q[0].SameContents(item) then 0 else 1 + FirstAlike(q[1..], item)
  }

  lemma FirstAlikeIs(q: seq<Pending>, item: Pending, i: nat)
    requires i <= |q| && (forall j :: 0 <= j < i ==> !q[j].SameContents(item))
    requires i < |q| ==> q[i].SameContents(item)
    ensures FirstAlike(q, item) == i
  {
  }

  function Without(q: seq<Pending>, xs: set<Pending>): (r: seq<Pending>)
    ensures forall i :: 0 <= i < |r| ==> r[i] in q && r[i] !in xs
    ensures forall i :: 0 <= i < |q| && q[i] !in xs ==> q[i] in r
  {
    if q == [] then []
    else
      var front, last := q[..|q| - 1], q[|q| - 1];
      assert q == front + [last];
      if last in xs then Without(front, xs) else Without(front, xs) + [last]
  }

  lemma {:induction false} WithoutNothing(q: seq<Pending>, xs: set<Pending>)
    requires forall x :: x in q ==> x !in xs
    ensures Without(q, xs) == q
  {
    if q != [] {
      assert q == q[..|q| - 1] + [q[|q| - 1]];
      WithoutNothing(q[..|q| - 1], xs);
    }
  }

  lemma {:induction false} WithoutTwice(q: seq<Pending>, xs: set<Pending>, ys: set<Pending>)
    ensures Without(Without(q, xs), ys) == Without(q, xs + ys)
  {
    if q != [] {
      var front, last := q[..|q| - 1], q[|q| - 1];
      WithoutTwice(front, xs, ys);
      if last !in xs {
        assert (Without(front, xs) + [last])[..|Without(front, xs)|] == Without(front, xs);
      }
    }
  }

  lemma CutLast(q: seq<Pending>, i: nat)
    requires i < |q|
    ensures i == |q| - 1 ==> q[..i] + q[i + 1..] == q[..|q| - 1]
    ensures i < |q| - 1 ==> q[..i] + q[i + 1..] == (q[..|q| - 1][..i] + q[..|q| - 1][i + 1..]) + [q[|q| - 1]]
  {
  }

  /** Deleting one place of a list without repetitions is deleting that object. */
  lemma {:induction false} WithoutOne(q: seq<Pending>, i: nat)
    requires Distinct(q) && i < |q|
    ensures q[..i] + q[i + 1..] == Without(q, {q[i]})
  {
    var front, last := q[..|q| - 1], q[|q| - 1];
    CutLast(q, i);
    if i == |q| - 1 {
      WithoutNothing(front, {last});
    } else {
      WithoutOne(front, i);
      assert front[i] == q[i] && last != q[i];
    }
  }

  lemma {:induction false} WithoutDistinct(q: seq<Pending>, xs: set<Pending>)
    requires Distinct(q)
    ensures Distinct(Without(q, xs))
  {
    if q != [] {
      WithoutDistinct(q[..|q| - 1], xs);
    }
  }

  /** The objects of `q` whose age has reached the window. */
  function DueSet(q: seq<Pending>, now: real): set<Pending> {
    set x | x in q && now - x.firstSeen >= DEDUP_WINDOW
  }

  /** What is left after the due objects are gone, as records. */
  lemma {:induction false} WithoutDueIsYoung(q: seq<Pending>, all: seq<Pending>, now: real)
    requires forall x :: x in q ==> x in all
    ensures Views(Without(q, DueSet(all, now))) == Young(Views(q), now)
  {
    if q != [] {
      var front, last := q[..|q| - 1], q[|q| - 1];
      WithoutDueIsYoung(front, all, now);
      assert Views(q)[..|q| - 1] == Views(front);
      assert IsDue(last.View(), now) <==> last in DueSet(all, now);
    }
  }

  lemma {:induction false} YoungSame(a: seq<Record>, b: seq<Record>, now: real)
    requires |a| == |b| && forall i :: 0 <= i < |a| ==> a[i].firstSeen == b[i].firstSeen
    requires forall i :: 0 <= i < |a| && !IsDue(a[i], now) ==> a[i] == b[i]
    ensures Young(a, now) == Young(b, now)
  {
    if a != [] {
      YoungSame(a[..|a| - 1], b[..|b| - 1], now);
    }
  }

  // ---------------------------------------------------------------------------------------------
  // The program
  // ---------------------------------------------------------------------------------------------

  class Logger {
    var queue: seq<Pending>
    var totalProcessed: nat
    var totalAllowed: nat
    var totalBlocked: nat
    // how often the database has been asked for an insertion, and what it answers each time
    var attempts: nat
    const oracle: Oracle
    // what happened so far, for the proof: every component of the state but the queue and the counters
    ghost var past: State

    constructor (oracle: Oracle, ghost start: State)
      requires start.queue == [] && Attempts(start) == start.allowed == start.blocked == 0
      ensures Valid() && State() == start && totalProcessed == 0 && this.oracle == oracle
    {
      queue, totalProcessed, totalAllowed, totalBlocked, attempts := [], 0, 0, 0, 0;
      this.oracle := oracle;
      past := start;
      new;
      assert State() == start;
    }

    /** The state without the queue: what insertions change. */
    ghost function Sums(): State
      reads this
    {
      past.(queue := [], allowed := totalAllowed, blocked := totalBlocked)
    }

    ghost function State(): State
      reads this, queue
    {
      Sums().(queue := Views(queue))
    }

    ghost predicate Valid()
      reads this, queue
    {
      Distinct(queue) && attempts == Attempts(past)
    }

    lemma StateParts()
      ensures State() == Sums().(queue := Views(queue))
    {
    }

    /** Merges the line into pending record `i`. */
    method MergeLine(i: nat, e: Event)
      requires Valid() && i < |queue|
      modifies this`past, queue
      ensures Valid() && State() == MergeAt(old(State()), i, e)
    {
      ghost var q0, n := Views(queue), |past.history|;
      past := past.(history := past.history + [e]);
      var p := queue[i];
      if e.status == Blocked && p.status != Blocked {
        p.status := Blocked;
        if p.inserted {
          past := past.(lateUpdates := past.lateUpdates + 1);
        }
      }
      p.events := p.events + [n];
      assert Views(queue) == q0[i := Merged(q0[i], n, e.status)];
    }

    /** Appends a record for the line; the bounded deque drops its first element when full. */
    method AppendLine(e: Event, now: real)
      requires Valid()
      modifies this`past, this`queue
      ensures Valid() && State() == AppendNew(old(State()), e, now)
      ensures |queue| > 0 && fresh(queue[|queue| - 1])
      ensures queue[..|queue| - 1] == if |old(queue)| >= 25 then old(queue)[1..] else old(queue)
      ensures forall i :: 0 <= i < |queue| ==> queue[i] in old(queue) || fresh(queue[i])
    {
      hide Occurs;
      ghost var s0, n := State(), |past.history|;
      var p := new Pending(e, now, n);
      past := past.(history := past.history + [e], created := past.created + 1);
      if |queue| >= MAX_PENDING {
        past := past.(evicted := past.evicted + [queue[0].View()]);
        queue := queue[1..];
      }
      queue := queue + [p];
      assert Views(queue) == AppendNew(s0, e, now).queue;
    }

    /** process_line */
    method ProcessLine(e: Event, now: real)
      requires Valid()
      modifies this, queue
      ensures Valid() && State() == Process(old(State()), e, now)
      ensures (exists i :: 0 <= i < |old(queue)| && old(queue[i].key) == e.key) ==> queue == old(queue)
      ensures (forall i :: 0 <= i < |old(queue)| ==> old(queue[i].key) != e.key) ==>
                && |queue| > 0 && fresh(queue[|queue| - 1])
                && queue[..|queue| - 1] == if |old(queue)| >= 25 then old(queue)[1..] else old(queue)
      ensures forall i :: 0 <= i < |queue| ==> queue[i] in old(queue) || fresh(queue[i])
      ensures totalProcessed == old(totalProcessed)
    {
      var i := 0;
      while i < |queue| && queue[i].key != e.key
        invariant i <= |queue|
        invariant forall j :: 0 <= j < i ==> queue[j].key != e.key
      {
        i := i + 1;
      }
      FindKeyIs(State().queue, e.key, i);
      if i < |queue| {
        MergeLine(i, e);
      } else {
        AppendLine(e, now);
      }
    }

    /** insert_log: one attempt; the caller learns only whether a record id came back. */
    method InsertLog(p: Pending) returns (reported: bool)
      modifies this`attempts, this`past
      ensures attempts == old(attempts) + 1
      ensures reported <==> oracle(old(attempts)) == Stored
      ensures past == match oracle(old(attempts))
                case Stored =>
                  old(past).(rows := old(past).rows + [p.View()], reported := old(past).reported + [p.View()])
                case StoredUnreported =>
                  old(past).(rows := old(past).rows + [p.View()], unreported := old(past).unreported + [p.View()])
                case Rejected => old(past).(rejected := old(past).rejected + [p.View()])
    {
      var r := oracle(attempts);
      attempts := attempts + 1;
      reported := r == Stored;
      match r {
        case Stored => past := past.(rows := past.rows + [p.View()], reported := past.reported + [p.View()]);
        case StoredUnreported =>
          past := past.(rows := past.rows + [p.View()], unreported := past.unreported + [p.View()]);
        case Rejected => past := past.(rejected := past.rejected + [p.View()]);
      }
    }

    /** The body of the insertion loop for a due record that is not yet inserted. */
    method InsertDueRecord(p: Pending)
      requires !p.inserted && attempts == Attempts(past)
      modifies this`attempts, this`past, this`totalAllowed, this`totalBlocked, p`inserted
      ensures attempts == Attempts(past)
      ensures Sums() == Inserted(old(Sums()), old(p.View()), oracle).(queue := [])
    {
      var ok := InsertLog(p);
      if ok {
        p.inserted := true;
        if p.status == Blocked {
          totalBlocked := totalBlocked + 1;
        } else {
          totalAllowed := totalAllowed + 1;
        }
      }
    }

    /** The insertion loop has done the first `k` records; `s0` and `q0` are the state it began in. */
    ghost predicate DoneUpTo(s0: State, q0: seq<Record>, k: nat, now: real)
      requires k <= |q0|
      reads this, queue
    {
      && |queue| == |q0| && Distinct(queue) && NoneInserted(q0) && attempts == Attempts(past)
      && Sums() == InsertDue(s0, q0, k, now, oracle).(queue := [])
      && forall i :: 0 <= i < |queue| ==>
           if i < k && IsDue(q0[i], now) then queue[i].View().(inserted := false) == q0[i] else queue[i].View() == q0[i]
    }

    /** The body of that loop. */
    method InsertIfDue(k: nat, now: real, ghost s0: State, ghost q0: seq<Record>) returns (due: bool)
      requires k < |queue| && |queue| == |q0| && DoneUpTo(s0, q0, k, now)
      modifies this`attempts, this`past, this`totalAllowed, this`totalBlocked, queue
      ensures |queue| == |q0| && DoneUpTo(s0, q0, k + 1, now)
      ensures due == (now - queue[k].firstSeen >= DEDUP_WINDOW)
    {
      var p := queue[k];
      due := now - p.firstSeen >= DEDUP_WINDOW;
      if due && !p.inserted {
        InsertDueRecord(p);
      }
    }

    /** The first loop of flush_pending: inserts the due records and lists them. */
    method InsertAllDue(now: real) returns (flushed: seq<Pending>)
      requires Valid() && NoneInserted(Views(queue))
      modifies this`attempts, this`past, this`totalAllowed, this`totalBlocked, queue
      ensures DoneUpTo(old(State()), old(Views(queue)), |queue|, now)
      ensures Distinct(flushed) && Members(flushed) == DueSet(queue, now)
    {
      ghost var s0, q0 := State(), Views(queue);
      flushed := [];
      var k := 0;
      while k < |queue|
        invariant 0 <= k <= |queue| == |q0|
        invariant DoneUpTo(s0, q0, k, now)
        invariant Distinct(flushed) && Members(flushed) == DueSet(queue[..k], now)
      {
        var due := InsertIfDue(k, now, s0, q0);
        DueSetStep(queue, k, now);
        if due {
          MembersStep(flushed, queue[k]);
          flushed := flushed + [queue[k]];
        }
        k := k + 1;
      }
      assert queue[..k] == queue;
    }

    /**
    deque.remove: drops the first record with the same contents, and nothing when there is none (the
    ValueError). With distinct keys that record is the item itself.
    */
    method Remove(item: Pending)
      modifies this`queue
      ensures var q := old(queue); var i := FirstAlike(q, item);
              queue == if i < |q| then q[..i] + q[i + 1..] else q
      ensures Distinct(old(queue)) && DistinctKeys(Views(old(queue))) && item in old(queue) ==>
                queue == Without(old(queue), {item})
    {
      var i := 0;
      while i < |queue| && !queue[i].SameContents(item)
        invariant 0 <= i <= |queue|
        invariant forall j :: 0 <= j < i ==> !queue[j].SameContents(item)
      {
        i := i + 1;
      }
      FirstAlikeIs(queue, item, i);
      if Distinct(queue) && DistinctKeys(Views(queue)) && item in queue {
        SameKeySameRecord(queue, item, i);
        WithoutOne(queue, i);
      }
      if i < |queue| {
        queue := queue[..i] + queue[i + 1..];
      }
    }

    /** Removes one more of the due records; `gone` are the ones removed from `q0` before. */
    method RemoveNext(item: Pending, ghost q0: seq<Pending>, ghost gone: set<Pending>)
      requires Distinct(q0) && DistinctKeys(Views(q0)) && queue == Without(q0, gone)
      requires item in q0 && item !in gone
      modifies this`queue
      ensures queue == Without(q0, gone + {item})
    {
      WithoutDistinct(q0, gone);
      WithoutKeys(q0, gone);
      Remove(item);
      WithoutTwice(q0, gone, {item});
    }

    /** The second loop of flush_pending. */
    method RemoveAll(flushed: seq<Pending>)
      requires Distinct(queue) && DistinctKeys(Views(queue))
      requires Distinct(flushed) && forall i :: 0 <= i < |flushed| ==> flushed[i] in queue
      modifies this`queue
      ensures queue == Without(old(queue), Members(flushed))
    {
      hide *;
      ghost var q0 := queue;
      MembersNone(queue, flushed);
      var m := 0;
      while m < |flushed|
        invariant 0 <= m <= |flushed|
        invariant queue == Without(q0, Members(flushed[..m]))
      {
        MembersTake(flushed, m);
        RemoveNext(flushed[m], q0, Members(flushed[..m]));
        m := m + 1;
      }
      assert flushed[..m] == flushed;
    }

    /** The same loop, and what is left of the queue once the listed records are removed from it. */
    method InsertAndList(now: real) returns (flushed: seq<Pending>)
      requires Valid() && QueueOk(State().queue)
      modifies this`attempts, this`past, this`totalAllowed, this`totalBlocked, queue
      ensures Valid() && DistinctKeys(Views(queue))
      ensures Sums() == InsertDue(old(State()), old(Views(queue)), |queue|, now, oracle).(queue := [])
      ensures Distinct(flushed) && forall i :: 0 <= i < |flushed| ==> flushed[i] in queue
      ensures Views(Without(queue, Members(flushed))) == Young(old(Views(queue)), now)
    {
      hide InsertDue, Young;
      ghost var q0 := Views(queue);
      flushed := InsertAllDue(now);
      assert forall i :: 0 <= i < |flushed| ==> flushed[i] in Members(flushed);
      WithoutDueIsYoung(queue, queue, now);
      YoungSame(Views(queue), q0, now);
    }

    /** The second loop again: the counts and the table stay, and the queue holds the records not listed. */
    method RemoveListed(flushed: seq<Pending>)
      requires Valid() && DistinctKeys(Views(queue))
      requires Distinct(flushed) && forall i :: 0 <= i < |flushed| ==> flushed[i] in queue
      modifies this`queue
      ensures Valid() && Sums() == old(Sums()) && Views(queue) == old(Views(Without(queue, Members(flushed))))
      ensures forall i :: 0 <= i < |queue| ==> queue[i] in old(queue)
    {
      hide Without, Members, Distinct, DistinctKeys, Attempts;
      WithoutDistinct(queue, Members(flushed));
      RemoveAll(flushed);
    }

    /** flush_pending */
    method FlushPending(now: real)
      requires Valid() && QueueOk(State().queue)
      modifies this, queue
      ensures Valid() && State() == Flush(old(State()), now, oracle)
      ensures forall i :: 0 <= i < |queue| ==> queue[i] in old(queue)
      ensures totalProcessed == old(totalProcessed)
    {
      hide *;
      StateParts();
      ghost var s0 := State();
      var flushed := InsertAndList(now);
      RemoveListed(flushed);
      StateParts();
      FlushParts(s0, Sums(), Views(queue), now, oracle);
    }

    method CountLine()
      modifies this`totalProcessed
      ensures totalProcessed == old(totalProcessed) + 1
      ensures State() == old(State()) && Valid() == old(Valid())
    {
      totalProcessed := totalProcessed + 1;
    }

    /** The body of the event loop. */
    method HandleLine(l: Line)
      requires Valid() && QueueOk(State().queue)
      modifies this, queue
      ensures Valid() && QueueOk(State().queue)
      ensures State() == Flush(Process(old(State()), l.event, l.seen), l.flushed, oracle)
      ensures forall i :: 0 <= i < |queue| ==> queue[i] in old(queue) || fresh(queue[i])
      ensures totalProcessed == old(totalProcessed) + 1
    {
      hide *;
      ghost var s0 := State();
      ProcessKeepsQueue(s0, l.event, l.seen);
      ProcessLine(l.event, l.seen);
      FlushQueue(State(), l.flushed, oracle);
      FlushPending(l.flushed);
      CountLine();
    }

    /**
    The event loop: every parsed line is processed and followed by a flush; a last flush ends the run.
    */
    method RunLog(lines: seq<Line>, end: real)
      requires Valid() && QueueOk(State().queue)
      modifies this, queue
      ensures Valid() && State() == WholeRun(old(State()), lines, end, oracle)
      ensures totalProcessed == old(totalProcessed) + |lines|
    {
      hide *;
      ghost var s0 := State();
      RunSteps(s0, lines, 0, end, oracle);
      var i := 0;
      while i < |lines|
        invariant 0 <= i <= |lines| && totalProcessed == old(totalProcessed) + i
        invariant Valid() && QueueOk(State().queue) && State() == Run(s0, lines, i, oracle)
        invariant forall j :: 0 <= j < |queue| ==> queue[j] in old(queue) || fresh(queue[j])
      {
        RunSteps(s0, lines, i, end, oracle);
        HandleLine(lines[i]);
        i := i + 1;
      }
      FlushPending(end);
    }
  }

  /** How a run unfolds. */
  lemma RunSteps(s0: State, lines: seq<Line>, i: nat, end: real, oracle: Oracle)
    requires i <= |lines|
    ensures Run(s0, lines, 0, oracle) == s0
    ensures i < |lines| ==>
      Run(s0, lines, i + 1, oracle)
      == Flush(Process(Run(s0, lines, i, oracle), lines[i].event, lines[i].seen), lines[i].flushed, oracle)
    ensures WholeRun(s0, lines, end, oracle) == Flush(Run(s0, lines, |lines|, oracle), end, oracle)
  {
  }

  lemma FlushParts(s0: State, sums: State, q: seq<Record>, now: real, oracle: Oracle)
    requires q == Young(s0.queue, now)
    requires sums == InsertDue(s0, s0.queue, |s0.queue|, now, oracle).(queue := [])
    ensures sums.(queue := q) == Flush(s0, now, oracle)
  {
  }

  function Members(q: seq<Pending>): set<Pending> {
    set x | x in q
  }

  lemma MembersStep(q: seq<Pending>, x: Pending)
    ensures Members(q + [x]) == Members(q) + {x}
    ensures Distinct(q) && x !in Members(q) ==> Distinct(q + [x])
  {
  }

  lemma MembersNone(q: seq<Pending>, flushed: seq<Pending>)
    ensures Without(q, Members(flushed[..0])) == q
  {
    assert Members(flushed[..0]) == {};
    WithoutNothing(q, {});
  }

  lemma MembersTake(flushed: seq<Pending>, m: nat)
    requires m < |flushed| && Distinct(flushed)
    ensures Members(flushed[..m + 1]) == Members(flushed[..m]) + {flushed[m]}
    ensures flushed[m] !in Members(flushed[..m])
  {
    assert flushed[..m + 1] == flushed[..m] + [flushed[m]];
    MembersStep(flushed[..m], flushed[m]);
  }

  lemma DueSetStep(q: seq<Pending>, k: nat, now: real)
    requires k < |q| && Distinct(q)
    ensures DueSet(q[..k + 1], now) == DueSet(q[..k], now) + if now - q[k].firstSeen >= DEDUP_WINDOW then {q[k]} else {}
    ensures q[k] !in DueSet(q[..k], now)
  {
    assert q[..k + 1] == q[..k] + [q[k]];
  }

  lemma {:induction false} WithoutKeys(q: seq<Pending>, xs: set<Pending>)
    requires Distinct(q) && DistinctKeys(Views(q))
    ensures DistinctKeys(Views(Without(q, xs)))
  {
    var w := Without(q, xs);
    WithoutDistinct(q, xs);
    forall i, j | 0 <= i < j < |w|
      ensures w[i].key != w[j].key
    {
      var a :| 0 <= a < |q| && q[a] == w[i];
      var b :| 0 <= b < |q| && q[b] == w[j];
      assert Views(q)[a].key == w[i].key && Views(q)[b].key == w[j].key;
    }
  }

  /** Among records with distinct keys, equal contents mean the same object. */
  lemma SameKeySameRecord(q: seq<Pending>, item: Pending, i: nat)
    requires DistinctKeys(Views(q)) && i < |q| && q[i].key == item.key && item in q
    ensures q[i] == item
  {
    var j :| 0 <= j < |q| && q[j] == item;
    assert Views(q)[i].key == Views(q)[j].key;
  }

  lemma FindKeyIs(q: seq<Record>, key: Key, i: nat)
    requires i <= |q| && (forall j :: 0 <= j < i ==> q[j].key != key) && (i < |q| ==> q[i].key == key)
    ensures FindKey(q, key) == i
  {
  }
}
