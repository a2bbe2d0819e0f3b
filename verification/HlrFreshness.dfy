/**
Freshness of the sequence numbers issued by the HLR/AuC gateway over whole runs of requests for any
mix of subscribers.
*/
module HlrFreshness {
  import opened Text
  import opened HlrSqn
  import opened HlrFile
  import opened HlrGateway
  import HlrUsim
  import opened HlrLines
  import HlrReread
  import HlrRestart

  /** A command of the run, with what the random source delivered for it. */
  datatype Command = ReqAuth(imsi: string, rand: Option<Block>) | Auts(text: string)

  /** The parameters of a gateway process. */
  datatype Config = Config(indLen: IndLen, resync: Resync)

  function Exec(db: seq<Params>, cmd: Command, cfg: Config): (r: seq<Params>)
    ensures |r| == |db|
  {
    match cmd
    case ReqAuth(imsi, rand) => AfterRequest(db, imsi, rand, cfg.indLen)
    case Auts(text) => AfterAuts(db, text, cfg.resync)
  }

  function Run(db: seq<Params>, cmds: seq<Command>, n: nat, cfg: Config): (r: seq<Params>)
    requires n <= |cmds|
    ensures |r| == |db|
  {
    if n == 0 then db else Exec(Run(db, cmds, n - 1, cfg), cmds[n - 1], cfg)
  }

  // ---------------------------------------------------------------------------------------------
  // Only sequence numbers change
  // ---------------------------------------------------------------------------------------------

  lemma {:induction false} RunKeepsSubscribers(db: seq<Params>, cmds: seq<Command>, n: nat, cfg: Config)
    requires n <= |cmds|
    ensures HlrReread.SameSubscribers(db, Run(db, cmds, n, cfg))
  {
    if n > 0 {
      RunKeepsSubscribers(db, cmds, n - 1, cfg);
    }
  }

  /** The stored sequence number of subscriber `i` after `n` commands. */
  function SqnAfter(db: seq<Params>, cmds: seq<Command>, n: nat, cfg: Config, i: nat): (v: nat)
    requires n <= |cmds| && i < |db|
    ensures v < SQN_MOD
  {
    Decode(Run(db, cmds, n, cfg)[i].sqn)
  }

  /** Command `n` issues a vector for the subscriber at index `i`. */
  predicate Issues(db: seq<Params>, cmds: seq<Command>, n: nat, i: nat)
    requires n < |cmds| && i < |db|
  {
    cmds[n].ReqAuth? && cmds[n].rand.Some? && Lookup(db, cmds[n].imsi) == i
  }

  /** Command `n` is an authentic re-synchronisation of the subscriber at index `i`. */
  predicate Resyncs(db: seq<Params>, cmds: seq<Command>, n: nat, cfg: Config, i: nat)
    requires n < |cmds| && i < |db|
  {
    cmds[n].Auts? && var q := Resynced(Run(db, cmds, n, cfg), cmds[n].text, cfg.resync); q.Some? && q.value.0 == i
  }

  /** None of commands `a` to `b - 1` is an authentic re-synchronisation of subscriber `i`. */
  predicate Quiet(db: seq<Params>, cmds: seq<Command>, a: nat, b: nat, cfg: Config, i: nat)
    requires a <= b <= |cmds| && i < |db|
  {
    a == b || (Quiet(db, cmds, a, b - 1, cfg, i) && !Resyncs(db, cmds, b - 1, cfg, i))
  }

  /** How many vectors commands `a` to `b - 1` issue for subscriber `i`. */
  function IssueCount(db: seq<Params>, cmds: seq<Command>, a: nat, b: nat, i: nat): (k: nat)
    requires a <= b <= |cmds| && i < |db|
    ensures k <= b - a
  {
    if a == b then 0 else IssueCount(db, cmds, a, b - 1, i) + if Issues(db, cmds, b - 1, i) then 1 else 0
  }

  lemma LookupInRun(db: seq<Params>, cmds: seq<Command>, n: nat, cfg: Config, imsi: string)
    requires n <= |cmds|
    ensures Lookup(Run(db, cmds, n, cfg), imsi) == Lookup(db, imsi)
  {
    RunKeepsSubscribers(db, cmds, n, cfg);
    HlrReread.LookupSame(Run(db, cmds, n, cfg), db, imsi);
  }

  /**
  What one command does to one subscriber: an issue advances its sequence number by one step, an
  authentic re-synchronisation installs SQN_MS, and everything else -- a failed re-synchronisation,
  any command for another subscriber -- leaves it alone.
  */
  lemma StepOnSubscriber(db: seq<Params>, cmds: seq<Command>, n: nat, cfg: Config, i: nat)
    requires n < |cmds| && i < |db|
    ensures var v, v' := SqnAfter(db, cmds, n, cfg, i), SqnAfter(db, cmds, n + 1, cfg, i);
            if Issues(db, cmds, n, i) then v' == Inc(v, cfg.indLen)
            else if Resyncs(db, cmds, n, cfg, i) then
              v' == Decode(Resynced(Run(db, cmds, n, cfg), cmds[n].text, cfg.resync).value.1)
            else v' == v
  {
    var before := Run(db, cmds, n, cfg);
    match cmds[n] {
      case ReqAuth(imsi, rand) =>
        LookupInRun(db, cmds, n, cfg, imsi);
        DecodeEncode(Inc(Decode(before[i].sqn), cfg.indLen));
      case Auts(_) =>
    }
  }

  lemma QuietStep(db: seq<Params>, cmds: seq<Command>, n: nat, cfg: Config, i: nat)
    requires n < |cmds| && i < |db| && !Resyncs(db, cmds, n, cfg, i)
    ensures SqnAfter(db, cmds, n + 1, cfg, i)
            == if Issues(db, cmds, n, i) then Inc(SqnAfter(db, cmds, n, cfg, i), cfg.indLen)
               else SqnAfter(db, cmds, n, cfg, i)
  {
    StepOnSubscriber(db, cmds, n, cfg, i);
  }

  lemma CountStep(db: seq<Params>, cmds: seq<Command>, a: nat, b: nat, cfg: Config, i: nat)
    requires a <= b <= |cmds| && i < |db| && Quiet(db, cmds, a, b, cfg, i)
    ensures a == b ==> IssueCount(db, cmds, a, b, i) == 0
    ensures a < b ==>
              && Quiet(db, cmds, a, b - 1, cfg, i) && !Resyncs(db, cmds, b - 1, cfg, i)
              && IssueCount(db, cmds, a, b, i)
                 == IssueCount(db, cmds, a, b - 1, i) + if Issues(db, cmds, b - 1, i) then 1 else 0
  {
  }

  lemma IncTimesNext(v: nat, indLen: IndLen, k: nat)
    ensures IncTimes(v, indLen, 0) == v && IncTimes(v, indLen, k + 1) == Inc(IncTimes(v, indLen, k), indLen)
  {
  }

  /** Between re-synchronisations a stored sequence number is the old one advanced once per issue. */
  lemma {:induction false} SqnCountsIssues(
      db: seq<Params>, cmds: seq<Command>, a: nat, b: nat, cfg: Config, i: nat)
    requires a <= b <= |cmds| && i < |db|
    requires Quiet(db, cmds, a, b, cfg, i)
    ensures SqnAfter(db, cmds, b, cfg, i)
            == IncTimes(SqnAfter(db, cmds, a, cfg, i), cfg.indLen, IssueCount(db, cmds, a, b, i))
  {
    hide *;
    CountStep(db, cmds, a, b, cfg, i);
    if a < b {
      SqnCountsIssues(db, cmds, a, b - 1, cfg, i);
      QuietStep(db, cmds, b - 1, cfg, i);
      IncTimesNext(SqnAfter(db, cmds, a, cfg, i), cfg.indLen, IssueCount(db, cmds, a, b - 1, i));
    } else {
      IncTimesNext(SqnAfter(db, cmds, a, cfg, i), cfg.indLen, 0);
    }
  }

  /** The sequence number of the vector issued by command `n`. */
  function IssuedSqn(db: seq<Params>, cmds: seq<Command>, n: nat, cfg: Config, i: nat): nat
    requires n < |cmds| && i < |db| && Issues(db, cmds, n, i)
  {
    SqnAfter(db, cmds, n + 1, cfg, i)
  }

  /** The vectors that commands `a` to `b - 1` issue for subscriber `i` do not take SEQ to its wrap. */
  predicate RoomFor(db: seq<Params>, cmds: seq<Command>, a: nat, b: nat, cfg: Config, i: nat)
    requires a <= b <= |cmds| && i < |db|
  {
    Seq(SqnAfter(db, cmds, a, cfg, i), cfg.indLen) + IssueCount(db, cmds, a, b, i) < SeqLimit(cfg.indLen)
  }

  /**
  Freshness: of two vectors issued for the same subscriber with no re-synchronisation between them,
  the later one has the greater SEQ and the greater SQN.
  */
  lemma IssuedSqnsIncrease(db: seq<Params>, cmds: seq<Command>, a: nat, b: nat, cfg: Config, i: nat)
    requires a < b < |cmds| && i < |db| && Issues(db, cmds, a, i) && Issues(db, cmds, b, i)
    requires Quiet(db, cmds, a + 1, b, cfg, i)
    requires RoomFor(db, cmds, a + 1, b + 1, cfg, i)
    ensures Seq(IssuedSqn(db, cmds, a, cfg, i), cfg.indLen) < Seq(IssuedSqn(db, cmds, b, cfg, i), cfg.indLen)
    ensures IssuedSqn(db, cmds, a, cfg, i) < IssuedSqn(db, cmds, b, cfg, i)
  {
    assert Quiet(db, cmds, a + 1, b + 1, cfg, i);
    hide SqnAfter, Issues, Resyncs, Quiet, SeqLimit;
    var v := SqnAfter(db, cmds, a + 1, cfg, i);
    SqnCountsIssues(db, cmds, a + 1, b + 1, cfg, i);
    IncTimesFields(v, cfg.indLen, IssueCount(db, cmds, a + 1, b + 1, i));
    ShrOrders(v, SqnAfter(db, cmds, b + 1, cfg, i), cfg.indLen);
  }

  /** Two requests in a row for a subscriber, from any state short of the wrap, issue increasing numbers. */
  lemma TwoRequestsIncrease(db: seq<Params>, imsi: string, rand1: Block, rand2: Block, cfg: Config)
    requires Lookup(db, imsi) < |db|
    requires Seq(Inc(Decode(db[Lookup(db, imsi)].sqn), cfg.indLen), cfg.indLen) + 1 < SeqLimit(cfg.indLen)
    ensures var cmds, i := [ReqAuth(imsi, Some(rand1)), ReqAuth(imsi, Some(rand2))], Lookup(db, imsi);
            IssuedSqn(db, cmds, 0, cfg, i) < IssuedSqn(db, cmds, 1, cfg, i)
  {
    var cmds, i := [ReqAuth(imsi, Some(rand1)), ReqAuth(imsi, Some(rand2))], Lookup(db, imsi);
    assert Issues(db, cmds, 0, i) && Issues(db, cmds, 1, i);
    assert SqnAfter(db, cmds, 0, cfg, i) == Decode(db[i].sqn);
    StepOnSubscriber(db, cmds, 0, cfg, i);
    IssuedSqnsIncrease(db, cmds, 0, 1, cfg, i);
  }

  /** The first vector after an authentic re-synchronisation carries SEQ_MS + 1 and IND_MS + 1. */
  lemma FirstIssueAfterResync(db: seq<Params>, cmds: seq<Command>, a: nat, b: nat, cfg: Config, i: nat)
    requires a < b < |cmds| && i < |db| && Resyncs(db, cmds, a, cfg, i) && Issues(db, cmds, b, i)
    requires Quiet(db, cmds, a + 1, b, cfg, i) && IssueCount(db, cmds, a + 1, b, i) == 0
    requires var ms := Decode(Resynced(Run(db, cmds, a, cfg), cmds[a].text, cfg.resync).value.1);
             Seq(ms, cfg.indLen) + 1 < SeqLimit(cfg.indLen)
    ensures var ms := Decode(Resynced(Run(db, cmds, a, cfg), cmds[a].text, cfg.resync).value.1);
            && Seq(IssuedSqn(db, cmds, b, cfg, i), cfg.indLen) == Seq(ms, cfg.indLen) + 1
            && Ind(IssuedSqn(db, cmds, b, cfg, i), cfg.indLen) == Ind(ms + 1, cfg.indLen)
  {
    hide Resynced, Run, Decode, Lookup, Quiet, Seq, Ind, SeqLimit;
    var ms := Decode(Resynced(Run(db, cmds, a, cfg), cmds[a].text, cfg.resync).value.1);
    StepOnSubscriber(db, cmds, a, cfg, i);
    assert SqnAfter(db, cmds, a + 1, cfg, i) == ms;
    SqnCountsIssues(db, cmds, a + 1, b, cfg, i);
    StepOnSubscriber(db, cmds, b, cfg, i);
    IncFields(ms, cfg.indLen);
  }

  /**
  The vectors a run issues for a subscriber are, in order, the vectors of the USIM model, so its
  acceptance theorem applies to them.
  */
  lemma IssuedIsVector(db: seq<Params>, cmds: seq<Command>, a: nat, b: nat, cfg: Config, i: nat)
    requires a <= b < |cmds| && i < |db| && Issues(db, cmds, b, i)
    requires Quiet(db, cmds, a, b, cfg, i)
    ensures IssuedSqn(db, cmds, b, cfg, i)
            == HlrUsim.Vector(SqnAfter(db, cmds, a, cfg, i), cfg.indLen, IssueCount(db, cmds, a, b, i))
  {
    SqnCountsIssues(db, cmds, a, b + 1, cfg, i);
  }

  // ---------------------------------------------------------------------------------------------
  // Across a restart
  // ---------------------------------------------------------------------------------------------

  /** The second run begins with the sequence number that the first one left. */
  predicate TakesOver(
      db0: seq<Params>, cmds: seq<Command>, cfg: Config, i: nat, after: seq<Params>, j: nat)
    requires i < |db0| && j < |after|
  {
    after[j].sqn == Run(db0, cmds, |cmds|, cfg)[i].sqn
  }

  /** Nothing re-synchronises the subscriber between vector `a` of the first run and vector `c` of the second. */
  predicate QuietBetween(
      db0: seq<Params>, cmds: seq<Command>, cfg: Config, i: nat, a: nat,
      after: seq<Params>, more: seq<Command>, cfg2: Config, j: nat, c: nat)
    requires i < |db0| && j < |after| && a < |cmds| && c < |more|
  {
    Quiet(db0, cmds, a + 1, |cmds|, cfg, i) && Quiet(after, more, 0, c, cfg2, j)
  }

  /** And the vectors issued in between do not take SEQ to its wrap. */
  predicate RoomBetween(
      db0: seq<Params>, cmds: seq<Command>, cfg: Config, i: nat, a: nat,
      after: seq<Params>, more: seq<Command>, j: nat, c: nat)
    requires i < |db0| && j < |after| && a < |cmds| && c < |more|
  {
    Seq(SqnAfter(db0, cmds, a + 1, cfg, i), cfg.indLen)
    + IssueCount(db0, cmds, a + 1, |cmds|, i) + IssueCount(after, more, 0, c + 1, j) < SeqLimit(cfg.indLen)
  }

  /** Vector `a` of the first run and vector `c` of the second are ones whose order is to be kept. */
  predicate Comparable(
      db0: seq<Params>, cmds: seq<Command>, cfg: Config, i: nat, a: nat,
      after: seq<Params>, more: seq<Command>, cfg2: Config, j: nat, c: nat)
    requires i < |db0| && j < |after| && a < |cmds| && c < |more|
  {
    && Issues(db0, cmds, a, i) && Issues(after, more, c, j)
    && QuietBetween(db0, cmds, cfg, i, a, after, more, cfg2, j, c)
    && RoomBetween(db0, cmds, cfg, i, a, after, more, j, c)
  }

  /** A later run that takes over issues greater numbers than the run before. */
  lemma OrderContinues(
      db0: seq<Params>, cmds: seq<Command>, cfg: Config, i: nat, a: nat,
      after: seq<Params>, more: seq<Command>, cfg2: Config, j: nat, c: nat)
    requires i < |db0| && j < |after| && a < |cmds| && c < |more| && cfg2.indLen == cfg.indLen
    requires Comparable(db0, cmds, cfg, i, a, after, more, cfg2, j, c) && TakesOver(db0, cmds, cfg, i, after, j)
    ensures Seq(IssuedSqn(db0, cmds, a, cfg, i), cfg.indLen) < Seq(IssuedSqn(after, more, c, cfg2, j), cfg.indLen)
    ensures IssuedSqn(db0, cmds, a, cfg, i) < IssuedSqn(after, more, c, cfg2, j)
  {
    assert Quiet(after, more, 0, c + 1, cfg2, j);
    assert SqnAfter(after, more, 0, cfg2, j) == SqnAfter(db0, cmds, |cmds|, cfg, i);
    assert IssueCount(after, more, 0, c + 1, j) >= 1;
    var n, k1, k2 := cfg.indLen, IssueCount(db0, cmds, a + 1, |cmds|, i), IssueCount(after, more, 0, c + 1, j);
    var v, w := SqnAfter(db0, cmds, a + 1, cfg, i), SqnAfter(db0, cmds, |cmds|, cfg, i);
    hide SqnAfter, Issues, Resyncs, Quiet, SeqLimit, IssueCount, IncTimes, Ind;
    SqnCountsIssues(db0, cmds, a + 1, |cmds|, cfg, i);
    IncTimesFields(v, n, k1);
    SqnCountsIssues(after, more, 0, c + 1, cfg2, j);
    IncTimesFields(w, n, k2);
    ShrOrders(v, SqnAfter(after, more, c + 1, cfg2, j), n);
  }

  /**
  The order continues across a restart, for every readable file: if nothing left behind a rewritten line adds
  a record and the line of the IMSI begins with it, then any vector issued for it after the restart has a
  greater SEQ and a greater SQN than any issued before.
  */
  lemma OrderSurvivesRestart(
      text: string, db0: seq<Params>, db: seq<Params>, b: Buffer, after: seq<Params>, imsi: string,
      cmds: seq<Command>, cfg: Config, a: nat, more: seq<Command>, cfg2: Config, c: nat)
    requires Supported(text) && ReadFrom(text, []) == Some(db0) && db == Run(db0, cmds, |cmds|, cfg)
    requires HlrReread.ValidDb(db) && HlrReread.TailsAddNothing(text, db, b)
    requires ReadFrom(UpdateFrom(text, db, b), []) == Some(after)
    requires var i := Lookup(db0, imsi); i < |db0| && i < |HlrReread.Flags(text, [])| && HlrReread.Flags(text, [])[i]
    requires a < |cmds| && c < |more| && cfg2.indLen == cfg.indLen
    ensures Lookup(after, imsi) < |after|
    ensures var i, j := Lookup(db0, imsi), Lookup(after, imsi);
            Comparable(db0, cmds, cfg, i, a, after, more, cfg2, j, c) ==>
              && Seq(IssuedSqn(db0, cmds, a, cfg, i), cfg.indLen) < Seq(IssuedSqn(after, more, c, cfg2, j), cfg.indLen)
              && IssuedSqn(db0, cmds, a, cfg, i) < IssuedSqn(after, more, c, cfg2, j)
  {
    hide ReadFrom, UpdateFrom, Issues, QuietBetween, RoomBetween, IssuedSqn, Seq, Run, HlrReread.Flags;
    hide HlrReread.TailsAddNothing, Supported, HlrReread.ValidDb, Lookup;
    RunKeepsSubscribers(db0, cmds, |cmds|, cfg);
    HlrReread.RestartFinds(text, db0, db, b, imsi);
    var i, j := Lookup(db0, imsi), Lookup(after, imsi);
    assert after[j].sqn == db[i].sqn;
    if Comparable(db0, cmds, cfg, i, a, after, more, cfg2, j, c) {
      OrderContinues(db0, cmds, cfg, i, a, after, more, cfg2, j, c);
    }
  }

  /**
  The same for a documented file: when no line has a RES_len and every line has its newline, the file can be
  read back after any run, and the order of the numbers issued for each IMSI continues.
  */
  lemma FreshnessSurvivesRestart(
      lines: seq<FileLine>, db0: seq<Params>, db: seq<Params>, b: Buffer, imsi: string,
      cmds: seq<Command>, cfg: Config, a: nat, more: seq<Command>, cfg2: Config, c: nat)
    requires HlrRestart.WellFormedFile(lines, false) && HlrRestart.NoResLen(lines)
    requires ReadFrom(HlrRestart.FileText(lines, false), []) == Some(db0) && db == Run(db0, cmds, |cmds|, cfg)
    requires Lookup(db0, imsi) < |db0| && a < |cmds| && c < |more| && cfg2.indLen == cfg.indLen
    ensures HlrReread.ValidDb(db)
    ensures var r := ReadFrom(UpdateFrom(HlrRestart.FileText(lines, false), db, b), []);
            && r.Some? && Lookup(r.value, imsi) < |r.value|
            && var after, i, j := r.value, Lookup(db0, imsi), Lookup(r.value, imsi);
            Comparable(db0, cmds, cfg, i, a, after, more, cfg2, j, c) ==>
              && Seq(IssuedSqn(db0, cmds, a, cfg, i), cfg.indLen) < Seq(IssuedSqn(after, more, c, cfg2, j), cfg.indLen)
              && IssuedSqn(db0, cmds, a, cfg, i) < IssuedSqn(after, more, c, cfg2, j)
  {
    hide ReadFrom, UpdateFrom, Issues, QuietBetween, RoomBetween, IssuedSqn, Seq, Run, Lookup;
    hide HlrRestart.FileText, HlrRestart.WellFormedFile, HlrRestart.NoResLen;
    RunKeepsSubscribers(db0, cmds, |cmds|, cfg);
    HlrRestart.RestartKeepsSubscribersIffNoResLen(lines, db0, db, b);
    var after := ReadFrom(UpdateFrom(HlrRestart.FileText(lines, false), db, b), []).value;
    LookupInRun(db0, cmds, |cmds|, cfg, imsi);
    assert HlrReread.Found(after, imsi) == HlrReread.Found(db, imsi);
    var i, j := Lookup(db0, imsi), Lookup(after, imsi);
    assert after[j] == db[i];
    if Comparable(db0, cmds, cfg, i, a, after, more, cfg2, j, c) {
      OrderContinues(db0, cmds, cfg, i, a, after, more, cfg2, j, c);
    }
  }
}
