/**
What reading back a rewritten key file of the HLR/AuC gateway gives, for every file without NUL whose
lines fit the reader's buffer: also with extra blanks, trailing words, or no newline at its end.
*/
module HlrReread {
  import opened Text
  import opened HlrSqn
  import opened HlrFile
  import opened HlrLines

  predicate ValidDb(db: seq<Params>) {
    forall m :: m in db ==> ValidParams(m)
  }

  // ---------------------------------------------------------------------------------------------
  // Rewriting one line
  // ---------------------------------------------------------------------------------------------

  /** update_milenage_file prints a record over this line: it is no comment and starts with a known IMSI. */
  predicate Rewrites(t: string, db: seq<Params>) {
    && t != "" && t[0] != '#'
    && var sp := Find(t, ' '); sp < |t| && sp < IMSI_SIZE && Lookup(db, t[..sp]) < |db|
  }

  /** The record it prints. */
  function Current(t: string, db: seq<Params>): (m: Params)
    requires Rewrites(t, db)
    ensures m in db && m.imsi == t[..Find(t, ' ')]
  {
    db[Lookup(db, t[..Find(t, ' ')])]
  }

  lemma CanonicalShape(m: Params)
    requires ValidParams(m)
    ensures |Canonical(m)| == |m.imsi| + 85 && NUL !in Canonical(m)
  {
    HexOfIsHex(m.ki);
    HexOfIsHex(m.opc);
    HexOfIsHex(m.amf);
    HexOfIsHex(m.sqn);
  }

  /**
  What is written behind the new record: the end of a longer old line, or whatever the buffer holds
  from lines before when the old line was shorter.
  */
  function TailOf(t: string, db: seq<Params>, b: Buffer): (x: string)
    requires Rewrites(t, db) && ValidDb(db)
  {
    var c := Canonical(Current(t, db));
    CanonicalShape(Current(t, db));
    if |c| <= |t| then t[|c|..] else CStr(b[|c|..WRITE_BUF - 1])
  }

  function NewBuffer(t: string, db: seq<Params>, b: Buffer): Buffer
    requires |t| < READ_BUF && ValidDb(db)
  {
    Rewritten(Loaded(b, t), db)
  }

  /** Text `c` printed over the start of a loaded line, and what shows behind it. */
  lemma Overprint(b: Buffer, t: string, c: string)
    requires NUL !in t && NUL !in c && |t| < READ_BUF && |c| < READ_BUF
    ensures CStr(c + Loaded(b, t)[|c|..WRITE_BUF - 1] + [NUL])
            == c + if |c| <= |t| then t[|c|..] else CStr(b[|c|..WRITE_BUF - 1])
  {
    var shown := Loaded(b, t)[|c|..WRITE_BUF - 1] + [NUL];
    assert c + Loaded(b, t)[|c|..WRITE_BUF - 1] + [NUL] == c + shown;
    if |c| <= |t| {
      assert shown[..|t| - |c|] == t[|c|..] && shown[|t| - |c|] == NUL;
      FindUnique(shown, NUL, |t| - |c|);
    } else {
      var rest := b[|c|..WRITE_BUF - 1];
      assert shown == rest + [NUL];
      EndedAnyway(rest);
    }
    CStrBehind(c, shown);
  }

  lemma EndedAnyway(rest: string)
    ensures CStr(rest + [NUL]) == CStr(rest)
  {
    var k := Find(rest, NUL);
    FindUnique(rest + [NUL], NUL, k);
    assert (rest + [NUL])[..k] == rest[..k];
  }

  lemma CStrBehind(c: string, rest: string)
    requires NUL !in c
    ensures CStr(c + rest) == c + CStr(rest)
  {
    var k := Find(rest, NUL);
    FindUnique(c + rest, NUL, |c| + k);
    assert (c + rest)[..|c| + k] == c + rest[..k];
  }

  /** What is written for one line. */
  lemma WrittenLine(t: string, db: seq<Params>, b: Buffer)
    requires IsChunk(t) && ValidDb(db)
    ensures CStr(NewBuffer(t, db, b))
            == if Rewrites(t, db) then Canonical(Current(t, db)) + TailOf(t, db, b) else t
  {
    CStrOfClean(t, b[|t| + 1..]);
    if Rewrites(t, db) {
      CanonicalShape(Current(t, db));
      Overprint(b, t, Canonical(Current(t, db)));
    }
  }

  lemma UpdateStep(text: string, db: seq<Params>, b: Buffer)
    requires Supported(text) && text != "" && ValidDb(db)
    ensures var n := LineLen(text);
            && n < READ_BUF
            && var b' := NewBuffer(text[..n], db, b);
            UpdateFrom(text, db, b) == CStr(b') + UpdateFrom(text[n..], db, b')
  {
    FirstLine(text);
  }

  // ---------------------------------------------------------------------------------------------
  // Reading the rewritten file
  // ---------------------------------------------------------------------------------------------

  /** What reading back what is written for one line does to the records. */
  function RetakeLine(t: string, db: seq<Params>, b: Buffer, acc: seq<Params>): Option<seq<Params>>
    requires ValidDb(db)
  {
    if Rewrites(t, db) then Onto(ReadFrom(TailOf(t, db, b), []), [Current(t, db).(resLen := 0)] + acc)
    else TakeLine(t, acc)
  }

  /** What reading back the rewritten file gives, line by line. */
  function Reread(text: string, db: seq<Params>, b: Buffer, acc: seq<Params>): Option<seq<Params>>
    requires Supported(text) && ValidDb(db)
    decreases |text|
  {
    if text == "" then Some(acc)
    else
      FirstLine(text);
      var n := LineLen(text);
      var r := RetakeLine(text[..n], db, b, acc);
      if r.None? then None else Reread(text[n..], db, NewBuffer(text[..n], db, b), r.value)
  }

  /** A rewritten line of a readable file is a data line, and its new text is no longer than the old one. */
  lemma RewrittenIsData(t: string, db: seq<Params>, acc: seq<Params>)
    requires IsChunk(t) && ValidDb(db) && Rewrites(t, db) && TakeLine(t, acc).Some?
    ensures !Skipped(t) && t[0] != ' ' && t[0] != '#' && ParseLine(Body(t)).Some?
    ensures var m := ParseLine(Body(t)).value;
            && Current(t, db).imsi == m.imsi && m.imsi[0] != '#' && |m.imsi| + 84 <= |Body(t)|
            && (IsLine(t) ==> |Canonical(Current(t, db))| <= |t|)
  {
    hide ParseLine, Canonical, Lookup, TakeLine, Stripped;
    StrippedIsBody(t);
    TakeCases(t, acc);
    var sp := Find(t, ' ');
    assert sp > 0 by {
      assert Current(t, db) in db;
    }
    ParseShape(Body(t));
    FindUnique(Body(t), ' ', if sp < |Body(t)| then sp else |Body(t)|);
    CanonicalShape(Current(t, db));
  }

  lemma ReadTail(tail: string, rest: string, acc: seq<Params>)
    requires tail == "" || rest == "" || (IsChunk(tail) && IsLine(tail))
    ensures ReadFrom(tail + rest, acc) == ReadOn(Onto(ReadFrom(tail, []), acc), rest)
  {
    hide TakeLine;
    assert [] + acc == acc;
    ReadOnto(tail, [], acc);
    if tail == "" || rest == "" {
      assert tail + rest == if rest == "" then tail else rest;
    } else {
      ReadLineThen(tail, rest, acc);
      ReadLineThen(tail, "", acc);
      assert tail + "" == tail;
    }
  }

  lemma LineEnd(t: string, k: nat)
    requires IsChunk(t) && IsLine(t) && k <= |t|
    ensures var x := t[k..]; x == "" || (IsChunk(x) && IsLine(x))
  {
  }

  lemma TailIsLine(t: string, db: seq<Params>, b: Buffer, acc: seq<Params>)
    requires IsChunk(t) && IsLine(t) && ValidDb(db) && Rewrites(t, db) && TakeLine(t, acc).Some?
    ensures var x := TailOf(t, db, b); x == "" || (IsChunk(x) && IsLine(x))
  {
    hide IsChunk, IsLine, Rewrites, Canonical, TakeLine, Current, ValidDb;
    RewrittenIsData(t, db, acc);
    LineEnd(t, |Canonical(Current(t, db))|);
  }

  lemma Regroup(a: string, b: string, c: string)
    ensures a + b + c == a + (b + c)
  {
  }

  lemma ReadRewritten(t: string, db: seq<Params>, b: Buffer, rest: string, acc: seq<Params>, acc0: seq<Params>)
    requires IsChunk(t) && ValidDb(db) && (rest == "" || IsLine(t)) && TakeLine(t, acc0).Some? && Rewrites(t, db)
    ensures ReadFrom(CStr(NewBuffer(t, db, b)) + rest, acc) == ReadOn(RetakeLine(t, db, b, acc), rest)
  {
    hide *;
    WrittenLine(t, db, b);
    RewrittenIsData(t, db, acc0);
    var m, tail := Current(t, db), TailOf(t, db, b);
    CurrentIsValid(t, db);
    Regroup(Canonical(m), tail, rest);
    ReadCanonical(m, tail + rest, acc);
    if rest != "" {
      TailIsLine(t, db, b, acc0);
    }
    ReadTail(tail, rest, [m.(resLen := 0)] + acc);
    RetakeCases(t, db, b, acc);
  }

  lemma CurrentIsValid(t: string, db: seq<Params>)
    requires ValidDb(db) && Rewrites(t, db)
    ensures ValidParams(Current(t, db))
  {
  }

  lemma RetakeCases(t: string, db: seq<Params>, b: Buffer, acc: seq<Params>)
    requires ValidDb(db)
    ensures Rewrites(t, db) ==>
              RetakeLine(t, db, b, acc) == Onto(ReadFrom(TailOf(t, db, b), []), [Current(t, db).(resLen := 0)] + acc)
    ensures !Rewrites(t, db) ==> RetakeLine(t, db, b, acc) == TakeLine(t, acc)
  {
  }

  /** What is written for a line, and more behind it, reads as the line taken again and then the rest. */
  lemma ReadPieces(t: string, db: seq<Params>, b: Buffer, rest: string, acc: seq<Params>, acc0: seq<Params>)
    requires IsChunk(t) && ValidDb(db) && (rest == "" || IsLine(t)) && TakeLine(t, acc0).Some?
    ensures ReadFrom(CStr(NewBuffer(t, db, b)) + rest, acc) == ReadOn(RetakeLine(t, db, b, acc), rest)
  {
    hide *;
    if Rewrites(t, db) {
      ReadRewritten(t, db, b, rest, acc, acc0);
    } else {
      WrittenLine(t, db, b);
      RetakeCases(t, db, b, acc);
      ReadLineThen(t, rest, acc);
    }
  }

  /** Reading back the rewritten file is `Reread`. */
  lemma {:induction false} RereadIsRead(
      text: string, db: seq<Params>, b: Buffer, acc0: seq<Params>, acc: seq<Params>)
    requires Supported(text) && ValidDb(db) && ReadFrom(text, acc0).Some?
    ensures ReadFrom(UpdateFrom(text, db, b), acc) == Reread(text, db, b, acc)
    decreases |text|
  {
    if text != "" {
      var n := LineLen(text);
      FirstLine(text);
      var t, rest, b' := text[..n], text[n..], NewBuffer(text[..n], db, b);
      ReadStep(text, acc0);
      UpdateStep(text, db, b);
      ReadPieces(t, db, b, UpdateFrom(rest, db, b'), acc, acc0);
      var r := RetakeLine(t, db, b, acc);
      if r.Some? {
        RereadIsRead(rest, db, b', TakeLine(t, acc0).value, r.value);
      }
    }
  }

  // ---------------------------------------------------------------------------------------------
  // When a restart works
  // ---------------------------------------------------------------------------------------------

  /** What is left behind every new line can be read. */
  predicate TailsReadable(text: string, db: seq<Params>, b: Buffer)
    requires Supported(text) && ValidDb(db)
    decreases |text|
  {
    text == "" ||
    (FirstLine(text);
     var n := LineLen(text);
     && (Rewrites(text[..n], db) ==> ReadFrom(TailOf(text[..n], db, b), []).Some?)
     && TailsReadable(text[n..], db, NewBuffer(text[..n], db, b)))
  }

  /** And it adds no record. */
  predicate TailsAddNothing(text: string, db: seq<Params>, b: Buffer)
    requires Supported(text) && ValidDb(db)
    decreases |text|
  {
    text == "" ||
    (FirstLine(text);
     var n := LineLen(text);
     && (Rewrites(text[..n], db) ==> ReadFrom(TailOf(text[..n], db, b), []) == Some([]))
     && TailsAddNothing(text[n..], db, NewBuffer(text[..n], db, b)))
  }

  lemma {:induction false} RereadIffReadable(
      text: string, db: seq<Params>, b: Buffer, acc0: seq<Params>, acc: seq<Params>)
    requires Supported(text) && ValidDb(db) && ReadFrom(text, acc0).Some?
    ensures Reread(text, db, b, acc).Some? <==> TailsReadable(text, db, b)
    decreases |text|
  {
    if text != "" {
      hide ReadFrom, Rewrites, TailOf, NewBuffer, Current;
      var n := LineLen(text);
      FirstLine(text);
      ReadStep(text, acc0);
      var r := RetakeLine(text[..n], db, b, acc);
      if r.Some? {
        RereadIffReadable(text[n..], db, NewBuffer(text[..n], db, b), TakeLine(text[..n], acc0).value, r.value);
      }
    }
  }

  /** The rewritten file can be read exactly when everything left behind a new line can. */
  lemma RewrittenReadableIff(text: string, db0: seq<Params>, db: seq<Params>, b: Buffer)
    requires Supported(text) && ValidDb(db) && ReadFrom(text, []) == Some(db0)
    ensures ReadFrom(UpdateFrom(text, db, b), []).Some? <==> TailsReadable(text, db, b)
  {
    RereadIsRead(text, db, b, [], []);
    RereadIffReadable(text, db, b, [], []);
  }

  // What is read back, record by record.

  /** The same subscribers in the same places; only sequence numbers may differ. */
  predicate SameSubscribers(db0: seq<Params>, db: seq<Params>) {
    |db| == |db0| && forall i :: 0 <= i < |db| ==> db[i] == db0[i].(sqn := db[i].sqn)
  }

  predicate SameImsis(a: seq<Params>, b: seq<Params>) {
    |a| == |b| && forall i :: 0 <= i < |a| ==> a[i].imsi == b[i].imsi
  }

  lemma {:induction false} LookupSame(a: seq<Params>, b: seq<Params>, imsi: string)
    requires SameImsis(a, b)
    ensures Lookup(a, imsi) == Lookup(b, imsi)
  {
    if a != [] {
      LookupSame(a[1..], b[1..], imsi);
    }
  }

  /** What get_milenage finds. */
  function Found(db: seq<Params>, imsi: string): Option<Params> {
    var i := Lookup(db, imsi);
    if i < |db| then Some(db[i]) else None
  }

  /**
  Which records, the last of the file first, come from lines that begin with their IMSI: a line that
  begins with a blank is read, but never rewritten.
  */
  function Flags(text: string, acc: seq<bool>): seq<bool>
    requires Supported(text)
    decreases |text|
  {
    if text == "" then acc
    else
      FirstLine(text);
      var t := text[..LineLen(text)];
      Flags(text[LineLen(text)..], if Skipped(t) then acc else [t[0] != ' '] + acc)
  }

  /** A record read back: the current one where the line was rewritten, else the one of the old file. */
  predicate Refreshed(was: Params, now: Params, flag: bool, db: seq<Params>) {
    && Lookup(db, was.imsi) < |db|
    && now == if flag then db[Lookup(db, was.imsi)].(resLen := 0) else was
  }

  predicate AllRefreshed(was: seq<Params>, now: seq<Params>, flags: seq<bool>, db: seq<Params>) {
    |was| == |now| == |flags| && forall i :: 0 <= i < |was| ==> Refreshed(was[i], now[i], flags[i], db)
  }

  predicate AllKnown(rs: seq<Params>, db: seq<Params>) {
    forall m :: m in rs ==> Lookup(db, m.imsi) < |db|
  }

  lemma SkippedIsLeft(t: string, db: seq<Params>)
    requires IsChunk(t) && Skipped(t)
    ensures !Rewrites(t, db)
  {
    hide Skipped, IsChunk;
    StrippedIsBody(t);
    if t == "\n" {
      FindUnique(t, ' ', 1);
    }
  }

  lemma NoEmptyImsi(db: seq<Params>)
    requires ValidDb(db)
    ensures Lookup(db, "") == |db|
  {
    assert forall i :: 0 <= i < |db| ==> db[i] in db;
  }

  lemma BlankIsLeft(t: string, db: seq<Params>)
    requires t != "" && t[0] == ' ' && ValidDb(db)
    ensures !Rewrites(t, db)
  {
    FindUnique(t, ' ', 0);
    NoEmptyImsi(db);
    assert t[..0] == "";
  }

  lemma BodyPrefix(t: string, k: nat)
    requires k < |Body(t)| && Find(Body(t), ' ') == k
    ensures Find(t, ' ') == k < |t| && t[..k] == Body(t)[..k]
  {
    FindUnique(t, ' ', k);
  }

  lemma KnownIsRewritten(t: string, db: seq<Params>)
    requires IsChunk(t) && !Skipped(t) && t[0] != ' ' && ParseLine(Stripped(t)).Some?
    requires Lookup(db, ParseLine(Stripped(t)).value.imsi) < |db|
    ensures Rewrites(t, db) && Current(t, db).imsi == ParseLine(Stripped(t)).value.imsi
  {
    hide ParseLine, Skipped, Lookup, Stripped, Find;
    StrippedIsBody(t);
    ParseShape(Body(t));
    BodyPrefix(t, |ParseLine(Body(t)).value.imsi|);
  }

  lemma TakenIsFirst(t: string, acc: seq<Params>, db: seq<Params>)
    requires TakeLine(t, acc).Some? && !Skipped(t) && AllKnown(TakeLine(t, acc).value, db)
    ensures ParseLine(Stripped(t)).Some? && Lookup(db, ParseLine(Stripped(t)).value.imsi) < |db|
  {
    assert TakeLine(t, acc).value[0] == ParseLine(Stripped(t)).value;
  }

  /** Whether a readable line of a known IMSI is rewritten is decided by its first character. */
  lemma RewritesIff(t: string, db: seq<Params>, acc: seq<Params>)
    requires IsChunk(t) && ValidDb(db) && TakeLine(t, acc).Some? && AllKnown(TakeLine(t, acc).value, db)
    ensures Skipped(t) ==> !Rewrites(t, db)
    ensures !Skipped(t) ==> (Rewrites(t, db) <==> t[0] != ' ')
    ensures !Skipped(t) && t[0] != ' ' ==> Current(t, db).imsi == ParseLine(Stripped(t)).value.imsi
  {
    hide Skipped, TakeLine, ParseLine, Stripped, Rewrites, Lookup, AllKnown, ValidDb, Current;
    if Skipped(t) {
      SkippedIsLeft(t, db);
    } else if t[0] == ' ' {
      BlankIsLeft(t, db);
    } else {
      TakenIsFirst(t, acc, db);
      KnownIsRewritten(t, db);
    }
  }

  lemma {:induction false} ReadKeeps(text: string, acc: seq<Params>)
    requires ReadFrom(text, acc).Some?
    ensures forall m :: m in acc ==> m in ReadFrom(text, acc).value
    decreases |text|
  {
    if text != "" {
      var n := FgetsLen(text, READ_BUF);
      var acc' := if Skipped(text[..n]) then acc else [ParseLine(Stripped(text[..n])).value] + acc;
      ReadKeeps(text[n..], acc');
    }
  }

  lemma {:induction false} RereadRefreshes(
      text: string, db: seq<Params>, b: Buffer, was: seq<Params>, now: seq<Params>, flags: seq<bool>)
    requires Supported(text) && ValidDb(db) && TailsAddNothing(text, db, b)
    requires ReadFrom(text, was).Some? && AllKnown(ReadFrom(text, was).value, db) && AllRefreshed(was, now, flags, db)
    ensures Reread(text, db, b, now).Some?
    ensures AllRefreshed(ReadFrom(text, was).value, Reread(text, db, b, now).value, Flags(text, flags), db)
    decreases |text|
  {
    if text != "" {
      var n := LineLen(text);
      FirstLine(text);
      ReadStep(text, was);
      var t, was' := text[..n], TakeLine(text[..n], was).value;
      ReadKeeps(text[n..], was');
      RewritesIff(t, db, was);
      var now' := RetakeLine(t, db, b, now).value;
      var flags' := if Skipped(t) then flags else [t[0] != ' '] + flags;
      assert AllRefreshed(was', now', flags', db) by {
        RefreshLine(t, db, b, was, now, flags);
      }
      RereadRefreshes(text[n..], db, NewBuffer(t, db, b), was', now', flags');
    }
  }

  lemma RefreshLine(t: string, db: seq<Params>, b: Buffer, was: seq<Params>, now: seq<Params>, flags: seq<bool>)
    requires IsChunk(t) && ValidDb(db) && TakeLine(t, was).Some? && AllKnown(TakeLine(t, was).value, db)
    requires Rewrites(t, db) ==> ReadFrom(TailOf(t, db, b), []) == Some([])
    requires AllRefreshed(was, now, flags, db)
    ensures RetakeLine(t, db, b, now).Some?
    ensures AllRefreshed(TakeLine(t, was).value, RetakeLine(t, db, b, now).value,
                         if Skipped(t) then flags else [t[0] != ' '] + flags, db)
  {
    hide *;
    RewritesIff(t, db, was);
    RetakeCases(t, db, b, now);
    TakeCases(t, was);
    TakeCases(t, now);
    if !Skipped(t) {
      var m := ParseLine(Stripped(t)).value;
      TakenIsFirst(t, was, db);
      if Rewrites(t, db) {
        CurrentIsFound(t, db);
        var x := Current(t, db).(resLen := 0);
        OntoNothing([x] + now);
        RefreshedCons(was, now, flags, db, m, x, true);
      } else {
        RefreshedCons(was, now, flags, db, m, m, false);
      }
    }
  }

  lemma OntoNothing(acc: seq<Params>)
    ensures Onto(Some([]), acc) == Some(acc)
  {
    assert [] + acc == acc;
  }

  lemma TakeCases(t: string, acc: seq<Params>)
    ensures Skipped(t) ==> TakeLine(t, acc) == Some(acc)
    ensures !Skipped(t) && ParseLine(Stripped(t)).Some? ==> TakeLine(t, acc) == Some([ParseLine(Stripped(t)).value] + acc)
    ensures !Skipped(t) && TakeLine(t, acc).Some? ==> ParseLine(Stripped(t)).Some?
  {
  }

  lemma RefreshedCons(
      was: seq<Params>, now: seq<Params>, flags: seq<bool>, db: seq<Params>, m: Params, x: Params, flag: bool)
    requires AllRefreshed(was, now, flags, db) && Lookup(db, m.imsi) < |db|
    requires x == if flag then db[Lookup(db, m.imsi)].(resLen := 0) else m
    ensures AllRefreshed([m] + was, [x] + now, [flag] + flags, db)
  {
    hide Lookup, Refreshed;
    HeadRefreshed(m, x, flag, db);
    forall i | 0 <= i < |was| + 1
      ensures Refreshed(([m] + was)[i], ([x] + now)[i], ([flag] + flags)[i], db)
    {
      ConsAt(m, was, i);
      ConsAt(x, now, i);
      ConsAt(flag, flags, i);
    }
  }

  lemma HeadRefreshed(m: Params, x: Params, flag: bool, db: seq<Params>)
    requires Lookup(db, m.imsi) < |db| && x == if flag then db[Lookup(db, m.imsi)].(resLen := 0) else m
    ensures Refreshed(m, x, flag, db)
  {
  }

  lemma ConsAt<T>(x: T, xs: seq<T>, i: nat)
    requires i <= |xs|
    ensures ([x] + xs)[i] == if i == 0 then x else xs[i - 1]
  {
  }

  lemma CurrentIsFound(t: string, db: seq<Params>)
    requires Rewrites(t, db)
    ensures Lookup(db, Current(t, db).imsi) < |db| && Current(t, db) == db[Lookup(db, Current(t, db).imsi)]
  {
  }

  lemma {:induction false} ReadIsValid(text: string, acc: seq<Params>)
    requires Supported(text) && ValidDb(acc) && ReadFrom(text, acc).Some?
    ensures ValidDb(ReadFrom(text, acc).value)
    decreases |text|
  {
    if text != "" {
      hide ParseLine, Skipped, Stripped, ValidParams, ReadFrom;
      var n := LineLen(text);
      var t := text[..n];
      FirstLine(text);
      ReadStep(text, acc);
      TakeCases(t, acc);
      if !Skipped(t) {
        StrippedIsBody(t);
        ParseShape(Body(t));
      }
      ReadIsValid(text[n..], TakeLine(t, acc).value);
    }
  }

  lemma SameSubscribersKnown(db0: seq<Params>, db: seq<Params>)
    requires ValidDb(db0) && SameSubscribers(db0, db)
    ensures ValidDb(db) && SameImsis(db0, db) && AllKnown(db0, db)
  {
    forall m | m in db
      ensures ValidParams(m)
    {
      var i :| 0 <= i < |db| && db[i] == m;
      assert db0[i] in db0;
    }
    forall m | m in db0
      ensures Lookup(db, m.imsi) < |db|
    {
      LookupSame(db0, db, m.imsi);
    }
  }

  /** Every text that can be read gives valid records, also after their sequence numbers have changed. */
  lemma RunIsValid(text: string, db0: seq<Params>, db: seq<Params>)
    requires Supported(text) && ReadFrom(text, []) == Some(db0) && SameSubscribers(db0, db)
    ensures ValidDb(db) && SameImsis(db0, db) && AllKnown(db0, db)
  {
    ReadIsValid(text, []);
    SameSubscribersKnown(db0, db);
  }

  /** The record that a restart finds for subscriber `i`. */
  function FoundAgain(db0: seq<Params>, db: seq<Params>, flags: seq<bool>, i: nat): Params
    requires i < |db0| == |db| == |flags|
  {
    if flags[i] then db[i].(resLen := 0) else db0[i]
  }

  lemma FoundRefreshed(db0: seq<Params>, db: seq<Params>, after: seq<Params>, flags: seq<bool>, imsi: string)
    requires SameImsis(db0, db) && AllRefreshed(db0, after, flags, db)
    ensures var i := Lookup(db0, imsi);
            Found(after, imsi) == if i < |db0| then Some(FoundAgain(db0, db, flags, i)) else None
  {
    forall i | 0 <= i < |db0|
      ensures after[i].imsi == db0[i].imsi
    {
      assert Refreshed(db0[i], after[i], flags[i], db);
    }
    LookupSame(db0, after, imsi);
    LookupSame(db0, db, imsi);
    var i := Lookup(db0, imsi);
    if i < |db0| {
      assert Refreshed(db0[i], after[i], flags[i], db);
    }
  }

  /**
  When nothing left behind a new line adds a record, a restart finds for every IMSI the current record
  without its RES length, or the old one if the line of the IMSI begins with a blank.
  */
  lemma RestartFinds(text: string, db0: seq<Params>, db: seq<Params>, b: Buffer, imsi: string)
    requires Supported(text) && ReadFrom(text, []) == Some(db0) && SameSubscribers(db0, db)
    requires ValidDb(db) && TailsAddNothing(text, db, b)
    ensures |Flags(text, [])| == |db0|
    ensures var after := ReadFrom(UpdateFrom(text, db, b), []); var i := Lookup(db0, imsi);
            && after.Some?
            && Found(after.value, imsi)
               == if i < |db0| then Some(FoundAgain(db0, db, Flags(text, []), i)) else None
  {
    hide *;
    RunIsValid(text, db0, db);
    RereadIsRead(text, db, b, [], []);
    NothingRefreshed(db);
    RereadRefreshes(text, db, b, [], [], []);
    RefreshedLen(db0, ReadFrom(UpdateFrom(text, db, b), []).value, Flags(text, []), db);
    FoundRefreshed(db0, db, ReadFrom(UpdateFrom(text, db, b), []).value, Flags(text, []), imsi);
  }

  lemma NothingRefreshed(db: seq<Params>)
    ensures AllRefreshed([], [], [], db)
  {
  }

  lemma RefreshedLen(was: seq<Params>, now: seq<Params>, flags: seq<bool>, db: seq<Params>)
    requires AllRefreshed(was, now, flags, db)
    ensures |was| == |now| == |flags|
  {
  }

  /** Reading back finds, for every IMSI, the very record that was found before. */
  ghost predicate Restored(after: Option<seq<Params>>, db: seq<Params>) {
    after.Some? && forall imsi :: Found(after.value, imsi) == Found(db, imsi)
  }

  /** What is left behind a new line is unreadable or adds nothing. */
  predicate TailsAddNoRecord(text: string, db: seq<Params>, b: Buffer)
    requires Supported(text) && ValidDb(db)
    decreases |text|
  {
    text == "" ||
    (FirstLine(text);
     var n := LineLen(text);
     && (Rewrites(text[..n], db) ==>
           var x := ReadFrom(TailOf(text[..n], db, b), []); x.None? || x == Some([]))
     && TailsAddNoRecord(text[n..], db, NewBuffer(text[..n], db, b)))
  }

  lemma {:induction false} ReadableAddsNothing(text: string, db: seq<Params>, b: Buffer)
    requires Supported(text) && ValidDb(db) && TailsAddNoRecord(text, db, b)
    ensures TailsReadable(text, db, b) <==> TailsAddNothing(text, db, b)
    decreases |text|
  {
    if text != "" {
      hide ReadFrom, Rewrites, TailOf, NewBuffer;
      FirstLine(text);
      ReadableAddsNothing(text[LineLen(text)..], db, NewBuffer(text[..LineLen(text)], db, b));
    }
  }

  /** Nothing is lost for the subscriber that a lookup finds at index `i`. */
  predicate Survives(db0: seq<Params>, db: seq<Params>, flags: seq<bool>, i: nat)
    requires i < |db0| == |db| == |flags|
  {
    Lookup(db0, db0[i].imsi) == i ==> if flags[i] then db[i].resLen == 0 else db[i].sqn == db0[i].sqn
  }

  lemma {:induction false} FlagsLen(text: string, acc: seq<Params>, flags: seq<bool>)
    requires Supported(text) && ReadFrom(text, acc).Some? && |acc| == |flags|
    ensures |Flags(text, flags)| == |ReadFrom(text, acc).value|
    decreases |text|
  {
    if text != "" {
      hide ParseLine, Skipped, Stripped, ReadFrom;
      var n := LineLen(text);
      var t := text[..n];
      FirstLine(text);
      ReadStep(text, acc);
      TakeCases(t, acc);
      FlagsLen(text[n..], TakeLine(t, acc).value, if Skipped(t) then flags else [t[0] != ' '] + flags);
    }
  }

  /**
  A restart keeps what every lookup finds exactly when everything left behind a new line can be read, no
  subscriber whose line is rewritten has a RES length, and none whose line begins with a blank has been
  issued a vector.
  */
  lemma RestartKeepsIff(text: string, db0: seq<Params>, db: seq<Params>, b: Buffer)
    requires Supported(text) && ReadFrom(text, []) == Some(db0) && SameSubscribers(db0, db)
    requires ValidDb(db) && TailsAddNoRecord(text, db, b)
    ensures |Flags(text, [])| == |db0|
    ensures Restored(ReadFrom(UpdateFrom(text, db, b), []), db)
        <==> TailsReadable(text, db, b) && forall i :: 0 <= i < |db0| ==> Survives(db0, db, Flags(text, []), i)
  {
    hide ReadFrom, UpdateFrom, Flags, TailsReadable, TailsAddNothing, TailsAddNoRecord, Supported, ValidDb;
    FlagsLen(text, [], []);
    RunIsValid(text, db0, db);
    RewrittenReadableIff(text, db0, db, b);
    ReadableAddsNothing(text, db, b);
    if TailsReadable(text, db, b) {
      var after, flags := ReadFrom(UpdateFrom(text, db, b), []).value, Flags(text, []);
      forall imsi
        ensures var i := Lookup(db0, imsi);
                Found(after, imsi) == if i < |db0| then Some(FoundAgain(db0, db, flags, i)) else None
      {
        RestartFinds(text, db0, db, b, imsi);
      }
      AllSurviveIff(db0, db, after, flags);
    }
  }

  lemma AllSurviveIff(db0: seq<Params>, db: seq<Params>, after: seq<Params>, flags: seq<bool>)
    requires |flags| == |db0| && SameSubscribers(db0, db)
    requires forall imsi :: Found(after, imsi)
               == var i := Lookup(db0, imsi); if i < |db0| then Some(FoundAgain(db0, db, flags, i)) else None
    ensures (forall imsi :: Found(after, imsi) == Found(db, imsi))
        <==> forall i :: 0 <= i < |db0| ==> Survives(db0, db, flags, i)
  {
    forall imsi
      ensures Lookup(db, imsi) == Lookup(db0, imsi)
    {
      LookupSame(db, db0, imsi);
    }
    if forall imsi :: Found(after, imsi) == Found(db, imsi) {
      forall i | 0 <= i < |db0|
        ensures Survives(db0, db, flags, i)
      {
        assert Found(after, db0[i].imsi) == Found(db, db0[i].imsi);
      }
    }
    if forall i :: 0 <= i < |db0| ==> Survives(db0, db, flags, i) {
      forall imsi
        ensures Found(after, imsi) == Found(db, imsi)
      {
        var i := Lookup(db0, imsi);
        if i < |db0| {
          assert Survives(db0, db, flags, i);
        }
      }
    }
  }
}
