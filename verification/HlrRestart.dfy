/**
What survives a restart of the HLR/AuC gateway when its key file is written as documented: one line
`IMSI Ki OPc AMF SQN [RES_len]` a subscriber, comments and empty lines. The last line may lack a newline.
*/
module HlrRestart {
  import opened Text
  import opened HlrSqn
  import opened HlrFile
  import opened HlrLines
  import opened HlrReread

  /** The text of a file; `open` says that its last line lacks a newline. */
  function FileText(lines: seq<FileLine>, open: bool): string {
    if lines == [] then ""
    else LineText(lines[0], open && |lines| == 1) + FileText(lines[1..], open)
  }

  predicate WellFormedFile(lines: seq<FileLine>, open: bool) {
    && (forall i :: 0 <= i < |lines| ==> WellFormed(lines[i]))
    && (open && lines != [] ==> BodyOf(lines[|lines| - 1]) != "")
  }

  /** No data line of the file carries a RES_len. */
  predicate NoResLen(lines: seq<FileLine>) {
    forall i :: 0 <= i < |lines| && lines[i].Data? ==> lines[i].e.resLen == ""
  }

  lemma NoResLenStep(lines: seq<FileLine>)
    requires lines != []
    ensures NoResLen(lines) <==> (lines[0].Data? ==> lines[0].e.resLen == "") && NoResLen(lines[1..])
  {
    if NoResLen(lines[1..]) {
      assert forall i :: 1 <= i < |lines| ==> lines[i] == lines[1..][i - 1];
    }
  }

  lemma FileParts(lines: seq<FileLine>, open: bool)
    requires WellFormedFile(lines, open)
    ensures lines == [] ==> FileText(lines, open) == "" && Supported(FileText(lines, open))
    ensures lines != [] ==>
              var last := open && |lines| == 1;
              && WellFormed(lines[0]) && WellFormedFile(lines[1..], open) && (last ==> BodyOf(lines[0]) != "")
              && FileText(lines, open) == LineText(lines[0], last) + FileText(lines[1..], open)
              && (last ==> FileText(lines[1..], open) == "")
  {
    hide WellFormed, LineText, BodyOf;
  }

  /** A file falls into its lines. */
  lemma {:induction false} FileFalls(lines: seq<FileLine>, open: bool)
    requires WellFormedFile(lines, open)
    ensures Supported(FileText(lines, open))
    ensures lines != [] ==>
              var text, t := FileText(lines, open), LineText(lines[0], open && |lines| == 1);
              && WellFormed(lines[0]) && WellFormedFile(lines[1..], open) && text != ""
              && LineLen(text) == |t| && text[..|t|] == t && text[|t|..] == FileText(lines[1..], open)
  {
    hide *;
    FileParts(lines, open);
    if lines != [] {
      var last := open && |lines| == 1;
      FileFalls(lines[1..], open);
      LineIsChunk(lines[0], last);
      FirstOf(LineText(lines[0], last), FileText(lines[1..], open));
    }
  }

  lemma FirstOf(t: string, rest: string)
    requires IsChunk(t) && (rest == "" || IsLine(t)) && Supported(rest)
    ensures Supported(t + rest) && t + rest != "" && LineLen(t + rest) == |t|
    ensures (t + rest)[..|t|] == t && (t + rest)[|t|..] == rest
  {
    assert (t + rest)[|t|..] == rest;
    FindUnique(t + rest, '\n', if IsLine(t) then |t| - 1 else |t|);
  }

  // ---------------------------------------------------------------------------------------------
  // Reading a documented file
  // ---------------------------------------------------------------------------------------------

  /** The records of a file, the last line first. */
  function Parsed(lines: seq<FileLine>, acc: seq<Params>): Option<seq<Params>>
    requires forall i :: 0 <= i < |lines| ==> WellFormed(lines[i])
  {
    if lines == [] then Some(acc)
    else match lines[0]
      case Note(_) => Parsed(lines[1..], acc)
      case Data(e) => if ParamsOf(e).None? then None else Parsed(lines[1..], [ParamsOf(e).value] + acc)
  }

  lemma {:induction false} ReadIsParsed(lines: seq<FileLine>, open: bool, acc: seq<Params>)
    requires WellFormedFile(lines, open)
    ensures ReadFrom(FileText(lines, open), acc) == Parsed(lines, acc)
  {
    if lines != [] {
      hide WellFormed, ReadFrom, TakeLine, ParamsOf, LineText, FileText, BodyOf;
      var l, last := lines[0], open && |lines| == 1;
      FileFalls(lines, open);
      ReadStep(FileText(lines, open), acc);
      TakeDocumented(l, last, acc);
      match l {
        case Note(_) => ReadIsParsed(lines[1..], open, acc);
        case Data(e) =>
          if ParamsOf(e).Some? {
            ReadIsParsed(lines[1..], open, [ParamsOf(e).value] + acc);
          }
      }
    } else {
      NothingRead(open, acc);
    }
  }

  lemma NothingRead(open: bool, acc: seq<Params>)
    ensures ReadFrom(FileText([], open), acc) == Some(acc)
  {
  }

  // ---------------------------------------------------------------------------------------------
  // What is left behind the new line of a documented line
  // ---------------------------------------------------------------------------------------------

  lemma NamedIsRewritten(name: string, rest: string, db: seq<Params>)
    requires ImsiField(name) && Lookup(db, name) < |db|
    ensures var t := name + (" " + rest); Rewrites(t, db) && Current(t, db) == db[Lookup(db, name)]
  {
    var t := name + (" " + rest);
    FindUnique(t, ' ', |name|);
    assert t[..|name|] == name;
  }

  lemma LineParts(e: Entry, open: bool)
    ensures var end := if open then "" else "\n";
            && LineText(Data(e), open) == e.imsi + (" " + (KeyFields(e) + Tail(e) + end))
            && LineText(Data(e), open) == Front(e) + (Tail(e) + end)
  {
  }

  /** A documented data line of a known IMSI is rewritten. */
  lemma DocumentedIsRewritten(e: Entry, open: bool, db: seq<Params>)
    requires WellFormed(Data(e)) && ValidDb(db) && Lookup(db, e.imsi) < |db|
    ensures var t := LineText(Data(e), open); Rewrites(t, db) && Current(t, db) == db[Lookup(db, e.imsi)]
  {
    hide LineText, Rewrites, Current, Lookup, Front;
    LineParts(e, open);
    NamedIsRewritten(e.imsi, KeyFields(e) + Tail(e) + if open then "" else "\n", db);
  }

  lemma NoteIsLeft(l: FileLine, open: bool, db: seq<Params>)
    requires l.Note? && WellFormed(l) && (open ==> BodyOf(l) != "")
    ensures !Rewrites(LineText(l, open), db)
  {
    LineIsChunk(l, open);
    StrippedIsBody(LineText(l, open));
    SkippedIsLeft(LineText(l, open), db);
  }

  /**
  Behind the new line stays the RES length, with the newline if there was one; if the old line had neither,
  whatever the buffer held from lines before.
  */
  lemma DocumentedTail(e: Entry, open: bool, db: seq<Params>, b: Buffer)
    requires WellFormed(Data(e)) && ValidDb(db) && Lookup(db, e.imsi) < |db|
    ensures var t := LineText(Data(e), open);
            && Rewrites(t, db)
            && TailOf(t, db, b)
               == if e.resLen != "" then e.resLen + (if open then "" else "\n")
                  else if open then CStr(b[|Front(e)| + 1..WRITE_BUF - 1]) else ""
  {
    hide LineText, Rewrites, Current, Lookup, Front, Canonical, CStr, ValidDb, WellFormed, IsChunk;
    var t, end := LineText(Data(e), open), if open then "" else "\n";
    DocumentedIsRewritten(e, open, db);
    DataShape(e);
    CurrentIsValid(t, db);
    CanonicalShape(Current(t, db));
    LineParts(e, open);
    CutAfter(Front(e), e.resLen, end);
  }

  /** Cutting one character more than the fields leaves what is behind the blank. */
  lemma CutAfter(front: string, res: string, end: string)
    ensures res != "" ==> (front + (" " + res + end))[|front| + 1..] == res + end
    ensures end != "" ==> (front + ("" + end))[|front| + 1..] == end[1..]
  {
  }

  /** A line that holds a single word is rejected. */
  lemma LoneWordIsRejected(w: string, open: bool, acc: seq<Params>)
    requires Plain(w) && w != "" && w[0] != '#' && |w| < READ_BUF - 1
    ensures ReadFrom(w + (if open then "" else "\n"), acc) == None
  {
    var t := w + if open then "" else "\n";
    assert IsChunk(t) && Body(t) == w;
    ReadLineThen(t, "", acc);
    assert t + "" == t;
    StrippedIsBody(t);
    FirstToken(w, "");
    assert NextToken("") == None;
  }

  // ---------------------------------------------------------------------------------------------
  // Reading back a documented file
  // ---------------------------------------------------------------------------------------------

  predicate Known(lines: seq<FileLine>, db: seq<Params>) {
    forall i :: 0 <= i < |lines| && lines[i].Data? ==> Lookup(db, lines[i].e.imsi) < |db|
  }

  /** The current records of the data lines. */
  function Rebuilt(lines: seq<FileLine>, db: seq<Params>, acc: seq<Params>): seq<Params>
    requires Known(lines, db)
  {
    if lines == [] then acc
    else match lines[0]
      case Note(_) => Rebuilt(lines[1..], db, acc)
      case Data(e) => Rebuilt(lines[1..], db, [db[Lookup(db, e.imsi)].(resLen := 0)] + acc)
  }

  /** What stays behind the new text of an unterminated last line; "" when there is no such line. */
  function LastTail(text: string, db: seq<Params>, b: Buffer): string
    requires Supported(text) && ValidDb(db)
    decreases |text|
  {
    if text == "" then ""
    else
      FirstLine(text);
      var n := LineLen(text);
      if n < |text| then LastTail(text[n..], db, NewBuffer(text[..n], db, b))
      else if Rewrites(text, db) && '\n' !in text then TailOf(text, db, b) else ""
  }

  /** The tail of a file begins at its last line. */
  lemma LastTailStep(lines: seq<FileLine>, open: bool, db: seq<Params>, b: Buffer)
    requires WellFormedFile(lines, open) && lines != [] && ValidDb(db)
    ensures Supported(FileText(lines, open)) && WellFormedFile(lines[1..], open)
    ensures Supported(FileText(lines[1..], open))
    ensures var t := LineText(lines[0], open && |lines| == 1);
            && |t| < READ_BUF
            && LastTail(FileText(lines, open), db, b)
               == if open && |lines| == 1 then (if Rewrites(t, db) then TailOf(t, db, b) else "")
                  else LastTail(FileText(lines[1..], open), db, NewBuffer(t, db, b))
  {
    hide TailOf, NewBuffer, Rewrites, WellFormed, ValidDb;
    FileFalls(lines, open);
    FileFalls(lines[1..], open);
    var last := open && |lines| == 1;
    var t := LineText(lines[0], last);
    LineIsChunk(lines[0], last);
    if |lines| == 1 {
      assert FileText(lines[1..], open) == "";
      assert FileText(lines, open) == t;
      OpenHasNoBreak(lines[0]);
    } else {
      FileFalls(lines[1..], open);
    }
  }

  lemma OpenHasNoBreak(l: FileLine)
    requires WellFormed(l)
    ensures '\n' !in LineText(l, true) && '\n' in LineText(l, false)
  {
    if l.Data? {
      DataShape(l.e);
    }
    assert LineText(l, false)[|BodyOf(l)|] == '\n';
  }

  lemma RereadStep(text: string, db: seq<Params>, b: Buffer, acc: seq<Params>)
    requires Supported(text) && ValidDb(db) && text != ""
    ensures LineLen(text) < READ_BUF && Supported(text[LineLen(text)..])
    ensures var t := text[..LineLen(text)]; var r := RetakeLine(t, db, b, acc);
            Reread(text, db, b, acc)
            == if r.None? then None else Reread(text[LineLen(text)..], db, NewBuffer(t, db, b), r.value)
  {
    FirstLine(text);
  }

  lemma RereadNothing(open: bool, db: seq<Params>, b: Buffer, acc: seq<Params>)
    requires ValidDb(db)
    ensures Supported(FileText([], open)) && Reread(FileText([], open), db, b, acc) == Some(acc)
    ensures LastTail(FileText([], open), db, b) == "" && Onto(ReadFrom("", []), acc) == Some(acc)
  {
    assert [] + acc == acc;
  }

  /** One documented data line, read back. */
  lemma RetakeData(e: Entry, open: bool, db: seq<Params>, b: Buffer, acc: seq<Params>)
    requires WellFormed(Data(e)) && ValidDb(db) && Lookup(db, e.imsi) < |db|
    ensures var t, m := LineText(Data(e), open), db[Lookup(db, e.imsi)].(resLen := 0);
            && Rewrites(t, db)
            && (e.resLen != "" ==> RetakeLine(t, db, b, acc) == None && ReadFrom(TailOf(t, db, b), []) == None)
            && (e.resLen == "" && !open ==> RetakeLine(t, db, b, acc) == Some([m] + acc))
            && (e.resLen == "" && open ==>
                  RetakeLine(t, db, b, acc) == Onto(ReadFrom(TailOf(t, db, b), []), [m] + acc))
  {
    hide ReadFrom, TailOf, Rewrites, Current, Lookup;
    DocumentedIsRewritten(e, open, db);
    DocumentedTail(e, open, db, b);
    if e.resLen != "" {
      LoneWordIsRejected(e.resLen, open, []);
    } else if !open {
      EmptyAddsNothing([db[Lookup(db, e.imsi)].(resLen := 0)] + acc);
    }
  }

  lemma EmptyAddsNothing(acc: seq<Params>)
    ensures Onto(ReadFrom("", []), acc) == Some(acc)
  {
    assert [] + acc == acc;
  }

  lemma KnownStep(lines: seq<FileLine>, db: seq<Params>)
    requires lines != [] && Known(lines, db)
    ensures Known(lines[1..], db) && (lines[0].Data? ==> Lookup(db, lines[0].e.imsi) < |db|)
  {
  }

  /** A documented file reads back iff no line has a RES length and the tail of its last line reads. */
  lemma {:induction false} RereadDocumented(
      lines: seq<FileLine>, open: bool, db: seq<Params>, b: Buffer, acc: seq<Params>)
    requires WellFormedFile(lines, open) && ValidDb(db) && Known(lines, db)
    ensures Supported(FileText(lines, open))
    ensures Reread(FileText(lines, open), db, b, acc)
            == if NoResLen(lines) then Onto(ReadFrom(LastTail(FileText(lines, open), db, b), []), Rebuilt(lines, db, acc))
               else None
  {
    hide ReadFrom, Reread, LastTail, TailOf, NewBuffer, RetakeLine, Rewrites, WellFormed, LineText, FileText, NoResLen;
    FileFalls(lines, open);
    if lines == [] {
      RereadNothing(open, db, b, acc);
      NoLines(lines);
    } else {
      var l, last := lines[0], open && |lines| == 1;
      var t := LineText(l, last);
      NoResLenStep(lines);
      KnownStep(lines, db);
      LastTailStep(lines, open, db, b);
      RereadStep(FileText(lines, open), db, b, acc);
      if |lines| == 1 {
        NoLines(lines[1..]);
      }
      match l {
        case Note(_) =>
          NoteIsLeft(l, last, db);
          RetakeCases(t, db, b, acc);
          TakeDocumented(l, last, acc);
          RereadDocumented(lines[1..], open, db, NewBuffer(t, db, b), acc);
          RereadNothing(open, db, NewBuffer(t, db, b), acc);
        case Data(e) =>
          var m := db[Lookup(db, e.imsi)].(resLen := 0);
          RetakeData(e, last, db, b, acc);
          var r := RetakeLine(t, db, b, acc);
          if r.Some? {
            RereadDocumented(lines[1..], open, db, NewBuffer(t, db, b), r.value);
            if last {
              RereadNothing(open, db, NewBuffer(t, db, b), r.value);
            }
          }
      }
    }
  }

  lemma NoLines(lines: seq<FileLine>)
    requires lines == []
    ensures NoResLen(lines)
  {
  }

  // ---------------------------------------------------------------------------------------------
  // Restart
  // ---------------------------------------------------------------------------------------------

  lemma {:induction false} ParsedKnows(lines: seq<FileLine>, acc: seq<Params>, db: seq<Params>)
    requires (forall i :: 0 <= i < |lines| ==> WellFormed(lines[i])) && Parsed(lines, acc) == Some(db)
    ensures forall m :: m in acc ==> m in db
    ensures Known(lines, db)
  {
    if lines != [] {
      match lines[0] {
        case Note(_) =>
          ParsedKnows(lines[1..], acc, db);
        case Data(e) =>
          var m := ParamsOf(e).value;
          ParsedKnows(lines[1..], [m] + acc, db);
          assert m in [m] + acc && m.imsi == e.imsi;
          forall x | x in acc
            ensures x in db
          {
            assert x in [m] + acc;
          }
      }
      forall i | 0 <= i < |lines| && lines[i].Data?
        ensures Lookup(db, lines[i].e.imsi) < |db|
      {
        if i > 0 {
          assert lines[i] == lines[1..][i - 1];
        }
      }
    }
  }

  lemma {:induction false} ParsedWithoutRes(lines: seq<FileLine>, acc: seq<Params>, db: seq<Params>)
    requires (forall i :: 0 <= i < |lines| ==> WellFormed(lines[i])) && Parsed(lines, acc) == Some(db)
    requires NoResLen(lines) && forall m :: m in acc ==> m.resLen == 0
    ensures forall m :: m in db ==> m.resLen == 0
  {
    if lines != [] {
      NoResLenStep(lines);
      match lines[0] {
        case Note(_) => ParsedWithoutRes(lines[1..], acc, db);
        case Data(e) =>
          NoResLenParses(e);
          ParsedWithoutRes(lines[1..], [ParamsOf(e).value] + acc, db);
      }
    }
  }

  lemma {:induction false} RebuiltMatches(
      lines: seq<FileLine>, db: seq<Params>, acc0: seq<Params>, acc: seq<Params>, db0: seq<Params>)
    requires (forall i :: 0 <= i < |lines| ==> WellFormed(lines[i])) && Known(lines, db)
    requires Parsed(lines, acc0) == Some(db0) && SameImsis(acc0, acc)
    ensures SameImsis(db0, Rebuilt(lines, db, acc))
    ensures forall m :: m in Rebuilt(lines, db, acc) ==>
              m in acc || (Lookup(db, m.imsi) < |db| && m == db[Lookup(db, m.imsi)].(resLen := 0))
  {
    if lines != [] {
      match lines[0] {
        case Note(_) => RebuiltMatches(lines[1..], db, acc0, acc, db0);
        case Data(e) =>
          var m, r := ParamsOf(e).value, db[Lookup(db, e.imsi)].(resLen := 0);
          assert SameImsis([m] + acc0, [r] + acc);
          RebuiltMatches(lines[1..], db, [m] + acc0, [r] + acc, db0);
      }
    }
  }

  lemma RebuiltIsFound(after: seq<Params>, db: seq<Params>, imsi: string)
    requires SameImsis(after, db)
    requires forall m :: m in after ==>
               Lookup(db, m.imsi) < |db| && m == db[Lookup(db, m.imsi)].(resLen := 0)
    requires forall m :: m in db ==> m.resLen == 0
    ensures Found(after, imsi) == Found(db, imsi)
  {
    LookupSame(after, db, imsi);
    var i := Lookup(db, imsi);
    if i < |db| {
      assert after[i] in after && db[i] in db;
    }
  }

  lemma ResLenStaysZero(db0: seq<Params>, db: seq<Params>)
    requires SameSubscribers(db0, db) && forall m :: m in db0 ==> m.resLen == 0
    ensures forall m :: m in db ==> m.resLen == 0
  {
    forall m | m in db
      ensures m.resLen == 0
    {
      var i :| 0 <= i < |db| && db[i] == m;
      assert db0[i] in db0;
    }
  }

  lemma {:induction false} FoundInFront(front: seq<Params>, rest: seq<Params>, imsi: string)
    ensures Found(front + rest, imsi) == if Found(front, imsi).Some? then Found(front, imsi) else Found(rest, imsi)
  {
    if front == [] {
      assert front + rest == rest;
    } else {
      FoundInFront(front[1..], rest, imsi);
      assert (front + rest)[1..] == front[1..] + rest;
    }
  }

  /** Text that can be read and adds no record but ones that a lookup finds anyway. */
  ghost predicate Harmless(x: string, db: seq<Params>) {
    var r := ReadFrom(x, []);
    r.Some? && forall imsi :: Found(r.value, imsi).Some? ==> Found(r.value, imsi) == Found(db, imsi)
  }

  lemma KeepsIffHarmless(x: string, rebuilt: seq<Params>, db: seq<Params>)
    requires forall imsi :: Found(rebuilt, imsi) == Found(db, imsi)
    ensures Restored(Onto(ReadFrom(x, []), rebuilt), db) <==> Harmless(x, db)
  {
    hide ReadFrom, Found;
    var r := ReadFrom(x, []);
    if r.Some? {
      forall imsi
        ensures Found(r.value + rebuilt, imsi)
                == if Found(r.value, imsi).Some? then Found(r.value, imsi) else Found(db, imsi)
      {
        FoundInFront(r.value, rebuilt, imsi);
      }
      if Restored(Some(r.value + rebuilt), db) {
        forall imsi | Found(r.value, imsi).Some?
          ensures Found(r.value, imsi) == Found(db, imsi)
        {
          assert Found(r.value + rebuilt, imsi) == Found(db, imsi);
        }
      }
    }
  }

  /**
  The restart theorem. Let a documented key file be read into `db0`, let any run change sequence
  numbers only, giving `db`, and let the file be rewritten from `db`. Then get_milenage finds, for every
  IMSI, the very record it found before the restart exactly when no data line carried a RES_len and what
  the buffer leaves behind an unterminated last line is harmless.
  */
  lemma RestartKeepsSubscribersIff(lines: seq<FileLine>, open: bool, db0: seq<Params>, db: seq<Params>, b: Buffer)
    requires WellFormedFile(lines, open) && ReadFrom(FileText(lines, open), []) == Some(db0)
    requires SameSubscribers(db0, db)
    ensures Supported(FileText(lines, open)) && ValidDb(db)
    ensures var text := FileText(lines, open);
            Restored(ReadFrom(UpdateFrom(text, db, b), []), db)
            <==> NoResLen(lines) && Harmless(LastTail(text, db, b), db)
  {
    hide ReadFrom, UpdateFrom, FileText, LastTail, Harmless, Reread, SameSubscribers, Rebuilt, Parsed, Found;
    var text := FileText(lines, open);
    FileFalls(lines, open);
    ReadIsParsed(lines, open, []);
    RunIsValid(text, db0, db);
    ParsedKnows(lines, [], db0);
    KnownSame(lines, db0, db);
    RereadIsRead(text, db, b, [], []);
    RereadDocumented(lines, open, db, b, []);
    if NoResLen(lines) {
      var rebuilt := Rebuilt(lines, db, []);
      RebuiltFinds(lines, db0, db, rebuilt);
      KeepsIffHarmless(LastTail(text, db, b), rebuilt, db);
    }
  }

  lemma KnownSame(lines: seq<FileLine>, db0: seq<Params>, db: seq<Params>)
    requires Known(lines, db0) && SameImsis(db0, db)
    ensures Known(lines, db)
  {
    forall i | 0 <= i < |lines| && lines[i].Data?
      ensures Lookup(db, lines[i].e.imsi) < |db|
    {
      LookupSame(db0, db, lines[i].e.imsi);
    }
  }

  lemma RebuiltFinds(lines: seq<FileLine>, db0: seq<Params>, db: seq<Params>, rebuilt: seq<Params>)
    requires (forall i :: 0 <= i < |lines| ==> WellFormed(lines[i])) && NoResLen(lines) && Known(lines, db)
    requires Parsed(lines, []) == Some(db0) && SameSubscribers(db0, db) && rebuilt == Rebuilt(lines, db, [])
    ensures forall imsi :: Found(rebuilt, imsi) == Found(db, imsi)
  {
    ParsedWithoutRes(lines, [], db0);
    ResLenStaysZero(db0, db);
    RebuiltMatches(lines, db, [], [], db0);
    forall imsi
      ensures Found(rebuilt, imsi) == Found(db, imsi)
    {
      RebuiltIsFound(rebuilt, db, imsi);
    }
  }

  /** When every line has its newline, a restart works exactly when no data line carried a RES_len. */
  lemma RestartKeepsSubscribersIffNoResLen(lines: seq<FileLine>, db0: seq<Params>, db: seq<Params>, b: Buffer)
    requires WellFormedFile(lines, false) && ReadFrom(FileText(lines, false), []) == Some(db0)
    requires SameSubscribers(db0, db)
    ensures ValidDb(db)
    ensures Restored(ReadFrom(UpdateFrom(FileText(lines, false), db, b), []), db) <==> NoResLen(lines)
  {
    hide ReadFrom, UpdateFrom, FileText, LastTail;
    RestartKeepsSubscribersIff(lines, false, db0, db, b);
    ClosedHasNoTail(lines, db, b);
    assert Harmless("", db) by {
      NothingIsHarmless(db);
    }
  }

  lemma NothingIsHarmless(db: seq<Params>)
    ensures Harmless("", db)
  {
  }

  lemma {:induction false} ClosedHasNoTail(lines: seq<FileLine>, db: seq<Params>, b: Buffer)
    requires WellFormedFile(lines, false) && ValidDb(db)
    ensures Supported(FileText(lines, false)) && LastTail(FileText(lines, false), db, b) == ""
  {
    hide LastTail, FileText, NewBuffer, WellFormed, LineText;
    FileFalls(lines, false);
    RereadNothing(false, db, b, []);
    if lines != [] {
      LastTailStep(lines, false, db, b);
      ClosedHasNoTail(lines[1..], db, NewBuffer(LineText(lines[0], false), db, b));
    }
  }

  // ---------------------------------------------------------------------------------------------
  // Files that break, and files that exist
  // ---------------------------------------------------------------------------------------------

  /** Between the end of a loaded comment and the shorter text printed over its start. */
  lemma StaleEnd(b: Buffer, p: string, w: string)
    requires NUL !in w && |p| + |w| + 1 < READ_BUF
    ensures CStr(Loaded(b, p + w + "\n")[|p|..WRITE_BUF - 1]) == w + "\n"
  {
    var t, x := p + w + "\n", Loaded(b, p + w + "\n")[|p|..WRITE_BUF - 1];
    assert forall j :: 0 <= j < |w| + 1 ==> x[j] == t[|p| + j] == (w + "\n")[j];
    assert x[|w| + 1] == NUL;
    FindUnique(x, NUL, |w| + 1);
    assert x[..|w| + 1] == w + "\n";
  }

  /**
  A file without RES length that a restart breaks: a comment, and a data line without its newline that is
  shorter. The end of the comment is left behind the new data line.
  */
  lemma StaleCommentBreaksRestart(p: string, w: string, e: Entry, db0: seq<Params>, db: seq<Params>, b: Buffer)
    requires WellFormed(Data(e)) && e.resLen == "" && WellFormed(Note(p + w)) && |p| == |Front(e)| + 1
    requires w != "" && Plain(w) && w[0] != '#'
    requires ParamsOf(e).Some? && db0 == [ParamsOf(e).value] && SameSubscribers(db0, db)
    ensures ValidDb(db)
    ensures var lines := [Note(p + w), Data(e)];
            && WellFormedFile(lines, true) && NoResLen(lines) && ReadFrom(FileText(lines, true), []) == Some(db0)
            && ReadFrom(UpdateFrom(FileText(lines, true), db, b), []) == None
  {
    var lines := [Note(p + w), Data(e)];
    DataShape(e);
    assert lines[1..] == [Data(e)] && lines[1..][1..] == [];
    hide ReadFrom, UpdateFrom, FileText, LastTail, ParamsOf, WellFormed, Reread, TailOf, NewBuffer, CStr, LineText, Front;
    hide Rewrites, Loaded;
    assert WellFormedFile(lines, true) && NoResLen(lines);
    assert [ParamsOf(e).value] + [] == db0;
    assert Parsed(lines[1..], []) == Some(db0);
    ReadIsParsed(lines, true, []);
    FileFalls(lines, true);
    RunIsValid(FileText(lines, true), db0, db);
    ParsedKnows(lines, [], db0);
    KnownSame(lines, db0, db);
    RereadIsRead(FileText(lines, true), db, b, [], []);
    RereadDocumented(lines, true, db, b, []);
    LastTailStep(lines, true, db, b);
    var note := LineText(lines[0], false);
    var b' := NewBuffer(note, db, b);
    LastTailStep(lines[1..], true, db, b');
    KnownStep(lines, db);
    KnownStep(lines[1..], db);
    DocumentedTail(e, true, db, b');
    NoteBuffer(p + w, db, b);
    StaleEnd(b, p, w);
    LoneWordIsRejected(w, false, []);
  }

  /** A comment leaves itself in the buffer. */
  lemma NoteBuffer(text: string, db: seq<Params>, b: Buffer)
    requires WellFormed(Note(text)) && ValidDb(db)
    ensures var t := LineText(Note(text), false);
            t == text + "\n" && |t| < READ_BUF && NewBuffer(t, db, b) == Loaded(b, t)
  {
    var t := LineText(Note(text), false);
    NoteIsLeft(Note(text), false, db);
    LineIsChunk(Note(text), false);
    CStrOfClean(t, b[|t| + 1..]);
  }

  /** The text of a data line with two blanks more than documented behind its IMSI. */
  function Widened(e: Entry): string {
    e.imsi + (" " + ("  " + KeyFields(e) + "\n"))
  }

  /** The fields behind the IMSI end in a hexadecimal digit. */
  lemma KeyShape(e: Entry)
    requires WellFormed(Data(e))
    ensures |KeyFields(e)| == 83 && NoBreak(KeyFields(e)) && HexVal(KeyFields(e)[82]) >= 0
  {
    FieldsArePlain(e);
    assert NoBreak(e.opc + (" " + (e.amf + (" " + e.sqn))));
    assert KeyFields(e)[82] == e.sqn[11];
  }

  /** Lines with the same first word, and the same second behind it, are the same to the parser. */
  lemma ParseByTokens(s: string, s': string)
    requires NextToken(s).Some? && NextToken(s').Some? && NextToken(s).value.0 == NextToken(s').value.0
    requires NextToken(NextToken(s).value.1) == NextToken(NextToken(s').value.1)
    ensures ParseLine(s) == ParseLine(s')
  {
  }

  lemma WideShape(name: string, key: string)
    requires Plain(name) && name != "" && |name| < IMSI_SIZE && |key| == 83 && NoBreak(key)
    ensures var t := name + (" " + ("  " + key + "\n"));
            && IsChunk(t) && IsLine(t) && |t| == |name| + 87 && t[0] == name[0]
            && Body(t) == name + " " + ("  " + key) && t[|name| + 85..] == [key[82]] + "\n"
  {
    var t := name + (" " + ("  " + key + "\n"));
    assert t == name + " " + ("  " + key) + "\n";
    assert t[..|t| - 1] == name + " " + ("  " + key);
    assert t[|name| + 85..] == [key[82]] + "\n";
  }

  lemma WidenedParses(e: Entry, acc: seq<Params>)
    requires WellFormed(Data(e)) && e.resLen == ""
    ensures ParamsOf(e).Some? && IsChunk(Widened(e)) && IsLine(Widened(e))
    ensures TakeLine(Widened(e), acc) == Some([ParamsOf(e).value] + acc)
  {
    hide ParseLine, ParamsOf, KeyFields, NextToken, HexField, Skipped, Stripped, IsChunk, IsLine;
    var key := KeyFields(e);
    NoResLenParses(e);
    KeyShape(e);
    WideShape(e.imsi, key);
    ParseDataLine(e);
    FieldsArePlain(e);
    StrippedIsBody(Widened(e));
    FirstToken(e.imsi, "  " + key);
    FirstToken(e.imsi, key);
    BlanksAreSkipped(key);
    ParseByTokens(e.imsi + " " + ("  " + key), e.imsi + " " + key);
    assert Front(e) + Tail(e) == e.imsi + " " + key;
  }

  lemma BlanksAreSkipped(s: string)
    ensures NextToken("  " + s) == NextToken(s)
  {
    assert ("  " + s)[1..] == " " + s && (" " + s)[1..] == s;
    assert SkipSpaces("  " + s) == SkipSpaces(" " + s) == SkipSpaces(s);
  }

  /** Two blanks more than documented break a restart too: the end of the SQN is left behind the new line. */
  lemma TwoBlanksBreakRestart(e: Entry, db0: seq<Params>, db: seq<Params>, b: Buffer)
    requires WellFormed(Data(e)) && e.resLen == ""
    requires ParamsOf(e).Some? && db0 == [ParamsOf(e).value] && SameSubscribers(db0, db)
    ensures Supported(Widened(e)) && ValidDb(db)
    ensures ReadFrom(Widened(e), []) == Some(db0) && ReadFrom(UpdateFrom(Widened(e), db, b), []) == None
  {
    hide ReadFrom, UpdateFrom, ParamsOf, WellFormed, Reread, TailOf, NewBuffer, CStr, Rewrites, TakeLine, KeyFields;
    var t := Widened(e);
    WidenedParses(e, []);
    assert [ParamsOf(e).value] + [] == db0;
    assert t + "" == t;
    ReadLineThen(t, "", []);
    NothingFollows(db0);
    EmptyIsSupported(t);
    RunIsValid(t, db0, db);
    RereadIsRead(t, db, b, [], []);
    RereadStep(t, db, b, []);
    LineAlone(t);
    assert db0[0] in db0;
    assert ParamsOf(e).value.imsi == e.imsi by {
      ImsiOf(e);
    }
    WidenedTail(e, db, b);
  }

  lemma ImsiOf(e: Entry)
    requires WellFormed(Data(e)) && ParamsOf(e).Some?
    ensures ParamsOf(e).value.imsi == e.imsi
  {
  }

  lemma NothingFollows(acc: seq<Params>)
    ensures ReadOn(Some(acc), "") == Some(acc)
  {
  }

  lemma EmptyIsSupported(t: string)
    requires IsChunk(t)
    ensures Supported(t)
  {
    LineAlone(t);
  }

  lemma WidenedTail(e: Entry, db: seq<Params>, b: Buffer)
    requires WellFormed(Data(e)) && e.resLen == "" && ValidDb(db) && Lookup(db, e.imsi) < |db|
    ensures RetakeLine(Widened(e), db, b, []) == None
  {
    hide KeyFields, HexField, Rewrites, Current, Lookup, Canonical, ReadFrom, CStr, ValidDb;
    var t, key := Widened(e), KeyFields(e);
    KeyShape(e);
    WideShape(e.imsi, key);
    NamedIsRewritten(e.imsi, "  " + key + "\n", db);
    CurrentIsFound(t, db);
    CurrentIsValid(t, db);
    CanonicalShape(Current(t, db));
    assert Current(t, db).imsi == e.imsi by {
      FindUnique(t, ' ', |e.imsi|);
    }
    LoneWordIsRejected([key[82]], false, []);
  }

  /** The file that holds the records of `db`, one line each. */
  function LinesOf(db: seq<Params>): (ls: seq<FileLine>)
    ensures |ls| == |db|
  {
    if db == [] then [] else [Data(EntryOf(db[0]))] + LinesOf(db[1..])
  }

  /** Records that a documented file can hold: no RES_len, and no IMSI that looks like a comment. */
  predicate Printable(db: seq<Params>) {
    forall m :: m in db ==> ValidParams(m) && m.resLen == 0 && m.imsi[0] != '#'
  }

  /** Any printable records have a file, which reads back to them in reverse order. */
  lemma {:induction false} EveryDbHasFile(db: seq<Params>, acc: seq<Params>)
    requires Printable(db)
    ensures WellFormedFile(LinesOf(db), false) && NoResLen(LinesOf(db))
    ensures ReadFrom(FileText(LinesOf(db), false), acc) == Some(Reversed(db) + acc)
  {
    hide ReadFrom, FileText, EntryOf, WellFormed, ParamsOf, Reversed, ValidParams;
    if db == [] {
      NothingRead(false, acc);
      ReversedFirst(db, acc);
    } else {
      var m, lines := db[0], LinesOf(db);
      assert m in db;
      CanonicalIsData(m);
      EveryDbHasFile(db[1..], [m] + acc);
      assert lines[1..] == LinesOf(db[1..]);
      NoResLenStep(lines);
      assert EntryOf(m).resLen == "" by {
        EntryHasNoRes(m);
      }
      assert WellFormedFile(lines, false) by {
        assert forall i :: 1 <= i < |lines| ==> lines[i] == lines[1..][i - 1];
      }
      ReadIsParsed(lines, false, acc);
      ReadIsParsed(lines[1..], false, [m] + acc);
      assert m.(resLen := 0) == m;
      ReversedFirst(db, acc);
    }
  }

  lemma EntryHasNoRes(m: Params)
    ensures EntryOf(m).resLen == ""
  {
  }

  lemma ReversedFirst(db: seq<Params>, acc: seq<Params>)
    ensures db == [] ==> Reversed(db) + acc == acc
    ensures db != [] ==> Reversed(db) + acc == Reversed(db[1..]) + ([db[0]] + acc)
  {
  }
}
