/**
Lines of the key file of the HLR/AuC gateway: how a text falls into lines, what each line does to the
records read so far, and the documented form `IMSI Ki OPc AMF SQN [RES_len]`.
*/
module HlrLines {
  import opened Text
  import opened HlrSqn
  import opened HlrFile

  // ---------------------------------------------------------------------------------------------
  // Lines of a text
  // ---------------------------------------------------------------------------------------------

  /** The length of the first line, with its newline if it has one. */
  function LineLen(text: string): (n: nat)
    ensures n <= |text| && (text != "" ==> n > 0)
  {
    var eol := Find(text, '\n');
    if eol < |text| then eol + 1 else |text|
  }

  predicate ShortLines(text: string)
    decreases |text|
  {
    text == "" || (LineLen(text) < READ_BUF && ShortLines(text[LineLen(text)..]))
  }

  /** No NUL, and every line fits the buffer of the reader. */
  predicate Supported(text: string) {
    NUL !in text && ShortLines(text)
  }

  /** A line without NUL that fits the buffer; it lacks a newline only at the end of a file. */
  predicate IsChunk(t: string) {
    0 < |t| < READ_BUF && NUL !in t && (IsLine(t) || '\n' !in t)
  }

  lemma FirstLine(text: string)
    requires Supported(text) && text != ""
    ensures var n := LineLen(text);
            && FgetsLen(text, READ_BUF) == n && FgetsLen(text, WRITE_BUF) == n
            && IsChunk(text[..n]) && (n < |text| ==> IsLine(text[..n])) && Supported(text[n..])
  {
  }

  lemma LineAlone(t: string)
    requires IsChunk(t)
    ensures LineLen(t) == |t| && FgetsLen(t, READ_BUF) == |t| && t[..|t|] == t && t[|t|..] == ""
  {
    FindUnique(t, '\n', if IsLine(t) then |t| - 1 else |t|);
  }

  lemma CStrOfClean(s: string, rest: string)
    requires NUL !in s
    ensures CStr(s) == s && CStr(s + [NUL] + rest) == s
  {
    FindUnique(s, NUL, |s|);
    FindUnique(s + [NUL] + rest, NUL, |s|);
  }

  /** A line without its newline. */
  function Body(t: string): string {
    if t != "" && t[|t| - 1] == '\n' then t[..|t| - 1] else t
  }

  lemma StrippedIsBody(t: string)
    requires IsChunk(t)
    ensures CStr(t) == t && Stripped(t) == Body(t)
    ensures Skipped(t) <==> t[0] == '#' || t == "\n"
    ensures '\n' !in Body(t) && NUL !in Body(t)
  {
    CStrOfClean(t, "");
    FindUnique(t, '\n', if IsLine(t) then |t| - 1 else |t|);
  }

  // ---------------------------------------------------------------------------------------------
  // The shape of a data line
  // ---------------------------------------------------------------------------------------------

  lemma {:induction false} SkipIsSuffix(s: string)
    ensures SkipSpaces(s) == s[|s| - |SkipSpaces(s)|..]
    ensures s != "" && s[0] != ' ' ==> SkipSpaces(s) == s
  {
    if s != "" && s[0] == ' ' {
      SkipIsSuffix(s[1..]);
    }
  }

  /** A token is a word of the text, and the rest begins behind the blank after it. */
  lemma TokenShape(s: string)
    requires NextToken(s).Some?
    ensures var p := NextToken(s).value;
            && p.0 != "" && ' ' !in p.0 && |p.0| + |p.1| <= |s| && (p.1 != "" ==> |p.0| + 1 + |p.1| <= |s|)
            && (forall c :: c in p.0 || c in p.1 ==> c in s)
            && (s[0] != ' ' ==> |p.0| == Find(s, ' ') && p.0 == s[..|p.0|])
  {
    SkipIsSuffix(s);
    var t := SkipSpaces(s);
    assert forall c :: c in t ==> c in s;
    var end := Find(t, ' ');
    assert end > 0;
  }

  lemma HexTokenShape(s: string, len: nat)
    requires HexToken(s, len).Some?
    ensures var p := HexToken(s, len).value; 2 * len + |p.1| <= |s| && (p.1 != "" ==> 2 * len + 1 + |p.1| <= |s|)
  {
    TokenShape(s);
  }

  /** A line that parses is long enough for its fields, and begins with its IMSI unless with a blank. */
  lemma ParseShape(s: string)
    requires ParseLine(s).Some? && '\n' !in s && NUL !in s
    ensures var m := ParseLine(s).value;
            && ValidParams(m) && |m.imsi| + 84 <= |s|
            && (s[0] != ' ' ==> Find(s, ' ') == |m.imsi| && s[..|m.imsi|] == m.imsi)
  {
    var imsi := NextToken(s).value;
    TokenShape(s);
    var ki := HexToken(imsi.1, 16).value;
    HexTokenShape(imsi.1, 16);
    var opc := HexToken(ki.1, 16).value;
    HexTokenShape(ki.1, 16);
    var amf := HexToken(opc.1, 2).value;
    HexTokenShape(opc.1, 2);
    HexTokenShape(amf.1, 6);
  }

  // ---------------------------------------------------------------------------------------------
  // Reading line by line
  // ---------------------------------------------------------------------------------------------

  /** What a line does to the list of records. */
  function TakeLine(t: string, acc: seq<Params>): Option<seq<Params>> {
    if Skipped(t) then Some(acc)
    else
      var m := ParseLine(Stripped(t));
      if m.None? then None else Some([m.value] + acc)
  }

  function ReadOn(r: Option<seq<Params>>, rest: string): Option<seq<Params>> {
    if r.None? then None else ReadFrom(rest, r.value)
  }

  lemma ReadStep(text: string, acc: seq<Params>)
    requires Supported(text) && text != ""
    ensures var n := LineLen(text); ReadFrom(text, acc) == ReadOn(TakeLine(text[..n], acc), text[n..])
  {
    FirstLine(text);
  }

  lemma ReadLineThen(t: string, rest: string, acc: seq<Params>)
    requires IsChunk(t) && (rest == "" || IsLine(t))
    ensures ReadFrom(t + rest, acc) == ReadOn(TakeLine(t, acc), rest)
  {
    if rest == "" {
      LineAlone(t);
      assert t + rest == t;
    } else {
      FgetsTakesLine(t, rest, READ_BUF);
    }
    assert (t + rest)[..|t|] == t && (t + rest)[|t|..] == rest;
  }

  /** Records in front of which a text is read stay behind what it adds. */
  function Onto(r: Option<seq<Params>>, acc: seq<Params>): Option<seq<Params>> {
    if r.None? then None else Some(r.value + acc)
  }

  lemma {:induction false} ReadOnto(x: string, front: seq<Params>, acc: seq<Params>)
    ensures ReadFrom(x, front + acc) == Onto(ReadFrom(x, front), acc)
    decreases |x|
  {
    if x != "" {
      var n := FgetsLen(x, READ_BUF);
      if Skipped(x[..n]) {
        ReadOnto(x[n..], front, acc);
      } else {
        var m := ParseLine(Stripped(x[..n]));
        if m.Some? {
          assert [m.value] + (front + acc) == ([m.value] + front) + acc;
          ReadOnto(x[n..], [m.value] + front, acc);
        }
      }
    }
  }

  // ---------------------------------------------------------------------------------------------
  // Documented lines
  // ---------------------------------------------------------------------------------------------

  /** The fields of a data line, as spelled in the file; `resLen` is empty when there is no RES_len. */
  datatype Entry = Entry(imsi: string, ki: string, opc: string, amf: string, sqn: string, resLen: string)

  /** A line without its newline; a note is a comment or empty. */
  datatype FileLine = Note(text: string) | Data(e: Entry)

  predicate HexField(s: string, len: nat) {
    |s| == 2 * len && forall i :: 0 <= i < |s| ==> HexVal(s[i]) >= 0
  }

  predicate DecimalField(s: string) {
    forall i :: 0 <= i < |s| ==> '0' <= s[i] <= '9'
  }

  /** No blank, newline or NUL. */
  predicate Plain(s: string) {
    forall i :: 0 <= i < |s| ==> s[i] != ' ' && s[i] != '\n' && s[i] != NUL
  }

  predicate NoBreak(s: string) {
    forall i :: 0 <= i < |s| ==> s[i] != '\n' && s[i] != NUL
  }

  predicate ImsiField(s: string) {
    s != "" && |s| < IMSI_SIZE && s[0] != '#' && Plain(s)
  }

  /** A data line as the documentation of the file describes it, or a comment or empty line. */
  predicate WellFormed(l: FileLine) {
    match l
    case Note(t) => NoBreak(t) && |t| < READ_BUF - 1 && (t == "" || t[0] == '#')
    case Data(e) =>
      && ImsiField(e.imsi) && HexField(e.ki, 16) && HexField(e.opc, 16) && HexField(e.amf, 2)
      && HexField(e.sqn, 6) && DecimalField(e.resLen) && |e.resLen| < 50
  }

  function KeyFields(e: Entry): string {
    e.ki + (" " + (e.opc + (" " + (e.amf + (" " + e.sqn)))))
  }

  /** The fields up to and including SQN, without the newline. */
  function Front(e: Entry): string {
    e.imsi + (" " + KeyFields(e))
  }

  function Tail(e: Entry): string {
    if e.resLen == "" then "" else " " + e.resLen
  }

  function BodyOf(l: FileLine): string {
    match l
    case Note(t) => t
    case Data(e) => Front(e) + Tail(e)
  }

  lemma FieldsArePlain(e: Entry)
    requires WellFormed(Data(e))
    ensures Plain(e.imsi) && Plain(e.ki) && Plain(e.opc) && Plain(e.amf) && Plain(e.sqn) && Plain(e.resLen)
  {
  }

  lemma DataShape(e: Entry)
    requires WellFormed(Data(e))
    ensures NoBreak(Front(e) + Tail(e)) && |Front(e)| == |e.imsi| + 84 && |Front(e) + Tail(e)| < READ_BUF - 1
    ensures (Front(e) + Tail(e))[0] == e.imsi[0]
  {
    FieldsArePlain(e);
    assert NoBreak(e.opc + (" " + (e.amf + (" " + e.sqn))));
    assert NoBreak(KeyFields(e));
    assert NoBreak(Front(e));
  }

  lemma FirstToken(a: string, rest: string)
    requires Plain(a) && a != ""
    ensures NextToken(a + " " + rest) == Some((a, rest))
    ensures NextToken(a) == Some((a, ""))
  {
    var t := a + " " + rest;
    assert SkipSpaces(t) == t && SkipSpaces(a) == a;
    FindUnique(t, ' ', |a|);
    FindUnique(a, ' ', |a|);
    assert t[..|a|] == a && t[|a| + 1..] == rest && a[..|a|] == a;
  }

  lemma {:induction false} HexFieldParses(s: string, len: nat)
    requires HexField(s, len)
    ensures ParseHex(s, len).Some?
  {
    if len > 0 {
      HexFieldParses(s[2..], len - 1);
    }
  }

  function BytesOf(s: string, len: nat): (r: seq<byte>)
    requires HexField(s, len)
    ensures |r| == len
  {
    HexFieldParses(s, len);
    ParseHex(s, len).value
  }

  lemma HexTokenOf(a: string, len: nat, rest: string)
    requires HexField(a, len) && Plain(a) && len > 0
    ensures HexToken(a + " " + rest, len) == Some((BytesOf(a, len), rest))
    ensures HexToken(a, len) == Some((BytesOf(a, len), ""))
  {
    FirstToken(a, rest);
    HexFieldParses(a, len);
  }

  /** The record a data line stands for. */
  function ParamsOf(e: Entry): Option<Params>
    requires WellFormed(Data(e))
  {
    var res := ResLen(e.resLen);
    if res.None? then None
    else Some(Params(e.imsi, BytesOf(e.ki, 16), BytesOf(e.opc, 16), BytesOf(e.amf, 2), BytesOf(e.sqn, 6), res.value))
  }

  lemma SqnAndTail(e: Entry)
    requires WellFormed(Data(e))
    ensures HexToken(e.sqn + Tail(e), 6) == Some((BytesOf(e.sqn, 6), e.resLen))
  {
    HexTokenOf(e.sqn, 6, e.resLen);
    if e.resLen == "" {
      assert e.sqn + Tail(e) == e.sqn;
    } else {
      assert e.sqn + Tail(e) == e.sqn + " " + e.resLen;
    }
  }

  lemma FrontNested(e: Entry)
    ensures Front(e) + Tail(e) == e.imsi + " " + (e.ki + " " + (e.opc + " " + (e.amf + " " + (e.sqn + Tail(e)))))
  {
    assert KeyFields(e) + Tail(e) == e.ki + " " + (e.opc + " " + (e.amf + " " + (e.sqn + Tail(e))));
  }

  lemma ParseDataLine(e: Entry)
    requires WellFormed(Data(e))
    ensures ParseLine(Front(e) + Tail(e)) == ParamsOf(e)
  {
    FieldsArePlain(e);
    FrontNested(e);
    SqnAndTail(e);
    var r5 := e.sqn + Tail(e);
    var r4 := e.amf + " " + r5;
    var r3 := e.opc + " " + r4;
    FirstToken(e.imsi, e.ki + " " + r3);
    HexTokenOf(e.ki, 16, r3);
    HexTokenOf(e.opc, 16, r4);
    HexTokenOf(e.amf, 2, r5);
  }

  /** Without RES_len a line always parses. */
  lemma NoResLenParses(e: Entry)
    requires WellFormed(Data(e)) && e.resLen == ""
    ensures ParamsOf(e).Some? && ParamsOf(e).value.resLen == 0
  {
    assert NextToken("") == None;
  }

  /** A documented line as it stands in the file. */
  function LineText(l: FileLine, open: bool): string {
    if open then BodyOf(l) else BodyOf(l) + "\n"
  }

  lemma LineIsChunk(l: FileLine, open: bool)
    requires WellFormed(l) && (open ==> BodyOf(l) != "")
    ensures IsChunk(LineText(l, open)) && (!open ==> IsLine(LineText(l, open))) && Body(LineText(l, open)) == BodyOf(l)
  {
    if l.Data? {
      DataShape(l.e);
    }
    var t := LineText(l, open);
    assert !open ==> t[..|t| - 1] == BodyOf(l);
  }

  /** The record of a documented line, put in front of the others. */
  lemma TakeDocumented(l: FileLine, open: bool, acc: seq<Params>)
    requires WellFormed(l) && (open ==> BodyOf(l) != "")
    ensures TakeLine(LineText(l, open), acc)
            == match l
               case Note(_) => Some(acc)
               case Data(e) => if ParamsOf(e).None? then None else Some([ParamsOf(e).value] + acc)
  {
    LineIsChunk(l, open);
    StrippedIsBody(LineText(l, open));
    if l.Data? {
      DataShape(l.e);
      ParseDataLine(l.e);
    }
  }

  // ---------------------------------------------------------------------------------------------
  // The line of a record
  // ---------------------------------------------------------------------------------------------

  /** The spelling of a record in a canonical line. */
  function EntryOf(m: Params): Entry {
    Entry(m.imsi, HexOf(m.ki), HexOf(m.opc), HexOf(m.amf), HexOf(m.sqn), "")
  }

  lemma HexSpelling(bs: seq<byte>)
    ensures ParseHex(HexOf(bs), |bs|) == Some(bs)
  {
    HexRoundTrip(bs, "");
    assert HexOf(bs) + "" == HexOf(bs);
  }

  lemma CanonicalIsData(m: Params)
    requires ValidParams(m) && m.imsi[0] != '#'
    ensures WellFormed(Data(EntryOf(m))) && Canonical(m) == LineText(Data(EntryOf(m)), false)
    ensures ParamsOf(EntryOf(m)) == Some(m.(resLen := 0))
  {
    HexOfIsHex(m.ki);
    HexOfIsHex(m.opc);
    HexOfIsHex(m.amf);
    HexOfIsHex(m.sqn);
    HexSpelling(m.ki);
    HexSpelling(m.opc);
    HexSpelling(m.amf);
    HexSpelling(m.sqn);
    var e := EntryOf(m);
    assert Front(e) + Tail(e) == Front(e);
    NoResLenParses(e);
  }

  lemma ReadCanonical(m: Params, rest: string, acc: seq<Params>)
    requires ValidParams(m) && m.imsi[0] != '#'
    ensures ReadFrom(Canonical(m) + rest, acc) == ReadFrom(rest, [m.(resLen := 0)] + acc)
  {
    var l := Data(EntryOf(m));
    CanonicalIsData(m);
    LineIsChunk(l, false);
    ReadLineThen(Canonical(m), rest, acc);
    TakeDocumented(l, false, acc);
  }
}
