/**
The Milenage key file of the HLR/AuC gateway (hostapd/hlr_auc_gw.c): what reading it yields, and what
rewriting it with the current sequence numbers leaves behind.

The rewriting works in one 500-character buffer that keeps stale text after the end of a shorter
string, so the buffer is part of the model.
*/
module HlrFile {
  import opened Text
  import opened HlrSqn

  const READ_BUF: nat := 200
  const WRITE_BUF: nat := 500
  const IMSI_SIZE: nat := 20
  const RES_MIN_LEN: nat := 4
  const RES_MAX_LEN: nat := 16

  datatype Params = Params(
    imsi: string, ki: seq<byte>, opc: seq<byte>, amf: seq<byte>, sqn: SqnBytes, resLen: nat)

  predicate ValidParams(m: Params) {
    && |m.imsi| < IMSI_SIZE && |m.ki| == 16 && |m.opc| == 16 && |m.amf| == 2
    && m.imsi != "" && ' ' !in m.imsi && '\n' !in m.imsi && NUL !in m.imsi
  }

  /** The index of the first record of `imsi`; `|db|` when there is none. */
  function Lookup(db: seq<Params>, imsi: string): (i: nat)
    ensures i <= |db|
    ensures forall j :: 0 <= j < i ==> db[j].imsi != imsi
    ensures i < |db| ==> db[i].imsi == imsi
  {
    if db == [] then 0 else if db[0].imsi == imsi then 0 else 1 + Lookup(db[1..], imsi)
  }

  // ---------------------------------------------------------------------------------------------
  // Reading
  // ---------------------------------------------------------------------------------------------

  function SkipSpaces(s: string): (r: string)
    ensures |r| <= |s| && (r != "" ==> r[0] != ' ')
  {
    if s != "" && s[0] == ' ' then SkipSpaces(s[1..]) else s
  }

  /** str_token with a space as delimiter: the next token and the text the context points at. */
  function NextToken(s: string): Option<(string, string)> {
    var t := SkipSpaces(s);
    if t == "" then None
    else
      var end := Find(t, ' ');
      Some((t[..end], if end < |t| then t[end + 1..] else ""))
  }

  /** The next token as exactly `len` bytes in hexadecimal, and the rest of the text. */
  function HexToken(s: string, len: nat): (r: Option<(seq<byte>, string)>)
    ensures r.Some? ==> |r.value.0| == len
  {
    var t := NextToken(s);
    if t.None? || |t.value.0| != 2 * len then None
    else
      var bs := ParseHex(t.value.0, len);
      if bs.None? then None else Some((bs.value, t.value.1))
  }

  predicate IsSpace(c: char) {
    c == ' ' || 9 as char <= c <= 13 as char
  }

  function DigitValue(c: char): (v: nat)
    requires '0' <= c <= '9'
    ensures v < 10
  {
    c as int - '0' as int
  }

  function Digits(s: string, acc: nat): nat {
    if s != "" && '0' <= s[0] <= '9' then Digits(s[1..], 10 * acc + DigitValue(s[0])) else acc
  }

  /** atoi, on unbounded integers. */
  function Atoi(s: string): int {
    if s != "" && IsSpace(s[0]) then Atoi(s[1..])
    else if s != "" && s[0] == '-' then 0 - (Digits(s[1..], 0) as int)
    else if s != "" && s[0] == '+' then Digits(s[1..], 0)
    else Digits(s, 0)
  }

  /** The optional RES length: 0 when absent, None when out of range. */
  function ResLen(s: string): Option<nat> {
    var t := NextToken(s);
    if t.None? then Some(0)
    else
      var n := Atoi(t.value.0);
      if n == 0 || RES_MIN_LEN <= n <= RES_MAX_LEN then Some(n) else None
  }

  /** One line `IMSI Ki OPc AMF SQN [RES_len]`. */
  function ParseLine(s: string): Option<Params> {
    var imsi := NextToken(s);
    if imsi.None? || |imsi.value.0| >= IMSI_SIZE then None else
    var ki := HexToken(imsi.value.1, 16);
    if ki.None? then None else
    var opc := HexToken(ki.value.1, 16);
    if opc.None? then None else
    var amf := HexToken(opc.value.1, 2);
    if amf.None? then None else
    var sqn := HexToken(amf.value.1, 6);
    if sqn.None? then None else
    var res := ResLen(sqn.value.1);
    if res.None? then None else
    Some(Params(imsi.value.0, ki.value.0, opc.value.0, amf.value.0, sqn.value.0, res.value))
  }

  /** What a line read into the buffer holds once its newline is cut off. */
  function Stripped(line: string): string {
    var c := CStr(line);
    c[..Find(c, '\n')]
  }

  predicate Skipped(line: string) {
    (CStr(line) != "" && CStr(line)[0] == '#') || Stripped(line) == ""
  }

  /** read_milenage: every record is put in front of the ones before it; None on the first bad line. */
  function ReadFrom(text: string, db: seq<Params>): Option<seq<Params>>
    decreases |text|
  {
    if text == "" then Some(db)
    else
      var n := FgetsLen(text, READ_BUF);
      if Skipped(text[..n]) then ReadFrom(text[n..], db)
      else
        var m := ParseLine(Stripped(text[..n]));
        if m.None? then None else ReadFrom(text[n..], [m.value] + db)
  }

  /** The records in memory when reading ends, also when it ends at a bad line. */
  function ReadStop(text: string, db: seq<Params>): seq<Params>
    decreases |text|
  {
    if text == "" then db
    else
      var n := FgetsLen(text, READ_BUF);
      if Skipped(text[..n]) then ReadStop(text[n..], db)
      else
        var m := ParseLine(Stripped(text[..n]));
        if m.None? then db else ReadStop(text[n..], [m.value] + db)
  }

  // ---------------------------------------------------------------------------------------------
  // Rewriting
  // ---------------------------------------------------------------------------------------------

  type Buffer = b: seq<char> | |b| == WRITE_BUF witness seq(WRITE_BUF, _ => NUL)

  /** The line written for a record. */
  function Canonical(m: Params): string {
    m.imsi + (" " + (HexOf(m.ki) + (" " + (HexOf(m.opc) + (" " + (HexOf(m.amf) + (" " + HexOf(m.sqn)))))))) + "\n"
  }

  /** The buffer after fgets has stored `line` in it. */
  function Loaded(b: Buffer, line: string): Buffer
    requires |line| < WRITE_BUF
  {
    line + [NUL] + b[|line| + 1..]
  }

  /** The buffer after a record has been printed over its start; the last character is set to NUL. */
  function Overprinted(b: Buffer, m: Params): Buffer
    requires ValidParams(m)
  {
    Canonical(m) + b[|Canonical(m)|..WRITE_BUF - 1] + [NUL]
  }

  /** The buffer as it is written out for the line just loaded. */
  function Rewritten(b: Buffer, db: seq<Params>): Buffer
    requires forall m :: m in db ==> ValidParams(m)
  {
    var c := CStr(b);
    var sp := Find(c, ' ');
    if (c != "" && c[0] == '#') || sp == |c| || sp >= IMSI_SIZE then b
    else
      var i := Lookup(db, c[..sp]);
      if i == |db| then b else Overprinted(b, db[i])
  }

  /** update_milenage_file: the text of the new file. */
  function UpdateFrom(text: string, db: seq<Params>, b: Buffer): string
    requires forall m :: m in db ==> ValidParams(m)
    decreases |text|
  {
    if text == "" then ""
    else
      var n := FgetsLen(text, WRITE_BUF);
      var b' := Rewritten(Loaded(b, text[..n]), db);
      CStr(b') + UpdateFrom(text[n..], db, b')
  }
}
