/**
The grammar of a line of the HLR/AuC gateway's key file, stated on its words: which lines are records, which
record each of them is, and where reading a file stops.
*/
module HlrGrammar {
  import opened Text
  import opened HlrSqn
  import opened HlrFile

  // ---------------------------------------------------------------------------------------------
  // Words
  // ---------------------------------------------------------------------------------------------

  /** A word and the number of blanks in front of it. */
  datatype Field = Field(gap: nat, word: string)

  function Blanks(n: nat): (s: string)
    ensures |s| == n && forall i :: 0 <= i < n ==> s[i] == ' '
  {
    if n == 0 then "" else " " + Blanks(n - 1)
  }

  function Spread(fs: seq<Field>, tail: nat): string {
    if fs == [] then Blanks(tail) else Blanks(fs[0].gap) + (fs[0].word + Spread(fs[1..], tail))
  }

  /** Words without blanks, with at least one blank between any two. */
  predicate AreFields(fs: seq<Field>) {
    && (forall i :: 0 <= i < |fs| ==> fs[i].word != "" && ' ' !in fs[i].word)
    && (forall i :: 1 <= i < |fs| ==> fs[i].gap > 0)
  }

  lemma {:induction false} SkipBlanks(n: nat, s: string)
    ensures SkipSpaces(Blanks(n) + s) == SkipSpaces(s)
  {
    if n == 0 {
      assert "" + s == s;
    } else {
      assert Blanks(n) + s == " " + (Blanks(n - 1) + s);
      assert (" " + (Blanks(n - 1) + s))[1..] == Blanks(n - 1) + s;
      SkipBlanks(n - 1, s);
    }
  }

  lemma SkipOne(s: string)
    requires s != "" && s[0] == ' '
    ensures SkipSpaces(s) == SkipSpaces(s[1..])
  {
  }

  lemma TailFields(fs: seq<Field>)
    requires fs != [] && AreFields(fs)
    ensures AreFields(fs[1..]) && fs[0].word != "" && ' ' !in fs[0].word && (|fs| > 1 ==> fs[1].gap > 0)
  {
  }

  /** Behind a word there is a blank or nothing. */
  lemma SpreadStart(fs: seq<Field>, tail: nat)
    requires fs != [] ==> fs[0].gap > 0
    ensures Spread(fs, tail) == "" || Spread(fs, tail)[0] == ' '
  {
  }

  lemma NoFieldsLeft(fs: seq<Field>, tail: nat, s: string)
    requires fs == [] && SkipSpaces(s) == SkipSpaces(Spread(fs, tail))
    ensures NextToken(s) == None
  {
    SkipBlanks(tail, "");
    assert Blanks(tail) + "" == Blanks(tail);
  }

  lemma WordFirst(word: string, rest: string)
    requires word != "" && ' ' !in word && (rest == "" || rest[0] == ' ')
    ensures SkipSpaces(word + rest) == word + rest && Find(word + rest, ' ') == |word|
    ensures (word + rest)[..|word|] == word
    ensures rest != "" ==> (word + rest)[|word| + 1..] == rest[1..]
  {
    assert (word + rest)[0] == word[0];
    FindUnique(word + rest, ' ', |word|);
  }

  /** The next token is the first word; what is left is, up to leading blanks, the rest of the words. */
  lemma TokenIsWord(fs: seq<Field>, tail: nat, s: string)
    requires fs != [] && AreFields(fs) && SkipSpaces(s) == SkipSpaces(Spread(fs, tail))
    ensures NextToken(s).Some? && NextToken(s).value.0 == fs[0].word
    ensures SkipSpaces(NextToken(s).value.1) == SkipSpaces(Spread(fs[1..], tail))
  {
    hide Find, SkipSpaces, AreFields;
    TailFields(fs);
    var word, rest := fs[0].word, Spread(fs[1..], tail);
    SkipBlanks(fs[0].gap, word + rest);
    SpreadStart(fs[1..], tail);
    WordFirst(word, rest);
    if rest != "" {
      SkipOne(rest);
    }
  }

  /** Every text is a spread of words, in front of some blanks. */
  lemma {:induction false} EveryTextIsSpread(s: string) returns (fs: seq<Field>, tail: nat)
    ensures s == Spread(fs, tail) && AreFields(fs)
    ensures fs != [] && s != "" && s[0] == ' ' ==> fs[0].gap > 0
    decreases |s|
  {
    var gap := LeadingBlanks(s);
    var t := s[gap..];
    if t == "" {
      fs, tail := [], gap;
    } else {
      hide Spread, Find;
      var end := Find(t, ' ');
      assert t == t[..end] + t[end..];
      var more;
      more, tail := EveryTextIsSpread(t[end..]);
      fs := [Field(gap, t[..end])] + more;
      assert fs[1..] == more;
      SpreadOne(fs, tail);
      assert s == Blanks(gap) + t;
    }
  }

  lemma SpreadOne(fs: seq<Field>, tail: nat)
    requires fs != []
    ensures Spread(fs, tail) == Blanks(fs[0].gap) + (fs[0].word + Spread(fs[1..], tail))
  {
  }

  lemma {:induction false} LeadingBlanks(s: string) returns (n: nat)
    ensures n <= |s| && s[..n] == Blanks(n) && (n < |s| ==> s[n] != ' ') && (s != "" && s[0] == ' ' ==> n > 0)
    ensures s == Blanks(n) + s[n..]
  {
    n := 0;
    if s != "" && s[0] == ' ' {
      var m := LeadingBlanks(s[1..]);
      n := m + 1;
      assert s == " " + s[1..];
    }
  }

  // ---------------------------------------------------------------------------------------------
  // Records
  // ---------------------------------------------------------------------------------------------

  /** A word of exactly `n` bytes in hexadecimal, of either case. */
  predicate IsHexWord(w: string, n: nat) {
    |w| == 2 * n && SpellsBytes(w, n)
  }

  /**
  The record that the words of a line are: IMSI, Ki, OPc, AMF, SQN and perhaps a RES length; words behind
  these are not looked at.
  */
  function RecordOf(fs: seq<Field>): Option<Params> {
    if |fs| < 5 || |fs[0].word| >= 20 || !IsHexWord(fs[1].word, 16) || !IsHexWord(fs[2].word, 16)
       || !IsHexWord(fs[3].word, 2) || !IsHexWord(fs[4].word, 6) then None
    else
      var n := if |fs| == 5 then 0 else Atoi(fs[5].word);
      if n == 0 || 4 <= n <= 16 then
        Some(Params(fs[0].word, SpelledBytes(fs[1].word, 16), SpelledBytes(fs[2].word, 16),
                    SpelledBytes(fs[3].word, 2), SpelledBytes(fs[4].word, 6), n))
      else None
  }

  /** One field of the line: the next token, if it is a word of that many bytes. */
  lemma HexField(fs: seq<Field>, tail: nat, s: string, n: nat)
    requires AreFields(fs) && SkipSpaces(s) == SkipSpaces(Spread(fs, tail))
    ensures HexToken(s, n).Some? <==> fs != [] && IsHexWord(fs[0].word, n)
    ensures HexToken(s, n).Some? ==>
              && HexToken(s, n).value.0 == SpelledBytes(fs[0].word, n) && AreFields(fs[1..])
              && SkipSpaces(HexToken(s, n).value.1) == SkipSpaces(Spread(fs[1..], tail))
  {
    hide NextToken, SpellsBytes, SpelledBytes, ParseHex, Spread, SkipSpaces, AreFields;
    if fs == [] {
      NoFieldsLeft(fs, tail, s);
    } else {
      TailFields(fs);
      TokenIsWord(fs, tail, s);
      ParseHexIs(fs[0].word, n);
    }
  }

  lemma ResField(fs: seq<Field>, tail: nat, s: string)
    requires AreFields(fs) && SkipSpaces(s) == SkipSpaces(Spread(fs, tail))
    ensures ResLen(s) == var n := if fs == [] then 0 else Atoi(fs[0].word);
                         if n == 0 || 4 <= n <= 16 then Some(n) else None
  {
    hide NextToken, Atoi, Spread, SkipSpaces, AreFields;
    if fs == [] {
      NoFieldsLeft(fs, tail, s);
    } else {
      TokenIsWord(fs, tail, s);
    }
  }

  /** What a line is parsed to is decided by its words: the exact lines that are accepted, and their records. */
  lemma LineIsItsWords(fs: seq<Field>, tail: nat)
    requires AreFields(fs)
    ensures ParseLine(Spread(fs, tail)) == RecordOf(fs)
  {
    hide NextToken, HexToken, ResLen, Atoi, Spread, SkipSpaces, AreFields, IsHexWord, SpelledBytes;
    var s := Spread(fs, tail);
    if fs == [] {
      NoFieldsLeft(fs, tail, s);
    } else {
      TailFields(fs);
      TokenIsWord(fs, tail, s);
      var s1 := NextToken(s).value.1;
      HexField(fs[1..], tail, s1, 16);
      if HexToken(s1, 16).Some? {
        var s2 := HexToken(s1, 16).value.1;
        assert fs[1..][1..] == fs[2..];
        HexField(fs[2..], tail, s2, 16);
        if HexToken(s2, 16).Some? {
          var s3 := HexToken(s2, 16).value.1;
          assert fs[2..][1..] == fs[3..];
          HexField(fs[3..], tail, s3, 2);
          if HexToken(s3, 2).Some? {
            var s4 := HexToken(s3, 2).value.1;
            assert fs[3..][1..] == fs[4..];
            HexField(fs[4..], tail, s4, 6);
            if HexToken(s4, 6).Some? {
              assert fs[4..][1..] == fs[5..];
              ResField(fs[5..], tail, HexToken(s4, 6).value.1);
            }
          }
        }
      }
    }
  }

  // ---------------------------------------------------------------------------------------------
  // Numbers
  // ---------------------------------------------------------------------------------------------

  /** A number in decimal. */
  function Decimal(n: nat): (s: string)
    ensures s != "" && forall i :: 0 <= i < |s| ==> '0' <= s[i] <= '9'
  {
    var d := ['0' + (n % 10) as char];
    if n < 10 then d else Decimal(n / 10) + d
  }

  predicate NoDigitFirst(s: string) {
    s == "" || s[0] < '0' || s[0] > '9'
  }

  lemma {:induction false} DigitsOfDecimal(n: nat, rest: string)
    ensures Digits(Decimal(n) + rest, 0) == Digits(rest, n)
  {
    if n < 10 {
      OneDigit('0' + n as char, rest, 0);
    } else {
      var d := '0' + (n % 10) as char;
      assert Decimal(n) + rest == Decimal(n / 10) + ([d] + rest);
      DigitsOfDecimal(n / 10, [d] + rest);
      OneDigit(d, rest, n / 10);
    }
  }

  lemma OneDigit(d: char, rest: string, acc: nat)
    requires '0' <= d <= '9'
    ensures Digits([d] + rest, acc) == Digits(rest, 10 * acc + (d as int - '0' as int))
  {
    assert ([d] + rest)[1..] == rest;
  }

  /** atoi reads a decimal number, signed or not, up to the first other character. */
  lemma AtoiReadsDecimal(n: nat, rest: string)
    requires NoDigitFirst(rest)
    ensures Atoi(Decimal(n) + rest) == n && Atoi("-" + (Decimal(n) + rest)) + n == 0
  {
    var s := Decimal(n) + rest;
    DigitsOfDecimal(n, rest);
    assert s[0] == Decimal(n)[0] && ("-" + s)[1..] == s;
  }

  // ---------------------------------------------------------------------------------------------
  // Where reading stops
  // ---------------------------------------------------------------------------------------------

  predicate IsBadLine(line: string) {
    !Skipped(line) && ParseLine(Stripped(line)).None?
  }

  lemma SameChunk(text: string, k: nat)
    requires text != "" && FgetsLen(text, READ_BUF) <= k <= |text|
    ensures FgetsLen(text[..k], READ_BUF) == FgetsLen(text, READ_BUF)
  {
    var eol := Find(text, '\n');
    FindUnique(text[..k], '\n', if eol < k then eol else k);
  }

  /**
  The records in memory after a failure are those of the text in front of the first bad line, and there is a
  bad line exactly when reading fails.
  */
  lemma {:induction false} StopsAtBadLine(text: string, db: seq<Params>) returns (good: string, bad: string)
    ensures text == good + bad && ReadFrom(good, db) == Some(ReadStop(text, db))
    ensures bad == "" <==> ReadFrom(text, db).Some?
    ensures bad != "" ==> IsBadLine(bad[..FgetsLen(bad, READ_BUF)])
    decreases |text|
  {
    hide ParseLine, Skipped, Stripped, FgetsLen;
    if text == "" {
      good, bad := "", "";
    } else {
      var n := FgetsLen(text, READ_BUF);
      var line := text[..n];
      if IsBadLine(line) {
        good, bad := "", text;
      } else {
        var more;
        more, bad := StopsAtBadLine(text[n..], if Skipped(line) then db else [ParseLine(Stripped(line)).value] + db);
        good := line + more;
        assert text == line + text[n..];
        assert good == text[..|good|] && good[..n] == line && good[n..] == more;
        SameChunk(text, |good|);
      }
    }
  }
}
