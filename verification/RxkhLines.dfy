/**
The grammar of a key holder file (hostapd/config_file.c), stated on its lines: which lines are skipped,
which are entries, and that all others are errors -- and that reading any file does just that, line by line.
*/
module RxkhLines {
  import opened Text
  import opened RxkhSpec

  // ---------------------------------------------------------------------------------------------
  // The grammar
  // ---------------------------------------------------------------------------------------------

  /** Six pairs of hexadecimal digits with colons between them; what follows does not matter. */
  predicate SpellsMac(s: string, n: nat) {
    && 3 * n <= |s| + 1
    && (forall k :: 0 <= k < n ==> IsHexDigit(s[3 * k]) && IsHexDigit(s[3 * k + 1]))
    && (forall k :: 0 <= k < n - 1 ==> s[3 * k + 2] == ':')
  }

  function SpelledMac(s: string, n: nat): (m: seq<byte>)
    requires SpellsMac(s, n)
    ensures |m| == n
  {
    seq(n, k requires 0 <= k < n => SpelledByte(s[3 * k], s[3 * k + 1]))
  }

  /** A key of 32 bytes, or an old one of 16 stretched to 32. */
  function KeyOf(text: string, kdf: Kdf): Option<Key> {
    if SpellsBytes(text, 32) then Some(SpelledBytes(text, 32))
    else if SpellsBytes(text, 16) then kdf(SpelledBytes(text, 16))
    else None
  }

  /** Two words and a rest, separated by single blanks. */
  predicate IsThree(value: string, a: string, b: string, c: string) {
    value == a + " " + b + " " + c && ' ' !in a && ' ' !in b
  }

  /** `MAC identifier key`; the identifier has less than 48 characters. */
  predicate IsR0khText(value: string, e: R0kh, mac: string, key: string, kdf: Kdf) {
    && IsThree(value, mac, e.id, key) && |e.id| < 48
    && SpellsMac(mac, 6) && SpelledMac(mac, 6) == e.addr && KeyOf(key, kdf) == Some(e.key)
  }

  /** `MAC MAC key` */
  predicate IsR1khText(value: string, e: R1kh, mac: string, id: string, key: string, kdf: Kdf) {
    && IsThree(value, mac, id, key)
    && SpellsMac(mac, 6) && SpelledMac(mac, 6) == e.addr && SpellsMac(id, 6) && SpelledMac(id, 6) == e.id
    && KeyOf(key, kdf) == Some(e.key)
  }

  ghost predicate IsR0kh(s: string, e: R0kh, kdf: Kdf) {
    "r0kh=" <= s && exists mac, key :: IsR0khText(s[5..], e, mac, key, kdf)
  }

  ghost predicate IsR1kh(s: string, e: R1kh, kdf: Kdf) {
    "r1kh=" <= s && exists mac, id, key :: IsR1khText(s[5..], e, mac, id, key, kdf)
  }

  /** `name=value` with a name of no concern. */
  predicate IsOther(s: string, name: string, value: string) {
    s == name + "=" + value && '=' !in name && name != "r0kh" && name != "r1kh"
  }

  ghost predicate IsSkipped(s: string) {
    s == "" || s[0] == '#' || exists name, value :: IsOther(s, name, value)
  }

  ghost predicate IsGood(s: string, kdf: Kdf) {
    IsSkipped(s) || (exists e :: IsR0kh(s, e, kdf)) || (exists e :: IsR1kh(s, e, kdf))
  }

  // ---------------------------------------------------------------------------------------------
  // Addresses and keys
  // ---------------------------------------------------------------------------------------------

  lemma MacStep(s: string, n: nat)
    requires n > 1 && |s| >= 3
    ensures SpellsMac(s, n) <==> IsHexDigit(s[0]) && IsHexDigit(s[1]) && s[2] == ':' && SpellsMac(s[3..], n - 1)
    ensures SpellsMac(s, n) ==> SpelledMac(s, n) == [SpelledByte(s[0], s[1])] + SpelledMac(s[3..], n - 1)
  {
    hide IsHexDigit, SpelledByte;
    var rest := s[3..];
    assert forall i :: 0 <= i < |rest| ==> rest[i] == s[i + 3];
    if SpellsMac(s, n) {
      MacTail(s, n);
    }
    if IsHexDigit(s[0]) && IsHexDigit(s[1]) && s[2] == ':' && SpellsMac(rest, n - 1) {
      MacFront(s, n);
    }
  }

  lemma MacTail(s: string, n: nat)
    requires n > 1 && |s| >= 3 && SpellsMac(s, n)
    ensures SpellsMac(s[3..], n - 1)
    ensures forall k :: 0 < k < n ==> SpelledMac(s, n)[k] == SpelledMac(s[3..], n - 1)[k - 1]
  {
    hide IsHexDigit, SpelledByte;
    var rest := s[3..];
    forall k | 0 <= k < n - 1
      ensures IsHexDigit(rest[3 * k]) && IsHexDigit(rest[3 * k + 1]) && (k < n - 2 ==> rest[3 * k + 2] == ':')
    {
      var j := k + 1;
      assert IsHexDigit(s[3 * j]) && IsHexDigit(s[3 * j + 1]);
      assert rest[3 * k] == s[3 * j] && rest[3 * k + 1] == s[3 * j + 1];
      if k < n - 2 {
        assert s[3 * j + 2] == ':' && rest[3 * k + 2] == s[3 * j + 2];
      }
    }
    assert SpellsMac(rest, n - 1);
    forall k | 0 < k < n
      ensures SpelledMac(s, n)[k] == SpelledMac(rest, n - 1)[k - 1]
    {
      assert rest[3 * (k - 1)] == s[3 * k] && rest[3 * (k - 1) + 1] == s[3 * k + 1];
    }
  }

  lemma MacFront(s: string, n: nat)
    requires n > 1 && |s| >= 3 && IsHexDigit(s[0]) && IsHexDigit(s[1]) && s[2] == ':' && SpellsMac(s[3..], n - 1)
    ensures SpellsMac(s, n)
  {
    hide IsHexDigit;
    var rest := s[3..];
    forall k | 0 <= k < n
      ensures IsHexDigit(s[3 * k]) && IsHexDigit(s[3 * k + 1]) && (k < n - 1 ==> s[3 * k + 2] == ':')
    {
      if k > 0 {
        assert s[3 * k] == rest[3 * (k - 1)] && s[3 * k + 1] == rest[3 * (k - 1) + 1];
        assert k < n - 1 ==> s[3 * k + 2] == rest[3 * (k - 1) + 2];
      }
    }
  }

  lemma OneByte(s: string)
    ensures ParseHexByte(s) == if SpellsBytes(s, 1) then Some(SpelledByte(s[0], s[1])) else None
  {
    if |s| >= 2 {
      DigitHasValue(s[0]);
      DigitHasValue(s[1]);
    }
  }

  lemma OneMacByte(s: string)
    ensures SpellsMac(s, 1) <==> SpellsBytes(s, 1)
    ensures SpellsMac(s, 1) ==> SpelledMac(s, 1) == [SpelledByte(s[0], s[1])]
  {
    hide IsHexDigit, SpelledByte;
    if SpellsMac(s, 1) {
      assert IsHexDigit(s[3 * 0]) && IsHexDigit(s[3 * 0 + 1]);
    }
    if SpellsBytes(s, 1) {
      assert IsHexDigit(s[0]) && IsHexDigit(s[1]);
    }
  }

  /** hwaddr_parse accepts just the texts that begin with an address, and reads it. */
  lemma {:induction false} ParseMacIs(s: string, n: nat)
    requires n > 0
    ensures ParseMac(s, n) == if SpellsMac(s, n) then Some(SpelledMac(s, n)) else None
  {
    hide SpellsMac, SpelledMac, SpellsBytes, SpelledByte, ParseHexByte, IsHexDigit;
    OneByte(s);
    if n == 1 {
      OneMacByte(s);
    } else if |s| < 3 {
      MacTooShort(s, n);
    } else {
      MacStep(s, n);
      PairIsByte(s);
      if s[2] == ':' {
        ParseMacIs(s[3..], n - 1);
      }
    }
  }

  lemma MacTooShort(s: string, n: nat)
    requires n > 1 && |s| < 3
    ensures !SpellsMac(s, n)
  {
  }

  lemma PairIsByte(s: string)
    requires |s| >= 2
    ensures SpellsBytes(s, 1) <==> IsHexDigit(s[0]) && IsHexDigit(s[1])
  {
    hide IsHexDigit;
    if SpellsBytes(s, 1) {
      assert IsHexDigit(s[0]) && IsHexDigit(s[1]);
    }
  }

  lemma KeyIsDerived(text: string, kdf: Kdf)
    ensures DeriveKey(text, kdf) == KeyOf(text, kdf)
  {
    hide ParseHex, SpellsBytes, SpelledBytes;
    ParseHexIs(text, 32);
    ParseHexIs(text, 16);
  }

  // ---------------------------------------------------------------------------------------------
  // Values
  // ---------------------------------------------------------------------------------------------

  /** The three parts are what lies around the first two blanks. */
  predicate CutsAre(value: string, a: string, b: string, c: string) {
    var sp := Find(value, ' ');
    && sp == |a| && sp < |value| && a == value[..sp]
    && var rest := value[sp + 1..];
       Find(rest, ' ') == |b| && |b| < |rest| && b == rest[..|b|] && c == rest[|b| + 1..]
  }

  predicate HasThree(value: string) {
    Find(value, ' ') < |value| && var rest := value[Find(value, ' ') + 1..]; Find(rest, ' ') < |rest|
  }

  lemma CutsOfThree(value: string, a: string, b: string, c: string)
    requires IsThree(value, a, b, c)
    ensures HasThree(value) && CutsAre(value, a, b, c)
  {
    hide Find;
    SplitWords(a, b, c);
    assert value[|a| + 1..] == b + " " + c;
  }

  lemma ThreeOfCuts(value: string) returns (a: string, b: string, c: string)
    requires HasThree(value)
    ensures IsThree(value, a, b, c)
  {
    hide Find;
    var sp := Find(value, ' ');
    var rest := value[sp + 1..];
    var sp2 := Find(rest, ' ');
    a, b, c := value[..sp], rest[..sp2], rest[sp2 + 1..];
    assert rest == b + " " + c && value == a + " " + rest;
    assert a + " " + (b + " " + c) == a + " " + b + " " + c;
  }

  /** What is made of the three parts. */
  lemma R0khOfThree(value: string, a: string, b: string, c: string, kdf: Kdf)
    requires IsThree(value, a, b, c)
    ensures ParseR0kh(value, kdf)
            == if SpellsMac(a, 6) && |b| < 48 && KeyOf(c, kdf).Some?
               then Some(R0kh(SpelledMac(a, 6), b, KeyOf(c, kdf).value)) else None
  {
    hide Find, IsThree, DeriveKey, KeyOf, ParseMac, SpellsMac, SpelledMac;
    CutsOfThree(value, a, b, c);
    ParseMacIs(a, 6);
    KeyIsDerived(c, kdf);
  }

  lemma R1khOfThree(value: string, a: string, b: string, c: string, kdf: Kdf)
    requires IsThree(value, a, b, c)
    ensures ParseR1kh(value, kdf)
            == if SpellsMac(a, 6) && SpellsMac(b, 6) && KeyOf(c, kdf).Some?
               then Some(R1kh(SpelledMac(a, 6), SpelledMac(b, 6), KeyOf(c, kdf).value)) else None
  {
    hide Find, IsThree, DeriveKey, KeyOf, ParseMac, SpellsMac, SpelledMac;
    CutsOfThree(value, a, b, c);
    ParseMacIs(a, 6);
    ParseMacIs(b, 6);
    KeyIsDerived(c, kdf);
  }

  lemma NeedsThree(value: string, kdf: Kdf)
    ensures ParseR0kh(value, kdf).Some? || ParseR1kh(value, kdf).Some? ==> HasThree(value)
  {
    hide Find, DeriveKey, ParseMac;
  }

  /** add_r0kh accepts just the values of this form, and makes of them just this entry. */
  lemma R0khIff(value: string, e: R0kh, kdf: Kdf)
    ensures ParseR0kh(value, kdf) == Some(e) <==> exists mac, key :: IsR0khText(value, e, mac, key, kdf)
  {
    hide ParseR0kh, HasThree, IsThree, SpellsMac, SpelledMac, KeyOf;
    NeedsThree(value, kdf);
    if ParseR0kh(value, kdf) == Some(e) {
      var a, b, c := ThreeOfCuts(value);
      R0khOfThree(value, a, b, c, kdf);
      assert IsR0khText(value, e, a, c, kdf);
    }
    if mac, key :| IsR0khText(value, e, mac, key, kdf) {
      R0khOfThree(value, mac, e.id, key, kdf);
    }
  }

  lemma R1khIff(value: string, e: R1kh, kdf: Kdf)
    ensures ParseR1kh(value, kdf) == Some(e) <==> exists mac, id, key :: IsR1khText(value, e, mac, id, key, kdf)
  {
    hide ParseR1kh, HasThree, IsThree, SpellsMac, SpelledMac, KeyOf;
    NeedsThree(value, kdf);
    if ParseR1kh(value, kdf) == Some(e) {
      var a, b, c := ThreeOfCuts(value);
      R1khOfThree(value, a, b, c, kdf);
      assert IsR1khText(value, e, a, b, c, kdf);
    }
    if mac, id, key :| IsR1khText(value, e, mac, id, key, kdf) {
      R1khOfThree(value, mac, id, key, kdf);
    }
  }

  // ---------------------------------------------------------------------------------------------
  // Lines
  // ---------------------------------------------------------------------------------------------

  /** A line without newline and NUL is its own content. */
  predicate IsContent(s: string) {
    '\n' !in s && NUL !in s
  }

  lemma ContentOfContent(s: string)
    requires IsContent(s)
    ensures Content(s) == s
  {
    FindUnique(s, '\n', |s|);
    FindUnique(s, NUL, |s|);
  }

  lemma OtherName(s: string, name: string, value: string)
    requires IsOther(s, name, value)
    ensures Find(s, '=') == |name| && |name| < |s| && s[..|name|] == name
  {
    FindUnique(s, '=', |name|);
  }

  lemma OtherCut(s: string, eq: nat)
    requires eq == Find(s, '=') && eq < |s| && s[..eq] != "r0kh" && s[..eq] != "r1kh"
    ensures IsOther(s, s[..eq], s[eq + 1..])
  {
    hide Find;
    CutAround(s, eq);
    assert '=' !in s[..eq];
  }

  lemma CutAround(s: string, i: nat)
    requires i < |s| && s[i] == '='
    ensures s == s[..i] + "=" + s[i + 1..]
  {
  }

  lemma OtherIff(s: string)
    ensures var eq := Find(s, '=');
            (exists name, value :: IsOther(s, name, value)) <==> eq < |s| && s[..eq] != "r0kh" && s[..eq] != "r1kh"
  {
    hide Find, IsOther;
    var eq := Find(s, '=');
    if name, value :| IsOther(s, name, value) {
      OtherName(s, name, value);
      OtherAllowed(s, name, value);
    }
    if eq < |s| && s[..eq] != "r0kh" && s[..eq] != "r1kh" {
      OtherCut(s, eq);
    }
  }

  lemma OtherAllowed(s: string, name: string, value: string)
    requires IsOther(s, name, value)
    ensures name != "r0kh" && name != "r1kh"
  {
  }

  lemma NameIs(s: string, name: string)
    requires |name| == 4 && '=' !in name
    ensures name + "=" <= s <==> Find(s, '=') == 4 < |s| && s[..4] == name
  {
    var eq := Find(s, '=');
    if name + "=" <= s {
      FindUnique(s, '=', 4);
    }
    if eq == 4 < |s| && s[..4] == name {
      assert s[..5] == name + "=";
    }
  }

  /** The two prefixes decide what a line that is not skipped is parsed as. */
  lemma ByPrefix(s: string, st: Lists, kdf: Kdf)
    requires IsContent(s)
    ensures "r0kh=" <= s ==> !IsSkipped(s) && ReadLine(s, st, kdf) == Added0(st, ParseR0kh(s[5..], kdf))
    ensures "r1kh=" <= s ==> !IsSkipped(s) && ReadLine(s, st, kdf) == Added1(st, ParseR1kh(s[5..], kdf))
    ensures !("r0kh=" <= s) && !("r1kh=" <= s) ==>
              ReadLine(s, st, kdf) == if IsSkipped(s) then st else st.(errors := st.errors + 1)
  {
    hide ParseR0kh, ParseR1kh, Find, Content, Added0, Added1;
    ContentOfContent(s);
    OtherIff(s);
    NameIs(s, "r0kh");
    NameIs(s, "r1kh");
    assert "r0kh=" <= s || "r1kh=" <= s ==> s[0] == 'r';
  }

  /** What one line does, by its kind: skipped lines change nothing ... */
  lemma SkippedIsSkipped(s: string, st: Lists, kdf: Kdf)
    requires IsContent(s) && IsSkipped(s)
    ensures ReadLine(s, st, kdf) == st
  {
    hide IsSkipped, ReadLine;
    ByPrefix(s, st, kdf);
  }

  /** ... entries are put in front of their list ... */
  lemma EntryIsAdded0(s: string, e: R0kh, st: Lists, kdf: Kdf)
    requires IsContent(s) && IsR0kh(s, e, kdf)
    ensures ReadLine(s, st, kdf) == st.(r0 := [e] + st.r0)
  {
    hide ParseR0kh, IsR0khText, IsSkipped, ReadLine;
    ByPrefix(s, st, kdf);
    R0khIff(s[5..], e, kdf);
  }

  lemma EntryIsAdded1(s: string, e: R1kh, st: Lists, kdf: Kdf)
    requires IsContent(s) && IsR1kh(s, e, kdf)
    ensures ReadLine(s, st, kdf) == st.(r1 := [e] + st.r1)
  {
    hide ParseR1kh, IsR1khText, IsSkipped, ReadLine;
    ByPrefix(s, st, kdf);
    R1khIff(s[5..], e, kdf);
  }

  /** ... and every other line is one error. */
  lemma OthersAreErrors(s: string, st: Lists, kdf: Kdf)
    requires IsContent(s) && !IsGood(s, kdf)
    ensures ReadLine(s, st, kdf) == st.(errors := st.errors + 1)
  {
    hide ParseR0kh, ParseR1kh, IsR0khText, IsR1khText, IsSkipped, ReadLine;
    ByPrefix(s, st, kdf);
    if "r0kh=" <= s {
      var r := ParseR0kh(s[5..], kdf);
      if r.Some? {
        R0khIff(s[5..], r.value, kdf);
      }
      assert r.Some? ==> IsR0kh(s, r.value, kdf);
    }
    if "r1kh=" <= s {
      var r := ParseR1kh(s[5..], kdf);
      if r.Some? {
        R1khIff(s[5..], r.value, kdf);
      }
      assert r.Some? ==> IsR1kh(s, r.value, kdf);
    }
  }

  /** A line counts as an error exactly when it is of no good kind; it never counts twice. */
  lemma ErrorIffBad(s: string, st: Lists, kdf: Kdf)
    requires IsContent(s)
    ensures ReadLine(s, st, kdf).errors == st.errors + if IsGood(s, kdf) then 0 else 1
  {
    hide ReadLine, IsSkipped, IsR0kh, IsR1kh;
    if IsSkipped(s) {
      SkippedIsSkipped(s, st, kdf);
    } else if e :| IsR0kh(s, e, kdf) {
      EntryIsAdded0(s, e, st, kdf);
    } else if e :| IsR1kh(s, e, kdf) {
      EntryIsAdded1(s, e, st, kdf);
    } else {
      OthersAreErrors(s, st, kdf);
    }
  }

  // ---------------------------------------------------------------------------------------------
  // Files
  // ---------------------------------------------------------------------------------------------

  /** A line that fits the buffer, perhaps without room for its newline. */
  predicate IsPiece(l: string) {
    |l| < LINE_BUF && '\n' !in l
  }

  predicate ArePieces(lines: seq<string>) {
    forall i :: 0 <= i < |lines| ==> IsPiece(lines[i])
  }

  function FileOf(lines: seq<string>): string {
    if lines == [] then "" else lines[0] + "\n" + FileOf(lines[1..])
  }

  lemma ContentOfPiece(l: string)
    requires IsPiece(l)
    ensures IsContent(CStr(l)) && Content(l) == CStr(l) && Content(l + "\n") == CStr(l) && Content(CStr(l)) == CStr(l)
  {
    var n := Find(l, NUL);
    FindUnique(l, '\n', |l|);
    FindUnique(l + "\n", '\n', |l|);
    FindUnique(l + "\n", NUL, if n < |l| then n else |l| + 1);
    assert (l + "\n")[..n] == l[..n];
    ContentOfContent(CStr(l));
  }

  /** A newline alone is an empty line. */
  lemma NewlineIsSkipped(rest: string, st: Lists, kdf: Kdf)
    ensures ReadFrom("\n" + rest, st, kdf) == ReadFrom(rest, st, kdf)
  {
    hide ReadFrom;
    assert IsLine("\n");
    ReadOneLine("\n", rest, st, kdf);
    FindUnique("\n", '\n', 0);
  }

  /** A full buffer without newline is a line of its own. */
  lemma ReadFullPiece(l: string, rest: string, st: Lists, kdf: Kdf)
    requires IsPiece(l) && |l| == LINE_BUF - 1
    ensures ReadFrom(l + rest, st, kdf) == ReadFrom(rest, ReadLine(l, st, kdf), kdf)
  {
    var text := l + rest;
    assert forall j :: 0 <= j < |l| ==> text[j] == l[j];
    assert Find(text, '\n') >= |l|;
    assert text[..|l|] == l && text[|l|..] == rest;
  }

  /** Any line of up to 255 characters is read as what it holds before a NUL, whatever follows. */
  lemma LineThen(l: string, rest: string, st: Lists, kdf: Kdf)
    requires IsPiece(l)
    ensures ReadFrom(l + "\n" + rest, st, kdf) == ReadFrom(rest, ReadLine(CStr(l), st, kdf), kdf)
  {
    hide ReadFrom, CStr;
    ContentOfPiece(l);
    if |l| < LINE_BUF - 1 {
      assert IsLine(l + "\n");
      ReadOneLine(l + "\n", rest, st, kdf);
    } else {
      assert l + "\n" + rest == l + ("\n" + rest);
      ReadFullPiece(l, "\n" + rest, st, kdf);
      NewlineIsSkipped(rest, ReadLine(l, st, kdf), kdf);
    }
  }

  /** A longer line is read as if it were broken after 255 characters. */
  lemma LongLineIsBroken(l: string, rest: string, st: Lists, kdf: Kdf)
    requires IsPiece(l) && |l| == 255
    ensures ReadFrom(l + rest, st, kdf) == ReadFrom(l + "\n" + rest, st, kdf)
  {
    hide ReadFrom;
    ReadFullPiece(l, rest, st, kdf);
    assert l + "\n" + rest == l + ("\n" + rest);
    ReadFullPiece(l, "\n" + rest, st, kdf);
    NewlineIsSkipped(rest, ReadLine(l, st, kdf), kdf);
  }

  /** A last line needs no newline. */
  lemma LastLineIsLine(l: string, st: Lists, kdf: Kdf)
    requires IsPiece(l)
    ensures ReadFrom(l, st, kdf) == ReadFrom(l + "\n", st, kdf)
  {
    ContentOfPiece(l);
    assert l + "\n" + "" == l + "\n";
    LineThen(l, "", st, kdf);
    FindUnique(l, '\n', |l|);
    assert l[..|l|] == l;
  }

  /** What a chunk of a file does, by the kind of what it holds. */
  lemma ChunkByKind(chunk: string, st: Lists, kdf: Kdf)
    ensures var s, r := Content(chunk), ReadLine(chunk, st, kdf);
            && (IsSkipped(s) ==> r == st)
            && (forall e :: IsR0kh(s, e, kdf) ==> r == st.(r0 := [e] + st.r0))
            && (forall e :: IsR1kh(s, e, kdf) ==> r == st.(r1 := [e] + st.r1))
            && (!IsGood(s, kdf) ==> r == st.(errors := st.errors + 1))
  {
    hide IsSkipped, IsR0kh, IsR1kh, IsGood, Find;
    var s := Content(chunk);
    ContentOfContent(s);
    assert ReadLine(chunk, st, kdf) == ReadLine(s, st, kdf);
    hide ReadLine;
    if IsSkipped(s) {
      SkippedIsSkipped(s, st, kdf);
    }
    forall e | IsR0kh(s, e, kdf)
      ensures ReadLine(s, st, kdf) == st.(r0 := [e] + st.r0)
    {
      EntryIsAdded0(s, e, st, kdf);
    }
    forall e | IsR1kh(s, e, kdf)
      ensures ReadLine(s, st, kdf) == st.(r1 := [e] + st.r1)
    {
      EntryIsAdded1(s, e, st, kdf);
    }
    if !IsGood(s, kdf) {
      OthersAreErrors(s, st, kdf);
    }
  }

  /** How many lines are of no good kind. */
  ghost function BadLines(lines: seq<string>, kdf: Kdf): nat {
    if lines == [] then 0 else (if IsGood(CStr(lines[0]), kdf) then 0 else 1) + BadLines(lines[1..], kdf)
  }

  /** Reading a file counts its bad lines. */
  lemma {:induction false} ErrorsAreBadLines(lines: seq<string>, st: Lists, kdf: Kdf)
    requires ArePieces(lines)
    ensures ReadFrom(FileOf(lines), st, kdf).errors == st.errors + BadLines(lines, kdf)
  {
    if lines != [] {
      hide ReadFrom, ReadLine, IsGood, CStr;
      ContentOfPiece(lines[0]);
      ErrorIffBad(CStr(lines[0]), st, kdf);
      LineThen(lines[0], FileOf(lines[1..]), st, kdf);
      ErrorsAreBadLines(lines[1..], ReadLine(CStr(lines[0]), st, kdf), kdf);
    }
  }

  lemma {:induction false} NoBadLineIff(lines: seq<string>, kdf: Kdf)
    ensures BadLines(lines, kdf) == 0 <==> forall i :: 0 <= i < |lines| ==> IsGood(CStr(lines[i]), kdf)
  {
    if lines != [] {
      hide IsGood, CStr;
      NoBadLineIff(lines[1..], kdf);
      assert forall i :: 1 <= i < |lines| ==> lines[i] == lines[1..][i - 1];
    }
  }

  /** A file is read without an error exactly when all its lines are of a good kind. */
  lemma NoErrorIff(lines: seq<string>, st: Lists, kdf: Kdf)
    requires ArePieces(lines)
    ensures ReadFrom(FileOf(lines), st, kdf).errors == st.errors <==>
              forall i :: 0 <= i < |lines| ==> IsGood(CStr(lines[i]), kdf)
  {
    ErrorsAreBadLines(lines, st, kdf);
    NoBadLineIff(lines, kdf);
  }

  /** The lines that are not skipped. */
  ghost function Kept(lines: seq<string>): (r: seq<string>)
    ensures ArePieces(lines) ==> ArePieces(r)
  {
    if lines == [] then [] else (if IsSkipped(CStr(lines[0])) then [] else [lines[0]]) + Kept(lines[1..])
  }

  /** Comments, empty lines and lines of other names do not matter at all. */
  lemma {:induction false} SkippedDoNotMatter(lines: seq<string>, st: Lists, kdf: Kdf)
    requires ArePieces(lines)
    ensures ReadFrom(FileOf(lines), st, kdf) == ReadFrom(FileOf(Kept(lines)), st, kdf)
  {
    if lines != [] {
      hide ReadFrom, ReadLine, IsSkipped, CStr;
      var l, more := lines[0], lines[1..];
      ContentOfPiece(l);
      LineThen(l, FileOf(more), st, kdf);
      if IsSkipped(CStr(l)) {
        SkippedIsSkipped(CStr(l), st, kdf);
        SkippedDoNotMatter(more, st, kdf);
        assert [] + Kept(more) == Kept(more);
      } else {
        var kept := Kept(lines);
        assert kept == [l] + Kept(more) && kept[1..] == Kept(more);
        LineThen(l, FileOf(Kept(more)), st, kdf);
        SkippedDoNotMatter(more, ReadLine(CStr(l), st, kdf), kdf);
      }
    }
  }
}
