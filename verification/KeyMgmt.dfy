/**
Key management suites as text: the parser of the `wpa_key_mgmt` option (hostapd/config_file.c) and the
printer that GET_CONFIG and DUP_NETWORK use (hostapd/ctrl_iface.c), with every suite compiled in.
*/
module KeyMgmt {
  import opened Text

  const DUP_VALUE_MAX_LEN: nat := 256

  datatype Suite =
    | WpaPsk | WpaEap | FtPsk | FtEap | FtEapSha384 | WpaEapSha384 | WpaPskSha256 | WpaEapSha256
    | Sae | SaeExtKey | FtSae | FtSaeExtKey | SuiteB | SuiteB192
    | FilsSha256 | FilsSha384 | FtFilsSha256 | FtFilsSha384 | Owe | Dpp | Osen | Pasn

  function Name(s: Suite): string {
    match s
    case WpaPsk => "WPA-PSK"
    case WpaEap => "WPA-EAP"
    case FtPsk => "FT-PSK"
    case FtEap => "FT-EAP"
    case FtEapSha384 => "FT-EAP-SHA384"
    case WpaEapSha384 => "WPA-EAP-SHA384"
    case WpaPskSha256 => "WPA-PSK-SHA256"
    case WpaEapSha256 => "WPA-EAP-SHA256"
    case Sae => "SAE"
    case SaeExtKey => "SAE-EXT-KEY"
    case FtSae => "FT-SAE"
    case FtSaeExtKey => "FT-SAE-EXT-KEY"
    case SuiteB => "WPA-EAP-SUITE-B"
    case SuiteB192 => "WPA-EAP-SUITE-B-192"
    case FilsSha256 => "FILS-SHA256"
    case FilsSha384 => "FILS-SHA384"
    case FtFilsSha256 => "FT-FILS-SHA256"
    case FtFilsSha384 => "FT-FILS-SHA384"
    case Owe => "OWE"
    case Dpp => "DPP"
    case Osen => "OSEN"
    case Pasn => "PASN"
  }

  /** The WPA_KEY_MGMT bits of src/common/defs.h. */
  function Bit(s: Suite): bv32 {
    match s
    case WpaEap => 0x1
    case WpaPsk => 0x2
    case FtEap => 0x20
    case FtPsk => 0x40
    case WpaEapSha256 => 0x80
    case WpaPskSha256 => 0x100
    case Sae => 0x400
    case FtSae => 0x800
    case Osen => 0x8000
    case SuiteB => 0x1_0000
    case SuiteB192 => 0x2_0000
    case FilsSha256 => 0x4_0000
    case FilsSha384 => 0x8_0000
    case FtFilsSha256 => 0x10_0000
    case FtFilsSha384 => 0x20_0000
    case Owe => 0x40_0000
    case Dpp => 0x80_0000
    case FtEapSha384 => 0x100_0000
    case Pasn => 0x200_0000
    case SaeExtKey => 0x400_0000
    case FtSaeExtKey => 0x800_0000
    case WpaEapSha384 => 0x1000_0000
  }

  // ---------------------------------------------------------------------------------------------
  // Words
  // ---------------------------------------------------------------------------------------------

  predicate IsBlank(c: char) {
    c == ' ' || c == '\t'
  }

  function SkipBlanks(s: string): (r: string)
    ensures |r| <= |s| && (r != "" ==> !IsBlank(r[0]))
  {
    if s != "" && IsBlank(s[0]) then SkipBlanks(s[1..]) else s
  }

  function WordLen(s: string): (n: nat)
    ensures n <= |s| && (forall j :: 0 <= j < n ==> !IsBlank(s[j])) && (n < |s| ==> IsBlank(s[n]))
  {
    if s == "" || IsBlank(s[0]) then 0 else 1 + WordLen(s[1..])
  }

  function Words(s: string): seq<string>
    decreases |s|
  {
    var t := SkipBlanks(s);
    if t == "" then [] else [t[..WordLen(t)]] + Words(t[WordLen(t)..])
  }

  lemma WordLenIs(s: string, n: nat)
    requires n <= |s| && (forall j :: 0 <= j < n ==> !IsBlank(s[j])) && (n < |s| ==> IsBlank(s[n]))
    ensures WordLen(s) == n
  {
  }

  lemma {:induction false} SkipBlanksAppend(a: string, b: string)
    ensures SkipBlanks(a + b) == if SkipBlanks(a) == "" then SkipBlanks(b) else SkipBlanks(a) + b
  {
    if a == "" {
      assert a + b == b;
    } else {
      assert (a + b)[1..] == a[1..] + b;
      SkipBlanksAppend(a[1..], b);
    }
  }

  lemma SkipOne(blank: char, b: string)
    requires IsBlank(blank)
    ensures SkipBlanks([blank] + b) == SkipBlanks(b)
  {
    assert ([blank] + b)[1..] == b;
  }

  lemma WordsFirst(s: string)
    ensures var t := SkipBlanks(s);
            Words(s) == if t == "" then [] else [t[..WordLen(t)]] + Words(t[WordLen(t)..])
  {
  }

  lemma Regroup<T>(a: seq<T>, b: seq<T>, c: seq<T>)
    ensures a + b + c == a + (b + c)
  {
  }

  lemma CutInside(t: string, n: nat, rest: string)
    requires n <= |t|
    ensures (t + rest)[..n] == t[..n] && (t + rest)[n..] == t[n..] + rest
  {
  }

  /** A blank separates words, wherever it stands. */
  lemma {:induction false} WordsAppend(a: string, blank: char, b: string)
    requires IsBlank(blank)
    ensures Words(a + [blank] + b) == Words(a) + Words(b)
    decreases |a|
  {
    hide SkipBlanks, WordLen, Words, IsBlank;
    var t, rest := SkipBlanks(a), [blank] + b;
    Regroup(a, [blank], b);
    SkipBlanksAppend(a, rest);
    SkipOne(blank, b);
    WordsFirst(a);
    WordsFirst(b);
    WordsFirst(a + rest);
    if t != "" {
      var n := WordLen(t);
      WordLenIs(t + rest, n);
      CutInside(t, n, rest);
      Regroup(t[n..], [blank], b);
      WordsAppend(t[n..], blank, b);
      Regroup([t[..n]], Words(t[n..]), Words(b));
    }
  }

  // ---------------------------------------------------------------------------------------------
  // Parsing
  // ---------------------------------------------------------------------------------------------

  /** The chain of comparisons in the parser. */
  function FindSuite(w: string): (r: Option<Suite>)
    ensures r.Some? ==> Name(r.value) == w
  {
    if w == "WPA-PSK" then Some(WpaPsk)
    else if w == "WPA-EAP" then Some(WpaEap)
    else if w == "FT-PSK" then Some(FtPsk)
    else if w == "FT-EAP" then Some(FtEap)
    else if w == "FT-EAP-SHA384" then Some(FtEapSha384)
    else if w == "WPA-EAP-SHA384" then Some(WpaEapSha384)
    else if w == "WPA-PSK-SHA256" then Some(WpaPskSha256)
    else if w == "WPA-EAP-SHA256" then Some(WpaEapSha256)
    else if w == "SAE" then Some(Sae)
    else if w == "SAE-EXT-KEY" then Some(SaeExtKey)
    else if w == "FT-SAE" then Some(FtSae)
    else if w == "FT-SAE-EXT-KEY" then Some(FtSaeExtKey)
    else if w == "WPA-EAP-SUITE-B" then Some(SuiteB)
    else if w == "WPA-EAP-SUITE-B-192" then Some(SuiteB192)
    else if w == "FILS-SHA256" then Some(FilsSha256)
    else if w == "FILS-SHA384" then Some(FilsSha384)
    else if w == "FT-FILS-SHA256" then Some(FtFilsSha256)
    else if w == "FT-FILS-SHA384" then Some(FtFilsSha384)
    else if w == "OWE" then Some(Owe)
    else if w == "DPP" then Some(Dpp)
    else if w == "OSEN" then Some(Osen)
    else if w == "PASN" then Some(Pasn)
    else None
  }

  function Or(a: bv32, b: bv32): bv32 {
    a | b
  }

  /** The bits of all words; None when one of them is no suite. */
  function MaskOf(ws: seq<string>): Option<bv32> {
    if ws == [] then Some(0)
    else
      var s, rest := FindSuite(ws[0]), MaskOf(ws[1..]);
      if s.None? || rest.None? then None else Some(Or(Bit(s.value), rest.value))
  }

  /** hostapd_config_parse_key_mgmt; None is its -1. */
  function Parse(value: string): Option<bv32> {
    var m := MaskOf(Words(value));
    if m == Some(0) then None else m
  }

  lemma Or3(a: bv32, b: bv32, c: bv32)
    ensures Or(a, Or(b, c)) == Or(Or(a, b), c)
  {
  }

  lemma OrComm(a: bv32, b: bv32)
    ensures Or(a, b) == Or(b, a) && Or(a, a) == a && Or(a, 0) == a && Or(0, a) == a
  {
  }

  lemma OrNonZero(a: bv32, b: bv32)
    ensures Or(a, b) == 0 <==> a == 0 && b == 0
  {
  }

  function Both(a: Option<bv32>, b: Option<bv32>): Option<bv32> {
    if a.None? || b.None? then None else Some(Or(a.value, b.value))
  }

  lemma {:induction false} MaskAppend(a: seq<string>, b: seq<string>)
    ensures MaskOf(a + b) == Both(MaskOf(a), MaskOf(b))
  {
    hide Or, FindSuite, Bit;
    if a == [] {
      assert a + b == b;
      if MaskOf(b).Some? {
        OrComm(MaskOf(b).value, 0);
      }
    } else {
      assert (a + b)[1..] == a[1..] + b;
      MaskAppend(a[1..], b);
      if FindSuite(a[0]).Some? && MaskOf(a[1..]).Some? && MaskOf(b).Some? {
        Or3(Bit(FindSuite(a[0]).value), MaskOf(a[1..]).value, MaskOf(b).value);
      }
    }
  }

  /** Two accepted values joined by a blank are accepted and give the union of their suites. */
  lemma ParseAppend(a: string, blank: char, b: string)
    requires (blank == ' ' || blank == '\t') && Parse(a).Some? && Parse(b).Some?
    ensures Parse(a + [blank] + b) == Some(Parse(a).value | Parse(b).value)
  {
    hide Words, MaskOf;
    WordsAppend(a, blank, b);
    MaskAppend(Words(a), Words(b));
    OrNonZero(Parse(a).value, Parse(b).value);
  }

  predicate Known(ws: seq<string>) {
    forall i :: 0 <= i < |ws| ==> FindSuite(ws[i]).Some?
  }

  lemma BitNonZero(s: Suite)
    ensures Bit(s) != 0
  {
  }

  lemma {:induction false} MaskSomeIff(ws: seq<string>)
    ensures MaskOf(ws).Some? <==> Known(ws)
    ensures MaskOf(ws) == Some(0) <==> ws == []
  {
    hide Or, FindSuite, Bit;
    if ws != [] {
      MaskSomeIff(ws[1..]);
      if Known(ws) {
        OrNonZero(Bit(FindSuite(ws[0]).value), MaskOf(ws[1..]).value);
        BitNonZero(FindSuite(ws[0]).value);
      }
    }
  }

  /** A value is accepted exactly when it has a word and every word is a suite. */
  lemma AcceptedIffKnown(value: string)
    ensures Parse(value).Some? <==> Words(value) != [] && Known(Words(value))
  {
    MaskSomeIff(Words(value));
  }

  predicate Absorbs(m: bv32, a: bv32) {
    Or(m, a) == m
  }

  lemma AbsorbBoth(m: bv32, a: bv32, b: bv32)
    requires Absorbs(m, a) && Absorbs(m, b)
    ensures Absorbs(m, Or(a, b))
  {
  }

  lemma AbsorbParts(a: bv32, b: bv32, x: bv32)
    ensures Absorbs(Or(a, b), a) && (Absorbs(b, x) ==> Absorbs(Or(a, b), x))
  {
  }

  lemma AbsorbEachOther(a: bv32, b: bv32)
    requires Absorbs(a, b) && Absorbs(b, a)
    ensures a == b
  {
  }

  lemma {:induction false} WordAbsorbed(ws: seq<string>, i: nat)
    requires i < |ws| && MaskOf(ws).Some? && FindSuite(ws[i]).Some?
    ensures Absorbs(MaskOf(ws).value, Bit(FindSuite(ws[i]).value))
  {
    hide Or, FindSuite, Bit, Absorbs;
    AbsorbParts(Bit(FindSuite(ws[0]).value), MaskOf(ws[1..]).value, Bit(FindSuite(ws[i]).value));
    if i > 0 {
      WordAbsorbed(ws[1..], i - 1);
    }
  }

  lemma NothingAbsorbed(m: bv32)
    ensures Absorbs(m, 0)
  {
  }

  lemma {:induction false} SubsetAbsorbed(m: seq<string>, ws: seq<string>)
    requires MaskOf(m).Some? && MaskOf(ws).Some? && forall w :: w in ws ==> w in m
    ensures Absorbs(MaskOf(m).value, MaskOf(ws).value)
  {
    hide Or, FindSuite, Bit, Absorbs;
    if ws == [] {
      NothingAbsorbed(MaskOf(m).value);
    } else {
      assert ws[0] in m;
      var i :| 0 <= i < |m| && m[i] == ws[0];
      WordAbsorbed(m, i);
      SubsetAbsorbed(m, ws[1..]);
      AbsorbBoth(MaskOf(m).value, Bit(FindSuite(ws[0]).value), MaskOf(ws[1..]).value);
    }
  }

  /** Only which words occur matters: neither their order, nor repetitions, nor the blanks between them. */
  lemma OnlyWordsMatter(a: string, b: string)
    requires forall w :: w in Words(a) <==> w in Words(b)
    ensures Parse(a) == Parse(b)
  {
    hide FindSuite, Bit, Words, MaskOf, Absorbs;
    var x, y := Words(a), Words(b);
    MaskSomeIff(x);
    MaskSomeIff(y);
    if Known(y) {
      SameKnown(y, x);
    }
    if Known(x) {
      SameKnown(x, y);
      SubsetAbsorbed(x, y);
      SubsetAbsorbed(y, x);
      AbsorbEachOther(MaskOf(x).value, MaskOf(y).value);
    }
  }

  lemma SameKnown(x: seq<string>, y: seq<string>)
    requires (forall w :: w in y ==> w in x) && Known(x)
    ensures Known(y)
  {
    forall i | 0 <= i < |y|
      ensures FindSuite(y[i]).Some?
    {
      assert y[i] in x;
    }
  }

  // ---------------------------------------------------------------------------------------------
  // Printing
  // ---------------------------------------------------------------------------------------------

  /** The suites in the order in which they are printed. */
  const ORDER: seq<Suite> :=
    [WpaPsk, WpaEap, FtPsk, FtEap, FtEapSha384, FtSae, FtSaeExtKey, FtFilsSha256, FtFilsSha384, WpaPskSha256,
     WpaEapSha256, Sae, SaeExtKey, SuiteB, SuiteB192, FilsSha256, FilsSha384, Owe, Dpp, WpaEapSha384]

  /** The mask of a list of suites. */
  function BitsFrom(ss: seq<Suite>): bv32 {
    if ss == [] then 0 else Or(Bit(ss[0]), BitsFrom(ss[1..]))
  }

  function And(a: bv32, b: bv32): bv32 {
    a & b
  }

  function Chosen(mask: bv32, ss: seq<Suite>): seq<Suite> {
    if ss == [] then []
    else (if And(mask, Bit(ss[0])) != 0 then [ss[0]] else []) + Chosen(mask, ss[1..])
  }

  /** Every name with the blank that follows it. */
  function Spaced(ss: seq<Suite>): string {
    if ss == [] then "" else Name(ss[0]) + " " + Spaced(ss[1..])
  }

  function WithoutLast(s: string): (r: string)
    ensures s != "" ==> |r| == |s| - 1
  {
    if s == "" then s else s[..|s| - 1]
  }

  /** The whole text for a mask. */
  function TextOf(mask: bv32): string {
    WithoutLast(Spaced(Chosen(mask, ORDER)))
  }

  /** The names that fit into `room` characters and a NUL, up to the first that does not. */
  function Fitting(ss: seq<Suite>, room: nat): (s: string)
    ensures |s| <= room
  {
    if ss == [] || |Name(ss[0])| + 1 >= room then ""
    else Name(ss[0]) + " " + Fitting(ss[1..], room - |Name(ss[0])| - 1)
  }

  /** The reply in a buffer of `room` characters; only a complete one loses its last blank. */
  function Reply(ss: seq<Suite>, room: nat): string {
    if |Spaced(ss)| < room then WithoutLast(Spaced(ss)) else Fitting(ss, room)
  }

  /** Text with room to spare is complete; else it ends before the first name that does not fit. */
  lemma {:induction false} ReplyIsLongest(ss: seq<Suite>, room: nat)
    requires |Spaced(ss)| >= room > 0
    ensures exists k :: 0 <= k < |ss| && Reply(ss, room) == Spaced(ss[..k])
                        && |Spaced(ss[..k])| < room <= |Spaced(ss[..k + 1])|
  {
    hide Name;
    if |Name(ss[0])| + 1 >= room {
      assert ss[..0] == [] && ss[..1] == [ss[0]] && ss[..1][1..] == [];
      assert Spaced([]) == "" && Spaced(ss[..1]) == Name(ss[0]) + " " + "";
      assert Reply(ss, room) == Spaced(ss[..0]) && |Spaced(ss[..0])| < room <= |Spaced(ss[..0 + 1])|;
    } else {
      var left := room - |Name(ss[0])| - 1;
      ReplyIsLongest(ss[1..], left);
      var k :| 0 <= k < |ss[1..]| && Reply(ss[1..], left) == Spaced(ss[1..][..k])
               && |Spaced(ss[1..][..k])| < left <= |Spaced(ss[1..][..k + 1])|;
      SpacedTake(ss, k + 1);
      SpacedTake(ss, k + 2);
      assert |Spaced(ss[..k + 1])| < room <= |Spaced(ss[..(k + 1) + 1])|;
    }
  }

  lemma SpacedTake(ss: seq<Suite>, k: nat)
    requires 0 < k <= |ss|
    ensures Spaced(ss[..k]) == Name(ss[0]) + " " + Spaced(ss[1..][..k - 1])
  {
    hide Name;
    assert ss[..k][1..] == ss[1..][..k - 1];
  }

  // The longest text.

  lemma {:induction false} ChosenIsShorter(mask: bv32, ss: seq<Suite>)
    ensures |Spaced(Chosen(mask, ss))| <= |Spaced(ss)|
  {
    if ss != [] {
      ChosenIsShorter(mask, ss[1..]);
      var rest := Chosen(mask, ss[1..]);
      assert [] + rest == rest && ([ss[0]] + rest)[1..] == rest;
    }
  }

  function NameLen(s: Suite): nat {
    match s
    case WpaPsk => 7
    case WpaEap => 7
    case FtPsk => 6
    case FtEap => 6
    case FtEapSha384 => 13
    case WpaEapSha384 => 14
    case WpaPskSha256 => 14
    case WpaEapSha256 => 14
    case Sae => 3
    case SaeExtKey => 11
    case FtSae => 6
    case FtSaeExtKey => 14
    case SuiteB => 15
    case SuiteB192 => 19
    case FilsSha256 => 11
    case FilsSha384 => 11
    case FtFilsSha256 => 14
    case FtFilsSha384 => 14
    case Owe => 3
    case Dpp => 3
    case Osen => 4
    case Pasn => 4
  }

  lemma NameLenIs(s: Suite)
    ensures |Name(s)| == NameLen(s)
  {
  }

  function Width(ss: seq<Suite>): nat {
    if ss == [] then 0 else NameLen(ss[0]) + 1 + Width(ss[1..])
  }

  lemma {:induction false} SpacedWidth(ss: seq<Suite>)
    ensures |Spaced(ss)| == Width(ss)
  {
    hide Name, NameLen;
    if ss != [] {
      NameLenIs(ss[0]);
      SpacedWidth(ss[1..]);
    }
  }

  lemma {:induction false} WidthAppend(a: seq<Suite>, b: seq<Suite>)
    ensures Width(a + b) == Width(a) + Width(b)
  {
    hide NameLen;
    if a == [] {
      assert a + b == b;
    } else {
      assert (a + b)[1..] == a[1..] + b;
      WidthAppend(a[1..], b);
    }
  }

  lemma Width4(a: Suite, b: Suite, c: Suite, d: Suite)
    ensures Width([a, b, c, d]) == NameLen(a) + NameLen(b) + NameLen(c) + NameLen(d) + 4
  {
    hide NameLen;
    assert [d][1..] == [] && Width([d]) == NameLen(d) + 1;
    assert [c, d][1..] == [d] && Width([c, d]) == NameLen(c) + 1 + Width([d]);
    assert [b, c, d][1..] == [c, d] && Width([b, c, d]) == NameLen(b) + 1 + Width([c, d]);
    assert [a, b, c, d][1..] == [b, c, d];
  }

  /** The width of a list of twenty, by fours. */
  lemma Width20(ss: seq<Suite>)
    requires |ss| == 20
    ensures Width(ss) == Width(ss[..4]) + Width(ss[4..8]) + Width(ss[8..12]) + Width(ss[12..16]) + Width(ss[16..])
  {
    hide Width;
    assert ss == ss[..4] + (ss[4..8] + (ss[8..12] + (ss[12..16] + ss[16..])));
    WidthAppend(ss[..4], ss[4..8] + (ss[8..12] + (ss[12..16] + ss[16..])));
    WidthAppend(ss[4..8], ss[8..12] + (ss[12..16] + ss[16..]));
    WidthAppend(ss[8..12], ss[12..16] + ss[16..]);
    WidthAppend(ss[12..16], ss[16..]);
  }

  lemma OrderWidthA()
    ensures Width(ORDER[..4]) + Width(ORDER[4..8]) == 81
  {
    hide Width;
    assert ORDER[..4] == [WpaPsk, WpaEap, FtPsk, FtEap];
    Width4(WpaPsk, WpaEap, FtPsk, FtEap);
    assert Width(ORDER[..4]) == 30;
    assert ORDER[4..8] == [FtEapSha384, FtSae, FtSaeExtKey, FtFilsSha256];
    Width4(FtEapSha384, FtSae, FtSaeExtKey, FtFilsSha256);
    assert Width(ORDER[4..8]) == 51;
  }

  lemma OrderWidthB()
    ensures Width(ORDER[8..12]) + Width(ORDER[12..16]) + Width(ORDER[16..]) == 144
  {
    hide Width;
    assert ORDER[8..12] == [FtFilsSha384, WpaPskSha256, WpaEapSha256, Sae];
    Width4(FtFilsSha384, WpaPskSha256, WpaEapSha256, Sae);
    assert Width(ORDER[8..12]) == 49;
    assert ORDER[12..16] == [SaeExtKey, SuiteB, SuiteB192, FilsSha256];
    Width4(SaeExtKey, SuiteB, SuiteB192, FilsSha256);
    assert Width(ORDER[12..16]) == 60;
    assert ORDER[16..] == [FilsSha384, Owe, Dpp, WpaEapSha384];
    Width4(FilsSha384, Owe, Dpp, WpaEapSha384);
    assert Width(ORDER[16..]) == 35;
  }

  lemma OrderWidth()
    ensures Width(ORDER) == 225
  {
    Width20(ORDER);
    OrderWidthA();
    OrderWidthB();
  }

  /** The text of any mask fits the buffer of the DUP command. */
  lemma TextFits(mask: bv32)
    ensures |Spaced(Chosen(mask, ORDER))| < DUP_VALUE_MAX_LEN
    ensures Reply(Chosen(mask, ORDER), DUP_VALUE_MAX_LEN) == TextOf(mask)
  {
    ChosenIsShorter(mask, ORDER);
    SpacedWidth(ORDER);
    OrderWidth();
  }

  // ---------------------------------------------------------------------------------------------
  // Printing, then parsing
  // ---------------------------------------------------------------------------------------------

  predicate IsWord(s: string) {
    s != "" && forall j :: 0 <= j < |s| ==> !IsBlank(s[j])
  }

  lemma NamesAreWords(s: Suite)
    ensures IsWord(Name(s))
  {
  }

  /** The comparisons find every suite by its name: no name is taken for an earlier one. */
  lemma FindName(s: Suite)
    ensures FindSuite(Name(s)) == Some(s)
  {
  }

  function Names(ss: seq<Suite>): seq<string> {
    if ss == [] then [] else [Name(ss[0])] + Names(ss[1..])
  }

  lemma OneWord(w: string)
    requires IsWord(w)
    ensures Words(w) == [w]
  {
    WordLenIs(w, |w|);
    assert w[|w|..] == "" && w[..|w|] == w;
    assert Words(w[|w|..]) == [];
  }

  lemma {:induction false} WordsOfSpaced(ss: seq<Suite>)
    ensures Words(Spaced(ss)) == Names(ss)
  {
    hide Name, IsWord;
    if ss != [] {
      NamesAreWords(ss[0]);
      OneWord(Name(ss[0]));
      WordsAppend(Name(ss[0]), ' ', Spaced(ss[1..]));
      WordsOfSpaced(ss[1..]);
    }
  }

  lemma {:induction false} SpacedEnds(ss: seq<Suite>)
    requires ss != []
    ensures Spaced(ss) != "" && Spaced(ss)[|Spaced(ss)| - 1] == ' '
  {
    hide Name;
    if |ss| == 1 {
      assert Spaced(ss[1..]) == "";
    } else {
      SpacedEnds(ss[1..]);
    }
  }

  /** The last blank separates nothing. */
  lemma WordsWithoutLast(ss: seq<Suite>)
    ensures Words(WithoutLast(Spaced(ss))) == Names(ss)
  {
    hide Words, Spaced;
    WordsOfSpaced(ss);
    NoWords("");
    if ss == [] {
      SpacedNone(ss);
    } else {
      SpacedEnds(ss);
      var u := WithoutLast(Spaced(ss));
      assert Spaced(ss) == u + [' '] + "";
      WordsAppend(u, ' ', "");
    }
  }

  lemma SpacedNone(ss: seq<Suite>)
    requires ss == []
    ensures Spaced(ss) == ""
  {
  }

  lemma NoWords(s: string)
    requires s == ""
    ensures Words(s) == []
  {
  }

  lemma {:induction false} MaskOfNames(ss: seq<Suite>)
    ensures MaskOf(Names(ss)) == Some(BitsFrom(ss))
  {
    hide Name, FindSuite, Bit, Or;
    if ss != [] {
      FindName(ss[0]);
      assert Names(ss)[1..] == Names(ss[1..]);
      MaskOfNames(ss[1..]);
    }
  }

  /** Every suite is a single bit. */
  lemma OneBit(mask: bv32, s: Suite)
    ensures And(mask, Bit(s)) == if And(mask, Bit(s)) != 0 then Bit(s) else 0
  {
  }

  lemma AndOr(mask: bv32, a: bv32, b: bv32)
    ensures And(mask, Or(a, b)) == Or(And(mask, a), And(mask, b))
  {
    assert mask & (a | b) == (mask & a) | (mask & b);
  }

  lemma AndSelf(mask: bv32)
    ensures And(mask, mask) == mask
  {
  }

  lemma AndZero(mask: bv32)
    ensures And(mask, 0) == 0
  {
  }

  lemma {:induction false} ChosenBits(mask: bv32, ss: seq<Suite>)
    ensures BitsFrom(Chosen(mask, ss)) == And(mask, BitsFrom(ss))
  {
    hide Bit, Or, And;
    if ss == [] {
      AndZero(mask);
    } else {
      ChosenBits(mask, ss[1..]);
      OneBit(mask, ss[0]);
      AndOr(mask, Bit(ss[0]), BitsFrom(ss[1..]));
      var rest := Chosen(mask, ss[1..]);
      OrComm(BitsFrom(rest), 0);
      assert [] + rest == rest && ([ss[0]] + rest)[1..] == rest;
    }
  }

  /** Printing a mask and parsing the text gives its printed suites back. */
  lemma PrintParse(mask: bv32)
    ensures Parse(TextOf(mask)) == var m := And(mask, BitsFrom(ORDER)); if m == 0 then None else Some(m)
  {
    var ss := Chosen(mask, ORDER);
    hide Chosen, BitsFrom, Words, MaskOf;
    WordsWithoutLast(ss);
    MaskOfNames(ss);
    ChosenBits(mask, ORDER);
  }

  /** The suites of a non-empty mask survive exactly when all of them are printed. */
  lemma RoundTripIffPrinted(mask: bv32)
    requires mask != 0
    ensures Parse(TextOf(mask)) == Some(mask) <==> And(mask, BitsFrom(ORDER)) == mask
  {
    PrintParse(mask);
  }

  lemma BitsDisjoint(a: Suite, b: Suite)
    requires a != b && (b == Osen || b == Pasn)
    ensures And(Bit(b), Bit(a)) == 0
  {
  }

  lemma {:induction false} BitsOutside(ss: seq<Suite>, s: Suite)
    requires s !in ss && (s == Osen || s == Pasn)
    ensures And(Bit(s), BitsFrom(ss)) == 0
  {
    hide Bit, Or, And;
    OrComm(0, 0);
    AndZero(Bit(s));
    if ss != [] {
      BitsOutside(ss[1..], s);
      BitsDisjoint(ss[0], s);
      AndOr(Bit(s), Bit(ss[0]), BitsFrom(ss[1..]));
    }
  }

  lemma OrAbsorbsAnd(m: bv32, x: bv32)
    ensures Or(m, And(m, x)) == m
  {
  }

  lemma AbsorbTwo(m: bv32, a: bv32, b: bv32)
    requires And(m, a) == m || And(m, b) == m
    ensures And(m, Or(a, b)) == m
  {
    hide Or, And;
    AndOr(m, a, b);
    if And(m, a) == m {
      OrAbsorbsAnd(m, b);
    } else {
      OrAbsorbsAnd(m, a);
      OrComm(And(m, a), m);
    }
  }

  lemma {:induction false} BitsInside(ss: seq<Suite>, s: Suite)
    requires s in ss
    ensures And(Bit(s), BitsFrom(ss)) == Bit(s)
  {
    hide Bit, Or, And;
    if s == ss[0] {
      AndSelf(Bit(s));
    } else {
      BitsInside(ss[1..], s);
    }
    AbsorbTwo(Bit(s), Bit(ss[0]), BitsFrom(ss[1..]));
  }

  lemma BitsMeet(a: Suite, b: Suite)
    ensures And(Bit(a), Bit(b)) == if a == b then Bit(a) else 0
  {
  }

  lemma AndComm(a: bv32, b: bv32)
    ensures And(a, b) == And(b, a)
  {
  }

  lemma {:induction false} MaskBit(ws: seq<string>, s: Suite)
    requires MaskOf(ws).Some?
    ensures And(Bit(s), MaskOf(ws).value) != 0 <==> Name(s) in ws
  {
    hide Bit, Or, And, Name, FindSuite;
    if ws == [] {
      AndZero(Bit(s));
    } else {
      var x, rest := FindSuite(ws[0]).value, MaskOf(ws[1..]).value;
      MaskBit(ws[1..], s);
      AndOr(Bit(s), Bit(x), rest);
      BitsMeet(s, x);
      BitNonZero(s);
      OrNonZero(And(Bit(s), Bit(x)), And(Bit(s), rest));
      FindName(s);
    }
  }

  /** What an accepted value means: the bit of a suite is set exactly when its name is one of the words. */
  lemma BitSetIffNamed(value: string, s: Suite)
    requires Parse(value).Some?
    ensures Parse(value).value & Bit(s) != 0 <==> Name(s) in Words(value)
  {
    MaskBit(Words(value), s);
    AndComm(Bit(s), Parse(value).value);
  }

  /** And the text of a mask names exactly the suites of the mask, but for OSEN and PASN. */
  lemma NamedIffBitSet(mask: bv32, s: Suite)
    ensures Name(s) in Words(TextOf(mask)) <==> mask & Bit(s) != 0 && s != Osen && s != Pasn
  {
    hide Words, MaskOf, Chosen, Spaced, Bit, FindSuite, Name;
    var ss := Chosen(mask, ORDER);
    WordsWithoutLast(ss);
    NamesIn(ss, s);
    ChosenIff(mask, ORDER, s);
    OrderHasRest(s);
  }

  lemma {:induction false} NamesIn(ss: seq<Suite>, s: Suite)
    ensures Name(s) in Names(ss) <==> s in ss
  {
    hide Name, FindSuite;
    if ss != [] {
      NamesIn(ss[1..], s);
      FindName(s);
      FindName(ss[0]);
    }
  }

  lemma {:induction false} ChosenIff(mask: bv32, ss: seq<Suite>, s: Suite)
    ensures s in Chosen(mask, ss) <==> s in ss && And(mask, Bit(s)) != 0
  {
    hide Bit, And;
    if ss != [] {
      ChosenIff(mask, ss[1..], s);
    }
  }

  lemma OrderHasRest(s: Suite)
    ensures s in ORDER <==> s != Osen && s != Pasn
  {
  }

  /** Printed are all suites the parser knows but OSEN and PASN, which a duplicated value loses. */
  lemma PrintedSuites(s: Suite)
    ensures And(Bit(s), BitsFrom(ORDER)) == if s == Osen || s == Pasn then 0 else Bit(s)
  {
    OrderHasRest(s);
    if s == Osen || s == Pasn {
      BitsOutside(ORDER, s);
    } else {
      BitsInside(ORDER, s);
    }
  }

  // ---------------------------------------------------------------------------------------------
  // The parser and the printer
  // ---------------------------------------------------------------------------------------------

  /** One turn of the parser: where the next word starts and ends, if there is one. */
  method NextWord(value: string, from: nat) returns (start: nat, end: nat)
    requires from <= |value|
    ensures from <= start <= end <= |value| && value[start..] == SkipBlanks(value[from..])
    ensures start < |value| ==> value[start..end] == value[start..][..WordLen(value[start..])]
    ensures start < |value| ==> Words(value[from..]) == [value[start..end]] + Words(value[end..])
    ensures start < |value| ==> start < end && (end < |value| ==> IsBlank(value[end]))
    ensures start == |value| ==> Words(value[from..]) == []
  {
    hide Words, WordLen, SkipBlanks;
    start := from;
    while start < |value| && (value[start] == ' ' || value[start] == '\t')
      invariant from <= start <= |value| && SkipBlanks(value[start..]) == SkipBlanks(value[from..])
    {
      assert value[start..][0] == value[start] && value[start..][1..] == value[start + 1..];
      SkipStep(value[start..]);
      start := start + 1;
    }
    NothingToSkip(value[start..]);
    end := start;
    while end < |value| && value[end] != ' ' && value[end] != '\t'
      invariant start <= end <= |value|
      invariant forall j :: start <= j < end ==> !IsBlank(value[j])
    {
      end := end + 1;
    }
    WordHere(value, from, start, end);
  }

  lemma SkipStep(s: string)
    requires s != "" && IsBlank(s[0])
    ensures SkipBlanks(s) == SkipBlanks(s[1..])
  {
  }

  lemma NothingToSkip(s: string)
    requires s != "" ==> !IsBlank(s[0])
    ensures SkipBlanks(s) == s
  {
  }

  lemma WordHere(value: string, from: nat, start: nat, end: nat)
    requires from <= start <= end <= |value| && value[start..] == SkipBlanks(value[from..])
    requires (forall j :: start <= j < end ==> !IsBlank(value[j])) && (end < |value| ==> IsBlank(value[end]))
    ensures start < |value| ==> start < end && value[start..end] == value[start..][..WordLen(value[start..])]
    ensures Words(value[from..]) == if start == |value| then [] else [value[start..end]] + Words(value[end..])
  {
    hide WordLen, SkipBlanks;
    if start < |value| {
      assert value[start..][0] == value[start];
      WordLenIs(value[start..], end - start);
      assert value[start..][end - start..] == value[end..];
    }
  }

  lemma WordsAfterBlank(s: string)
    requires s != "" && IsBlank(s[0])
    ensures Words(s) == Words(s[1..])
  {
  }

  /** hostapd_config_parse_key_mgmt: None stands for its -1. */
  method ParseKeyMgmt(value: string) returns (r: Option<bv32>)
    ensures r == Parse(value)
  {
    hide Words, MaskOf, FindSuite, Bit, Or, SkipBlanks, WordLen;
    var val: bv32, start: nat := 0, 0;
    assert value[0..] == value;
    MaskSoFar(Words(value));
    while start < |value|
      invariant 0 <= start <= |value|
      invariant MaskOf(Words(value)) == Both(Some(val), MaskOf(Words(value[start..])))
      decreases |value| - start
    {
      var word, end := NextWord(value, start);
      if word == |value| {
        start := word;
        NoWords(value[start..]);
        break;
      }
      var suite := FindSuite(value[word..end]);
      MaskStep(value[word..end], Words(value[end..]), val);
      if suite.None? {
        return None;
      }
      val := val | Bit(suite.value);
      if end == |value| {
        start := end;
        break;
      }
      assert value[end..][1..] == value[end + 1..];
      WordsAfterBlank(value[end..]);
      start := end + 1;
    }
    NoWords(value[start..]);
    MaskSoFar(Words(value[start..]));
    OrComm(val, 0);
    r := if val == 0 then None else Some(val);
  }

  lemma MaskSoFar(ws: seq<string>)
    ensures MaskOf(ws) == Both(Some(0), MaskOf(ws))
    ensures ws == [] ==> MaskOf(ws) == Some(0)
  {
    if MaskOf(ws).Some? {
      OrComm(0, MaskOf(ws).value);
    }
  }

  lemma MaskStep(w: string, ws: seq<string>, val: bv32)
    ensures FindSuite(w).None? ==> MaskOf([w] + ws).None?
    ensures FindSuite(w).Some? ==>
              Both(Some(val), MaskOf([w] + ws)) == Both(Some(val | Bit(FindSuite(w).value)), MaskOf(ws))
  {
    assert ([w] + ws)[1..] == ws;
    if FindSuite(w).Some? && MaskOf(ws).Some? {
      Or3(val, Bit(FindSuite(w).value), MaskOf(ws).value);
    }
  }

  /** What was printed so far and what is still to come. */
  function Coming(head: string, ss: seq<Suite>, room: nat): string {
    head + Fitting(ss, room)
  }

  lemma ComingStep(mask: bv32, head: string, ss: seq<Suite>, room: nat)
    requires ss != []
    ensures And(mask, Bit(ss[0])) == 0 ==> Chosen(mask, ss) == Chosen(mask, ss[1..])
    ensures And(mask, Bit(ss[0])) != 0 && |Name(ss[0])| + 1 >= room ==> Coming(head, Chosen(mask, ss), room) == head
    ensures And(mask, Bit(ss[0])) != 0 && |Name(ss[0])| + 1 < room ==>
              var more := Coming(head + (Name(ss[0]) + " "), Chosen(mask, ss[1..]), room - |Name(ss[0])| - 1);
              Coming(head, Chosen(mask, ss), room) == more
    ensures And(mask, Bit(ss[0])) != 0 ==>
              |Spaced(Chosen(mask, ss))| == |Name(ss[0])| + 1 + |Spaced(Chosen(mask, ss[1..]))|
  {
    hide Chosen, Coming, Fitting, Spaced;
    ChosenStep(mask, ss);
    ComingFirst(head, ss[0], Chosen(mask, ss[1..]), room);
  }

  lemma ChosenStep(mask: bv32, ss: seq<Suite>)
    requires ss != []
    ensures Chosen(mask, ss)
            == if And(mask, Bit(ss[0])) == 0 then Chosen(mask, ss[1..]) else [ss[0]] + Chosen(mask, ss[1..])
  {
  }

  lemma ComingFirst(head: string, s: Suite, ss: seq<Suite>, room: nat)
    ensures |Name(s)| + 1 >= room ==> Coming(head, [s] + ss, room) == head
    ensures |Name(s)| + 1 < room ==>
              Coming(head, [s] + ss, room) == Coming(head + (Name(s) + " "), ss, room - |Name(s)| - 1)
    ensures |Spaced([s] + ss)| == |Name(s)| + 1 + |Spaced(ss)|
  {
    hide Name;
    assert ([s] + ss)[1..] == ss;
    if |Name(s)| + 1 < room {
      var more := Fitting(ss, room - |Name(s)| - 1);
      assert head + (Name(s) + " " + more) == head + (Name(s) + " ") + more;
    }
  }

  lemma ComingStart(head: string, ss: seq<Suite>, room: nat)
    requires head == ""
    ensures Coming(head, ss, room) == Fitting(ss, room)
  {
  }

  lemma ComingEnd(head: string, mask: bv32, ss: seq<Suite>, room: nat)
    requires ss == []
    ensures Coming(head, Chosen(mask, ss), room) == head && Spaced(Chosen(mask, ss)) == ""
  {
  }

  lemma {:induction false} FittingAll(ss: seq<Suite>, room: nat)
    requires |Spaced(ss)| < room
    ensures Fitting(ss, room) == Spaced(ss)
  {
    hide Name;
    if ss != [] {
      FittingAll(ss[1..], room - |Name(ss[0])| - 1);
    }
  }

  /** What the printer replies, by whether everything fits. */
  lemma ReplyCases(ss: seq<Suite>, room: nat)
    ensures |Spaced(ss)| >= room ==> Reply(ss, room) == Fitting(ss, room)
    ensures |Spaced(ss)| < room ==> Fitting(ss, room) == Spaced(ss)
    ensures |Spaced(ss)| < room ==> Reply(ss, room) == if ss == [] then "" else Spaced(ss)[..|Spaced(ss)| - 1]
    ensures if ss == [] then Spaced(ss) == "" else Spaced(ss) != "" && Spaced(ss)[|Spaced(ss)| - 1] == ' '
  {
    hide Name;
    if ss != [] {
      SpacedEnds(ss);
    }
    if |Spaced(ss)| < room {
      FittingAll(ss, room);
    }
  }

  /** One suite of the printer, if the mask has it; `ok` is false when it does not fit. */
  method PrintSuite(mask: bv32, s: Suite, buf: array<char>, pos: nat) returns (end: nat, ok: bool)
    requires pos <= buf.Length
    modifies buf
    ensures pos <= end <= buf.Length
    ensures ok == (And(mask, Bit(s)) == 0 || |Name(s)| + 1 < buf.Length - pos)
    ensures if ok && And(mask, Bit(s)) != 0 then buf[..end] == old(buf[..pos]) + (Name(s) + " ") && end < buf.Length
            else end == pos && buf[..end] == old(buf[..pos])
  {
    hide Name, Bit;
    end, ok := pos, true;
    ghost var head := buf[..pos];
    if mask & Bit(s) != 0 {
      if pos == buf.Length {
        return pos, false;
      }
      var text := Name(s) + " ";
      var ret := Snprintf(buf, pos, text);
      assert buf[..pos] == head;
      if ret >= buf.Length - pos {
        return pos, false;
      }
      end := pos + ret;
      assert buf[..end] == head + text;
    }
  }

  /**
  hostapd_ctrl_iface_get_key_mgmt, with its tests in a table: the names up to the first that does not
  fit, and no blank behind a complete text.
  */
  method GetKeyMgmt(mask: bv32, buf: array<char>) returns (len: nat)
    modifies buf
    ensures len <= buf.Length && buf[..len] == Reply(Chosen(mask, ORDER), buf.Length)
  {
    hide *;
    ghost var all := Chosen(mask, ORDER);
    ReplyCases(all, buf.Length);
    var pos := 0;
    ComingStart(buf[..pos], all, buf.Length);
    assert ORDER[0..] == ORDER;
    for i := 0 to |ORDER|
      invariant pos <= buf.Length && (pos > 0 ==> pos < buf.Length)
      invariant Coming(buf[..pos], Chosen(mask, ORDER[i..]), buf.Length - pos) == Fitting(all, buf.Length)
      invariant pos + |Spaced(Chosen(mask, ORDER[i..]))| == |Spaced(all)|
    {
      assert ORDER[i..][0] == ORDER[i] && ORDER[i..][1..] == ORDER[i + 1..];
      ComingStep(mask, buf[..pos], ORDER[i..], buf.Length - pos);
      var end, ok := PrintSuite(mask, ORDER[i], buf, pos);
      if !ok {
        return pos;
      }
      pos := end;
    }
    ComingEnd(buf[..pos], mask, ORDER[|ORDER|..], buf.Length - pos);
    if pos > 0 && buf[pos - 1] == ' ' {
      buf[pos - 1] := NUL;
      pos := pos - 1;
    }
    return pos;
  }

  /**
  The wpa_key_mgmt branch of hostapd_ctrl_iface_dup_param, up to the value that the other interface
  parses: its stringify error cannot occur, and exactly the suites that are not printed are lost.
  */
  method DupKeyMgmt(mask: bv32) returns (r: Option<bv32>)
    requires mask != 0
    ensures r == var kept := And(mask, BitsFrom(ORDER)); if kept == 0 then None else Some(kept)
  {
    hide *;
    var value := new char[DUP_VALUE_MAX_LEN](_ => NUL);
    var res := GetKeyMgmt(mask, value);
    TextFits(mask);
    ReplyIsShorter(mask);
    assert res < DUP_VALUE_MAX_LEN;
    PrintParse(mask);
    r := ParseKeyMgmt(value[..res]);
  }

  lemma ReplyIsShorter(mask: bv32)
    ensures |TextOf(mask)| < DUP_VALUE_MAX_LEN
  {
    hide Spaced, Chosen;
    TextFits(mask);
  }
}
