/**
The 3GPP cellular network list of hostapd/config_file.c: a text of `MCC,MNC` pairs turned into the PLMN
list of section 10.5.1.13 of 3GPP TS 24.008.
*/
module Plmn {
  import opened Text

  const HEADER: nat := 5
  const MAX_CONTENTS: nat := 0x7f

  /** A mobile network: three digits of country code, two or three of network code. */
  datatype Plmn = Plmn(mcc: string, mnc: string)

  predicate IsDigit(c: char) {
    '0' <= c <= '9'
  }

  predicate AllDigits(s: string) {
    forall i :: 0 <= i < |s| ==> IsDigit(s[i])
  }

  predicate IsPlmn(p: Plmn) {
    |p.mcc| == 3 && 2 <= |p.mnc| <= 3 && AllDigits(p.mcc) && AllDigits(p.mnc)
  }

  predicate ArePlmns(ps: seq<Plmn>) {
    forall i :: 0 <= i < |ps| ==> IsPlmn(ps[i])
  }

  /** The documented text form: `MCC,MNC` pairs with semicolons between them. */
  function PrintList(ps: seq<Plmn>): string {
    if ps == [] then ""
    else if |ps| == 1 then ps[0].mcc + "," + ps[0].mnc
    else ps[0].mcc + "," + ps[0].mnc + ";" + PrintList(ps[1..])
  }

  // ---------------------------------------------------------------------------------------------
  // What the parser computes
  // ---------------------------------------------------------------------------------------------

  predicate IsListChar(c: char) {
    IsDigit(c) || c == ';' || c == ','
  }

  predicate AllListChars(s: string) {
    forall i :: 0 <= i < |s| ==> IsListChar(s[i])
  }

  function Semicolons(s: string): (n: nat)
    ensures n <= |s|
  {
    if s == "" then 0 else Semicolons(s[..|s| - 1]) + if s[|s| - 1] == ';' then 1 else 0
  }

  /**
  `((hi - '0') << 4) | (lo - '0')` stored in a byte. A comma is -4 after the subtraction: as the low
  operand it sets all bits but two.
  */
  function Pack(hi: char, lo: char): byte
    requires IsListChar(hi) && IsListChar(lo)
  {
    if lo == ',' then 0xfc else (hi as int - '0' as int) * 16 % 256 + (lo as int - '0' as int)
  }

  /** The three octets of one pair. */
  function Code(mcc: string, mnc: string): (b: seq<byte>)
    requires |mcc| == 3 && 2 <= |mnc| <= 3 && AllListChars(mcc) && AllListChars(mnc)
    ensures |b| == 3
  {
    [Pack(mcc[1], mcc[0]),
     if |mnc| == 2 then if mcc[2] == ',' then 0xfc else 0xf0 + (mcc[2] as int - '0' as int) else Pack(mnc[2], mcc[2]),
     Pack(mnc[1], mnc[0])]
  }

  /** The text after the pair that `s` begins with, the pair cut at the first comma and the next semicolon. */
  function Mnc(s: string): string
    requires Find(s, ',') < |s|
  {
    var rest := s[Find(s, ',') + 1..];
    rest[..Find(rest, ';')]
  }

  function Next(s: string): (r: string)
    requires Find(s, ',') < |s|
    ensures |r| < |s|
    ensures AllListChars(s) ==> AllListChars(r)
  {
    var rest := s[Find(s, ',') + 1..];
    if Find(rest, ';') == |rest| then "" else rest[Find(rest, ';') + 1..]
  }

  predicate StartsWithPair(s: string) {
    Find(s, ',') < |s| && Find(s, ',') == 3 && 2 <= |Mnc(s)| <= 3
  }

  /** The octets of all pairs; None when some pair is malformed. */
  function Body(s: string): (r: Option<seq<byte>>)
    requires AllListChars(s)
    ensures r.Some? ==> |r.value| <= 3 * (1 + Semicolons(s))
    decreases |s|
  {
    if s == "" then Some([])
    else if !StartsWithPair(s) then None
    else
      var rest := Body(Next(s));
      PairUsesSemicolon(s);
      if rest.None? then None else Some(Code(s[..3], Mnc(s)) + rest.value)
  }

  lemma NextParts(s: string)
    requires Find(s, ',') < |s|
    ensures var rest := s[Find(s, ',') + 1..]; var e := Find(rest, ';');
            && (e < |rest| ==> rest[e] == ';') && e <= |rest|
            && Next(s) == if e == |rest| then "" else rest[e + 1..]
  {
    hide Find;
  }

  /** Where the text after the pair begins: behind a semicolon. */
  lemma NextIsSuffix(s: string) returns (i: nat)
    requires Find(s, ',') < |s| && Next(s) != ""
    ensures i < |s| && s[i] == ';' && Next(s) == s[i + 1..]
  {
    hide *;
    NextParts(s);
    var c := Find(s, ',');
    var e := Find(s[c + 1..], ';');
    i := c + 1 + e;
    assert s[c + 1..][e] == s[i];
    SliceOfSlice(s, c + 1, e + 1);
  }

  lemma SliceOfSlice(s: string, i: nat, j: nat)
    requires i + j <= |s|
    ensures s[i..][j..] == s[i + j..]
  {
  }

  /** One semicolon, at least, separates two pairs; a pair that ends the text leaves none. */
  lemma PairUsesSemicolon(s: string)
    requires AllListChars(s) && Find(s, ',') < |s|
    ensures Next(s) != "" ==> Semicolons(s) >= 1 + Semicolons(Next(s))
  {
    hide Semicolons, Find, Next;
    if Next(s) != "" {
      var i := NextIsSuffix(s);
      SplitAt(s, i);
    }
  }

  lemma SplitAt(s: string, i: nat)
    requires i < |s| && s[i] == ';'
    ensures Semicolons(s) == Semicolons(s[..i]) + 1 + Semicolons(s[i + 1..])
  {
    assert s == s[..i + 1] + s[i + 1..];
    SemicolonsAppend(s[..i + 1], s[i + 1..]);
    assert s[..i + 1][..i] == s[..i];
  }

  lemma {:induction false} SemicolonsAppend(a: string, b: string)
    ensures Semicolons(a + b) == Semicolons(a) + Semicolons(b)
  {
    if b == "" {
      assert a + b == a;
    } else {
      SemicolonsAppend(a, b[..|b| - 1]);
      assert (a + b)[..|a + b| - 1] == a + b[..|b| - 1];
    }
  }

  function Zeros(n: nat): (z: seq<byte>)
    ensures |z| == n && forall i :: 0 <= i < n ==> z[i] == 0
  {
    seq(n, i => 0)
  }

  function Header(count: nat): seq<byte>
    requires 1 + count * 3 <= MAX_CONTENTS
  {
    [0, 3 + count * 3, 0, 1 + count * 3, count]
  }

  /** parse_3gpp_cell_net on a C string: the list octets, or None for a refused text. */
  function Encode(s: string): (r: Option<seq<byte>>)
    ensures r.Some? ==> |r.value| == HEADER + 3 * (1 + Semicolons(s))
  {
    var count := 1 + Semicolons(s);
    if !AllListChars(s) || 1 + count * 3 > MAX_CONTENTS then None
    else
      var body := Body(s);
      if body.None? then None else Some(Header(count) + body.value + Zeros(3 * count - |body.value|))
  }

  // ---------------------------------------------------------------------------------------------
  // What the octets mean
  // ---------------------------------------------------------------------------------------------

  function DigitChar(n: int): char
    requires 0 <= n < 10
  {
    '0' + n as char
  }

  predicate DecimalNibbles(b: byte) {
    b % 16 < 10 && b / 16 < 10
  }

  /** Octets 5 to 7 of the information element; a filler of 1111 stands for a missing third MNC digit. */
  function DecodePlmn(b0: byte, b1: byte, b2: byte): (r: Option<Plmn>)
    ensures r.Some? ==> IsPlmn(r.value)
  {
    if !DecimalNibbles(b0) || !DecimalNibbles(b2) || b1 % 16 >= 10 || 10 <= b1 / 16 < 15 then None
    else
      var short := [DigitChar(b2 % 16), DigitChar(b2 / 16)];
      Some(Plmn([DigitChar(b0 % 16), DigitChar(b0 / 16), DigitChar(b1 % 16)],
                if b1 / 16 == 15 then short else short + [DigitChar(b1 / 16)]))
  }

  function DecodeBody(b: seq<byte>): (r: Option<seq<Plmn>>)
    ensures r.Some? ==> ArePlmns(r.value) && 3 * |r.value| == |b|
  {
    if b == [] then Some([])
    else if |b| < 3 || DecodePlmn(b[0], b[1], b[2]).None? then None
    else
      var rest := DecodeBody(b[3..]);
      if rest.None? then None else Some([DecodePlmn(b[0], b[1], b[2]).value] + rest.value)
  }

  /** The list in the octets, when both length fields and the count agree with their number. */
  function Decode(b: seq<byte>): (r: Option<seq<Plmn>>)
    ensures r.Some? ==> ArePlmns(r.value) && |b| == HEADER + 3 * |r.value|
  {
    var n: int := |b|;
    if n < HEADER || b[0] != 0 || b[2] != 0 then None
    else if b[1] as int != n - 2 || b[3] as int != n - 4 || b[4] as int * 3 != n - HEADER then None
    else DecodeBody(b[HEADER..])
  }

  // ---------------------------------------------------------------------------------------------
  // Round trip
  // ---------------------------------------------------------------------------------------------

  lemma PackDigits(hi: char, lo: char)
    requires IsDigit(hi) && IsDigit(lo)
    ensures var b := Pack(hi, lo); DecimalNibbles(b) && DigitChar(b % 16) == lo && DigitChar(b / 16) == hi
  {
    hide DigitChar;
    var h, l := hi as int - '0' as int, lo as int - '0' as int;
    Nibbles(h, l);
    assert Pack(hi, lo) == 16 * h + l;
    CharOfDigit(hi);
    CharOfDigit(lo);
  }

  lemma Nibbles(h: nat, l: nat)
    requires l < 16
    ensures (16 * h + l) % 16 == l && (16 * h + l) / 16 == h
  {
  }

  lemma CharOfDigit(c: char)
    requires IsDigit(c)
    ensures DigitChar(c as int - '0' as int) == c
  {
  }

  lemma DecodeCode(p: Plmn)
    requires IsPlmn(p)
    ensures AllListChars(p.mcc) && AllListChars(p.mnc)
    ensures var c := Code(p.mcc, p.mnc); DecodePlmn(c[0], c[1], c[2]) == Some(p)
  {
    PackDigits(p.mcc[1], p.mcc[0]);
    PackDigits(p.mnc[1], p.mnc[0]);
    if |p.mnc| == 3 {
      PackDigits(p.mnc[2], p.mcc[2]);
    }
    hide Pack;
    var c := Code(p.mcc, p.mnc);
    var q := DecodePlmn(c[0], c[1], c[2]).value;
    assert q.mcc == p.mcc;
    assert q.mnc == p.mnc;
  }

  predicate IsTail(tail: string) {
    tail == "" || tail == ";"
  }

  /** Cutting at the first comma and the next semicolon finds a pair again. */
  lemma PairFirst(mcc: string, mnc: string, after: string)
    requires |mcc| == 3 && 2 <= |mnc| <= 3 && AllDigits(mcc) && AllDigits(mnc)
    requires after == "" || after[0] == ';'
    ensures var s := mcc + "," + mnc + after;
            && StartsWithPair(s) && s[..3] == mcc && Mnc(s) == mnc && Next(s) == if after == "" then "" else after[1..]
  {
    hide Find;
    var s := mcc + "," + mnc + after;
    FindUnique(s, ',', 3);
    var rest := s[4..];
    assert rest == mnc + after;
    FindUnique(rest, ';', |mnc|);
    if after != "" {
      assert rest[|mnc|..] == after;
      assert rest[|mnc| + 1..] == after[1..];
    }
  }

  lemma PrintedParts(ps: seq<Plmn>)
    requires ps != []
    ensures PrintList(ps) == ps[0].mcc + "," + ps[0].mnc + if |ps| == 1 then "" else ";" + PrintList(ps[1..])
  {
  }

  lemma Regroup(a: string, b: string, tail: string)
    ensures a + (";" + b) + tail == a + (";" + (b + tail)) && (";" + (b + tail))[1..] == b + tail
  {
  }

  /** How a printed list begins, also one with a trailing semicolon. */
  lemma PrintedFirst(ps: seq<Plmn>, tail: string)
    requires ArePlmns(ps) && ps != [] && IsTail(tail)
    ensures var s := PrintList(ps) + tail;
            && StartsWithPair(s) && s[..3] == ps[0].mcc && Mnc(s) == ps[0].mnc
            && Next(s) == if |ps| == 1 then "" else PrintList(ps[1..]) + tail
  {
    hide StartsWithPair, Mnc, Next, PrintList;
    PrintedParts(ps);
    var p := ps[0];
    if |ps| == 1 {
      assert PrintList(ps) == p.mcc + "," + p.mnc;
      PairFirst(p.mcc, p.mnc, tail);
    } else {
      var more := PrintList(ps[1..]);
      Regroup(p.mcc + "," + p.mnc, more, tail);
      PairFirst(p.mcc, p.mnc, ";" + (more + tail));
    }
  }

  lemma CharsAppend(a: string, b: string)
    ensures AllListChars(a + b) <==> AllListChars(a) && AllListChars(b)
  {
    forall i | 0 <= i < |b| && AllListChars(a + b)
      ensures IsListChar(b[i])
    {
      assert (a + b)[|a| + i] == b[i];
    }
    forall i | 0 <= i < |a| && AllListChars(a + b)
      ensures IsListChar(a[i])
    {
      assert (a + b)[i] == a[i];
    }
  }

  lemma {:induction false} PrintedChars(ps: seq<Plmn>)
    requires ArePlmns(ps)
    ensures AllListChars(PrintList(ps))
    ensures ps != [] ==> 1 + Semicolons(PrintList(ps)) == |ps|
  {
    if ps != [] {
      var pair := ps[0].mcc + "," + ps[0].mnc;
      NoSemicolons(pair);
      PrintedChars(ps[1..]);
      if |ps| > 1 {
        assert PrintList(ps) == pair + (";" + PrintList(ps[1..]));
        CharsAppend(pair, ";" + PrintList(ps[1..]));
        SemicolonsAppend(pair, ";" + PrintList(ps[1..]));
        SemicolonsAppend(";", PrintList(ps[1..]));
        OneSemicolon(";");
      }
    }
  }

  lemma {:induction false} NoSemicolons(s: string)
    requires ';' !in s
    ensures Semicolons(s) == 0
  {
    if s != "" {
      NoSemicolons(s[..|s| - 1]);
    }
  }

  lemma OneSemicolon(s: string)
    requires s == ";"
    ensures Semicolons(s) == 1
  {
    NoSemicolons(s[..0]);
  }

  lemma DecodeFirst(p: Plmn, ps: seq<Plmn>, rest: seq<byte>)
    requires IsPlmn(p) && DecodeBody(rest) == Some(ps)
    ensures AllListChars(p.mcc) && AllListChars(p.mnc) && DecodeBody(Code(p.mcc, p.mnc) + rest) == Some([p] + ps)
  {
    hide DecodePlmn, Code;
    DecodeCode(p);
    assert (Code(p.mcc, p.mnc) + rest)[3..] == rest;
  }

  /** The octets of a printed list, with more behind them, decode to it and to what is behind. */
  lemma {:induction false} PrintedBody(ps: seq<Plmn>, tail: string, more: seq<byte>, qs: seq<Plmn>)
    requires ArePlmns(ps) && IsTail(tail) && ps != [] && DecodeBody(more) == Some(qs)
    ensures AllListChars(PrintList(ps) + tail)
    ensures var b := Body(PrintList(ps) + tail);
            b.Some? && |b.value| == 3 * |ps| && DecodeBody(b.value + more) == Some(ps + qs)
  {
    hide Code, DecodeBody, PrintList, StartsWithPair, Mnc, Next;
    PrintedChars(ps);
    PrintedFirst(ps, tail);
    var p := ps[0];
    assert AllListChars(p.mcc) && AllListChars(p.mnc);
    var code := Code(p.mcc, p.mnc);
    if |ps| == 1 {
      DecodeFirst(p, qs, more);
      assert code + [] + more == code + more && ps + qs == [p] + qs;
    } else {
      PrintedBody(ps[1..], tail, more, qs);
      var rest := Body(PrintList(ps[1..]) + tail).value;
      DecodeFirst(p, ps[1..] + qs, rest + more);
      assert code + rest + more == code + (rest + more) && ps + qs == [p] + (ps[1..] + qs);
    }
  }

  lemma DecodeEncoded(s: string, n: nat, ps: seq<Plmn>)
    requires Encode(s).Some? && n == 3 * (1 + Semicolons(s)) - |Body(s).value|
    requires DecodeBody(Body(s).value + Zeros(n)) == Some(ps)
    ensures Decode(Encode(s).value) == Some(ps)
  {
    hide DecodeBody, Body;
    assert Encode(s).value[HEADER..] == Body(s).value + Zeros(n);
  }

  /** Zero octets decode to network 000-000. */
  lemma DecodeZeros(n: nat)
    requires n == 0 || n == 3
    ensures DecodeBody(Zeros(n)) == Some(if n == 0 then [] else [Plmn("000", "000")])
  {
    var z := Zeros(n);
    if n == 3 {
      assert z[0] == 0 && z[1] == 0 && z[2] == 0 && z[3..] == [];
      var p := DecodePlmn(z[0], z[1], z[2]).value;
      assert p.mcc == "000" && p.mnc == "000";
      assert DecodeBody(z[3..]) == Some([]) && [p] + [] == [p];
    }
  }

  /** A printed list is accepted exactly when its length fits the field of 7 bits, and decodes to itself. */
  lemma PrintedIsAccepted(ps: seq<Plmn>)
    requires ArePlmns(ps) && ps != []
    ensures Encode(PrintList(ps)).Some? <==> |ps| <= 42
    ensures |ps| <= 42 ==> Decode(Encode(PrintList(ps)).value) == Some(ps)
  {
    hide PrintList, DecodeBody, Body, Semicolons;
    var s, n, none := PrintList(ps), 0, ps[..0];
    PrintedChars(ps);
    DecodeZeros(n);
    PrintedBody(ps, "", Zeros(n), none);
    assert s + "" == s && ps + none == ps;
    if |ps| <= 42 {
      DecodeEncoded(s, n, ps);
    }
  }

  /** A trailing semicolon is accepted and adds network 000-000 to the list. */
  lemma TrailingSemicolonAddsNetwork(ps: seq<Plmn>)
    requires ArePlmns(ps) && 1 <= |ps| < 42
    ensures var b := Encode(PrintList(ps) + ";");
            b.Some? && Decode(b.value) == Some(ps + [Plmn("000", "000")])
  {
    hide PrintList, DecodeBody, Body, Semicolons;
    var s, n := PrintList(ps) + ";", 3;
    PrintedChars(ps);
    SemicolonsAppend(PrintList(ps), ";");
    OneSemicolon(";");
    DecodeZeros(n);
    PrintedBody(ps, ";", Zeros(n), [Plmn("000", "000")]);
    DecodeEncoded(s, n, ps + [Plmn("000", "000")]);
  }

  // ---------------------------------------------------------------------------------------------
  // Which texts are encoded faithfully
  // ---------------------------------------------------------------------------------------------

  predicate IsPair(s: string) {
    6 <= |s| <= 7 && forall i :: 0 <= i < |s| ==> if i == 3 then s[i] == ',' else IsDigit(s[i])
  }

  /** Pairs with semicolons between them. */
  predicate IsList(s: string)
    decreases |s|
  {
    var e := Find(s, ';');
    IsPair(s[..e]) && (e < |s| ==> IsList(s[e + 1..]))
  }

  lemma {:induction false} PrintedIsList(ps: seq<Plmn>)
    requires ArePlmns(ps) && ps != []
    ensures IsList(PrintList(ps))
  {
    var s, pair := PrintList(ps), ps[0].mcc + "," + ps[0].mnc;
    assert IsPair(pair);
    if |ps| == 1 {
      FindUnique(s, ';', |s|);
    } else {
      FindUnique(s, ';', |pair|);
      assert s[..|pair|] == pair && s[|pair| + 1..] == PrintList(ps[1..]);
      PrintedIsList(ps[1..]);
    }
  }

  lemma {:induction false} ListIsPrinted(s: string) returns (ps: seq<Plmn>)
    requires IsList(s)
    ensures ArePlmns(ps) && ps != [] && PrintList(ps) == s
    decreases |s|
  {
    hide Find;
    var e := Find(s, ';');
    var p := Plmn(s[..3], s[4..e]);
    assert s[..e] == p.mcc + "," + p.mnc;
    if e == |s| {
      ps := [p];
    } else {
      var rest := ListIsPrinted(s[e + 1..]);
      ps := [p] + rest;
      assert ps[1..] == rest;
      assert s == s[..e] + ";" + s[e + 1..];
    }
  }

  /** The octets say what the text says exactly when the text is a list of at most 42 pairs. */
  lemma FaithfulIffList(s: string)
    ensures (Encode(s).Some? && Decode(Encode(s).value).Some? && PrintList(Decode(Encode(s).value).value) == s)
            <==> IsList(s) && Semicolons(s) < 42
  {
    if Encode(s).Some? && Decode(Encode(s).value).Some? && PrintList(Decode(Encode(s).value).value) == s {
      PrintedIsList(Decode(Encode(s).value).value);
    }
    if IsList(s) && Semicolons(s) < 42 {
      var ps := ListIsPrinted(s);
      PrintedChars(ps);
      PrintedIsAccepted(ps);
    }
  }

  lemma FirstNibbleDecides(b: seq<byte>)
    requires b != [] && !DecimalNibbles(b[0])
    ensures DecodeBody(b).None?
  {
  }

  /** An accepted text that is no list, where the country code swallows a semicolon. */
  lemma MisplacedSemicolon(s: string)
    requires s == "1;2,34"
    ensures Encode(s).Some? && Decode(Encode(s).value).None?
  {
    hide Find, DecodeBody, Semicolons;
    FindUnique(s, ',', 3);
    var rest := s[4..];
    FindUnique(rest, ';', 2);
    SplitAt(s, 1);
    NoSemicolons(s[..1]);
    NoSemicolons(s[2..]);
    assert Next(s) == "" && Mnc(s) == s[4..];
    assert AllListChars(s) && StartsWithPair(s) && Body(Next(s)).Some?;
    var b, code := Encode(s).value, Code(s[..3], s[4..]);
    assert code[0] == 11 * 16 + 1;
    assert b[HEADER..][0] == code[0];
    FirstNibbleDecides(b[HEADER..]);
  }

  // ---------------------------------------------------------------------------------------------
  // Which texts are accepted
  // ---------------------------------------------------------------------------------------------

  /** Two pieces of a text: three characters up to a comma, two or three up to a semicolon or the end. */
  datatype Piece = Piece(mcc: string, mnc: string)

  predicate IsPiece(p: Piece) {
    && |p.mcc| == 3 && 2 <= |p.mnc| <= 3 && ',' !in p.mcc && ';' !in p.mnc
    && AllListChars(p.mcc) && AllListChars(p.mnc)
  }

  predicate ArePieces(ps: seq<Piece>) {
    forall i :: 0 <= i < |ps| ==> IsPiece(ps[i])
  }

  /** The pieces with semicolons between them, and perhaps one behind. */
  function Spell(ps: seq<Piece>, closed: bool): string {
    if ps == [] then ""
    else ps[0].mcc + "," + ps[0].mnc + if |ps| == 1 then (if closed then ";" else "") else ";" + Spell(ps[1..], closed)
  }

  function Codes(ps: seq<Piece>): (b: seq<byte>)
    requires ArePieces(ps)
    ensures |b| == 3 * |ps|
  {
    if ps == [] then [] else Code(ps[0].mcc, ps[0].mnc) + Codes(ps[1..])
  }

  /** Cutting at the first comma and the next semicolon finds the first pieces again. */
  lemma PieceFirst(p: Piece, after: string)
    requires IsPiece(p) && (after == "" || after[0] == ';')
    ensures var s := p.mcc + "," + p.mnc + after;
            && StartsWithPair(s) && s[..3] == p.mcc && Mnc(s) == p.mnc
            && Next(s) == if after == "" then "" else after[1..]
  {
    hide Find, AllListChars;
    var s := p.mcc + "," + p.mnc + after;
    FindUnique(s, ',', 3);
    var rest := s[4..];
    assert rest == p.mnc + after;
    FindUnique(rest, ';', |p.mnc|);
    if after != "" {
      assert rest[|p.mnc|..] == after;
      assert rest[|p.mnc| + 1..] == after[1..];
    }
  }

  lemma PieceChars(p: Piece, after: string)
    requires IsPiece(p) && AllListChars(after)
    ensures AllListChars(p.mcc + "," + p.mnc + after)
  {
    hide AllListChars;
    CommaIsAllowed(",");
    CharsAppend(p.mcc, ",");
    CharsAppend(p.mcc + ",", p.mnc);
    CharsAppend(p.mcc + "," + p.mnc, after);
  }

  lemma CommaIsAllowed(s: string)
    requires s == "," || s == ";" || s == ""
    ensures AllListChars(s)
  {
  }

  /** What stands behind the first piece. */
  function After(ps: seq<Piece>, closed: bool): string
    requires ps != []
  {
    if |ps| == 1 then (if closed then ";" else "") else ";" + Spell(ps[1..], closed)
  }

  lemma SpellFirst(ps: seq<Piece>, closed: bool)
    requires ps != []
    ensures Spell(ps, closed) == ps[0].mcc + "," + ps[0].mnc + After(ps, closed)
    ensures var a := After(ps, closed);
            (a == "" || a[0] == ';') && (if a == "" then "" else a[1..]) == Spell(ps[1..], closed)
  {
  }

  lemma BodyOfFirst(s: string)
    requires AllListChars(s) && s != "" && StartsWithPair(s)
    ensures |s| >= 3 && AllListChars(s[..3]) && AllListChars(Mnc(s)) && |Mnc(s)| in {2, 3} && AllListChars(Next(s))
    ensures Body(s) == Behind(Code(s[..3], Mnc(s)), Body(Next(s)))
  {
    hide Find, Code, Semicolons;
    PairUsesSemicolon(s);
  }

  /** A text made of pieces is taken apart into them. */
  lemma {:induction false} SpelledBody(ps: seq<Piece>, closed: bool)
    requires ArePieces(ps)
    ensures AllListChars(Spell(ps, closed)) && Body(Spell(ps, closed)) == Some(Codes(ps))
  {
    hide Find, Code, AllListChars, Body, Spell, Mnc, Next, StartsWithPair, IsPiece, After;
    if ps == [] {
      NothingSpelled(ps, closed);
    } else {
      var s := Spell(ps, closed);
      SpelledBody(ps[1..], closed);
      SpellFirst(ps, closed);
      AfterChars(ps, closed);
      PieceChars(ps[0], After(ps, closed));
      PieceFirst(ps[0], After(ps, closed));
      PieceNotEmpty(ps[0], After(ps, closed));
      BodyOfFirst(s);
    }
  }

  lemma PieceNotEmpty(p: Piece, after: string)
    ensures p.mcc + "," + p.mnc + after != ""
  {
    assert |p.mcc + "," + p.mnc + after| > 0;
  }

  lemma NothingSpelled(ps: seq<Piece>, closed: bool)
    requires ps == []
    ensures Spell(ps, closed) == "" && AllListChars(Spell(ps, closed)) && Body(Spell(ps, closed)) == Some([])
  {
  }

  lemma AfterChars(ps: seq<Piece>, closed: bool)
    requires ps != [] && AllListChars(Spell(ps[1..], closed))
    ensures AllListChars(After(ps, closed))
  {
    hide AllListChars;
    CommaIsAllowed(";");
    CommaIsAllowed("");
    CharsAppend(";", Spell(ps[1..], closed));
  }

  /** And every text that is accepted is made of pieces. */
  lemma {:induction false} PiecesOf(s: string) returns (ps: seq<Piece>, closed: bool)
    requires AllListChars(s) && Body(s).Some?
    ensures ArePieces(ps) && s == Spell(ps, closed) && (ps == [] ==> !closed)
    decreases |s|
  {
    hide Find, Code, AllListChars, Body, Semicolons;
    if s == "" {
      ps, closed := [], false;
    } else {
      PairNeeded(s);
      BodyOfFirst(s);
      var p := CutPiece(s);
      var more;
      more, closed := PiecesOf(Next(s));
      ps := [p] + more;
      assert ps[1..] == more;
      if more == [] {
        closed := Next(s) == "" && |s| > 4 + |p.mnc|;
      }
      Rejoin(s, p);
    }
  }

  lemma PairNeeded(s: string)
    requires AllListChars(s) && s != "" && Body(s).Some?
    ensures StartsWithPair(s) && |Next(s)| < |s|
  {
    hide Find;
  }

  lemma CutPiece(s: string) returns (p: Piece)
    requires AllListChars(s) && StartsWithPair(s)
    ensures p == Piece(s[..3], Mnc(s)) && IsPiece(p)
  {
    hide Find;
    p := Piece(s[..3], Mnc(s));
  }

  /** A text is its first pieces, a semicolon unless they end it, and the rest. */
  lemma Rejoin(s: string, p: Piece)
    requires StartsWithPair(s) && p == Piece(s[..3], Mnc(s))
    ensures |s| >= 4 + |p.mnc|
    ensures s == p.mcc + "," + p.mnc + if |s| == 4 + |p.mnc| then "" else ";" + Next(s)
    ensures |s| == 4 + |p.mnc| ==> Next(s) == ""
  {
    hide *;
    PartsOf(s);
    FrontOf(s);
    var rest := s[4..];
    var e := Find(rest, ';');
    if e < |rest| {
      BothSides(rest, e);
      Reassociate(s[..3] + ",", rest[..e], ";" + rest[e + 1..]);
    } else {
      WholeText(rest, s[..3] + ",");
    }
  }

  lemma PartsOf(s: string)
    requires StartsWithPair(s)
    ensures |s| >= 4 && s[3] == ','
    ensures var rest := s[4..]; var e := Find(rest, ';');
            && e <= |rest| && (e < |rest| ==> rest[e] == ';') && Mnc(s) == rest[..e]
            && Next(s) == if e == |rest| then "" else rest[e + 1..]
  {
    hide Find;
  }

  lemma FrontOf(s: string)
    requires |s| >= 4 && s[3] == ','
    ensures s == s[..3] + "," + s[4..]
  {
  }

  lemma WholeText(s: string, front: string)
    ensures s[..|s|] == s && front + s + "" == front + s
  {
  }

  lemma BothSides(rest: string, e: nat)
    requires e < |rest| && rest[e] == ';'
    ensures rest == rest[..e] + (";" + rest[e + 1..])
  {
  }

  lemma Reassociate(a: string, b: string, c: string)
    ensures a + (b + c) == a + b + c
  {
  }

  /** The exact texts that are accepted, and their octets. */
  lemma AcceptedIffPieces(s: string)
    ensures Encode(s).Some? <==> Semicolons(s) < 42 && exists ps, closed :: ArePieces(ps) && s == Spell(ps, closed)
    ensures forall ps, closed :: ArePieces(ps) && s == Spell(ps, closed) && Encode(s).Some? ==>
              && |Codes(ps)| <= 3 * (1 + Semicolons(s))
              && Encode(s).value == Header(1 + Semicolons(s)) + Codes(ps) + Zeros(3 * (1 + Semicolons(s)) - |Codes(ps)|)
  {
    hide Body, Semicolons, Spell, Codes, AllListChars, ArePieces;
    if Encode(s).Some? {
      var ps, closed := PiecesOf(s);
    }
    forall ps, closed | ArePieces(ps) && s == Spell(ps, closed)
      ensures AllListChars(s) && Body(s) == Some(Codes(ps))
    {
      SpelledBody(ps, closed);
    }
  }

  // ---------------------------------------------------------------------------------------------
  // The parser
  // ---------------------------------------------------------------------------------------------

  class Bss {
    var cellNet: array?<byte>

    constructor ()
      ensures cellNet == null
    {
      cellNet := null;
    }

    /**
    parse_3gpp_cell_net: on success the octets are installed, on failure nothing changes. The block is
    sized by the number of semicolons, and every octet is written inside it.
    */
    method ParseCellNet(buf: string) returns (ret: int)
      modifies this
      ensures ret == if Encode(buf).Some? then 0 else -1
      ensures ret == 0 ==> cellNet != null && fresh(cellNet) && cellNet[..] == Encode(buf).value
      ensures ret != 0 ==> cellNet == old(cellNet)
    {
      hide Semicolons, Body, Code, Find, Mnc, Next, Written;
      NoneBefore(buf);
      var count, i := 1, 0;
      while i < |buf|
        invariant 0 <= i <= |buf| && AllListChars(buf[..i]) && count == 1 + Semicolons(buf[..i])
        invariant cellNet == old(cellNet)
      {
        if (buf[i] < '0' || buf[i] > '9') && buf[i] != ';' && buf[i] != ',' {
          assert !AllListChars(buf);
          return -1;
        }
        SemicolonStep(buf, i);
        if buf[i] == ';' {
          count := count + 1;
        }
        i := i + 1;
      }
      assert buf[..i] == buf;
      if 1 + count * 3 > MAX_CONTENTS {
        return -1;
      }
      var info := new byte[HEADER + count * 3](_ => 0);
      ghost var none: seq<byte> := [];
      info[0], info[1], info[2], info[3], info[4] := 0, 3 + count * 3, 0, 1 + count * 3, count;
      NothingWritten(info, count);
      var ok := WritePairs(buf, info, count, none);
      if !ok {
        return -1;
      }
      WrittenIsEncoded(info, buf);
      cellNet := info;
      return 0;
    }
  }

  lemma NoneBefore(buf: string)
    ensures Semicolons(buf[..0]) == 0
  {
  }

  lemma SemicolonStep(buf: string, i: nat)
    requires i < |buf|
    ensures Semicolons(buf[..i + 1]) == Semicolons(buf[..i]) + if buf[i] == ';' then 1 else 0
  {
    assert buf[..i + 1][..i] == buf[..i];
  }

  lemma NothingWritten(info: array<byte>, count: nat)
    requires 1 + count * 3 <= MAX_CONTENTS && info.Length == HEADER + count * 3 && info[..HEADER] == Header(count)
    requires forall k :: HEADER <= k < info.Length ==> info[k] == 0
    ensures Written(info, count, [])
  {
    forall k | 0 <= k < HEADER
      ensures info[k] == Header(count)[k]
    {
      assert info[..HEADER][k] == info[k];
    }
  }

  /** What has been written: the header, the octets so far, and zeros. */
  ghost predicate Written(info: array<byte>, count: nat, done: seq<byte>)
    requires 1 + count * 3 <= MAX_CONTENTS && info.Length == HEADER + count * 3
    reads info
  {
    && |done| <= count * 3
    && forall k :: 0 <= k < info.Length ==>
         info[k] == if k < HEADER then Header(count)[k] else if k < HEADER + |done| then done[k - HEADER] else 0
  }

  lemma WrittenIsEncoded(info: array<byte>, buf: string)
    requires AllListChars(buf) && Body(buf).Some? && 1 + (1 + Semicolons(buf)) * 3 <= MAX_CONTENTS
    requires info.Length == HEADER + (1 + Semicolons(buf)) * 3 && Written(info, 1 + Semicolons(buf), Body(buf).value)
    ensures Encode(buf) == Some(info[..])
  {
    hide Body, Semicolons;
    var count, done := 1 + Semicolons(buf), Body(buf).value;
    assert info[..] == Header(count) + done + Zeros(count * 3 - |done|);
  }

  function Behind(done: seq<byte>, rest: Option<seq<byte>>): Option<seq<byte>> {
    if rest.None? then None else Some(done + rest.value)
  }

  lemma OntoNothing(done: seq<byte>, rest: Option<seq<byte>>)
    requires done == []
    ensures Behind(done, rest) == rest
  {
    if rest.Some? {
      assert done + rest.value == rest.value;
    }
  }

  lemma BehindNothing(done: seq<byte>, rest: Option<seq<byte>>)
    requires rest == Some([])
    ensures Behind(done, rest) == Some(done)
  {
    assert done + rest.value == done;
  }

  lemma Onto(done: seq<byte>, code: seq<byte>, rest: Option<seq<byte>>)
    ensures Behind(done, Behind(code, rest)) == Behind(done + code, rest)
  {
    if rest.Some? {
      assert done + (code + rest.value) == done + code + rest.value;
    }
  }

  /** What cutting one pair off tells about the rest. */
  lemma BodyStep(pos: string, mcc: string, mnc: string, next: string)
    requires AllListChars(pos) && Find(pos, ',') < |pos| && mcc == pos[..Find(pos, ',')] && mnc == Mnc(pos)
    requires next == Next(pos)
    ensures AllListChars(mcc) && AllListChars(mnc) && AllListChars(next) && |next| < |pos|
    ensures next != "" ==> Semicolons(pos) >= 1 + Semicolons(next)
    ensures if |mcc| == 3 && 2 <= |mnc| <= 3 then Body(pos) == Behind(Code(mcc, mnc), Body(next)) else Body(pos).None?
  {
    hide Find, Code, Semicolons;
    PairUsesSemicolon(pos);
  }

  lemma NoComma(pos: string)
    requires AllListChars(pos) && Find(pos, ',') == |pos|
    ensures Body(pos) == if pos == "" then Some([]) else None
  {
  }

  /** The second loop: the octets of every pair behind the header of a zeroed block. */
  method WritePairs(buf: string, info: array<byte>, count: nat, ghost done0: seq<byte>) returns (ok: bool)
    requires AllListChars(buf) && count == 1 + Semicolons(buf) && 1 + count * 3 <= MAX_CONTENTS
    requires info.Length == HEADER + count * 3 && Written(info, count, done0) && done0 == []
    modifies info
    ensures ok == Body(buf).Some?
    ensures ok ==> Written(info, count, Body(buf).value)
  {
    var pos, ipos := buf, HEADER;
    hide Body, Code, Semicolons, Written, Find, AllListChars;
    ghost var done := done0;
    OntoNothing(done, Body(buf));
    while pos != ""
      invariant AllListChars(pos) && ipos == HEADER + |done| && Written(info, count, done)
      invariant pos != "" ==> |done| + 3 * (1 + Semicolons(pos)) <= 3 * count
      invariant Body(buf) == Behind(done, Body(pos))
      decreases |pos|
    {
      var comma := Find(pos, ',');
      if comma == |pos| {
        NoComma(pos);
        return false;
      }
      var mcc, rest := pos[..comma], pos[comma + 1..];
      var semi := Find(rest, ';');
      var mnc := rest[..semi];
      var next := if semi == |rest| then "" else rest[semi + 1..];
      BodyStep(pos, mcc, mnc, next);
      if |mcc| != 3 || (|mnc| != 2 && |mnc| != 3) {
        return false;
      }
      WritePair(info, count, ipos, mcc, mnc, done);
      Onto(done, Code(mcc, mnc), Body(next));
      done := done + Code(mcc, mnc);
      ipos := ipos + 3;
      pos := next;
    }
    NoComma(pos);
    BehindNothing(done, Body(pos));
    return true;
  }

  method WritePair(info: array<byte>, count: nat, ipos: nat, mcc: string, mnc: string, ghost done: seq<byte>)
    requires |mcc| == 3 && 2 <= |mnc| <= 3 && AllListChars(mcc) && AllListChars(mnc)
    requires 1 + count * 3 <= MAX_CONTENTS && info.Length == HEADER + count * 3
    requires Written(info, count, done) && ipos == HEADER + |done| && |done| + 3 <= 3 * count
    modifies info
    ensures Written(info, count, done + Code(mcc, mnc))
  {
    ghost var code := Code(mcc, mnc);
    info[ipos] := Pack(mcc[1], mcc[0]);
    info[ipos + 1] := if |mnc| == 2 then (if mcc[2] == ',' then 0xfc else 0xf0 + (mcc[2] as int - '0' as int))
                      else Pack(mnc[2], mcc[2]);
    info[ipos + 2] := Pack(mnc[1], mnc[0]);
    assert [info[ipos], info[ipos + 1], info[ipos + 2]] == code;
  }
}
