/**
The text form of the key holder lists of fast BSS transition: how a list is printed into a buffer of
limited size (hostapd/ctrl_iface.c) and how a file of such lines is read (hostapd/config_file.c).
*/
module RxkhSpec {
  import opened Text

  const ETH_ALEN: nat := 6
  const KEY_LEN: nat := 32
  const OLD_KEY_LEN: nat := 16
  const FT_R0KH_ID_MAX_LEN: nat := 48
  const LINE_BUF: nat := 256

  type Mac = m: seq<byte> | |m| == ETH_ALEN witness [0, 0, 0, 0, 0, 0]
  type Key = k: seq<byte> | |k| == KEY_LEN witness seq(KEY_LEN, i => 0)

  /** hmac_sha256_kdf on an old short key; it may fail. */
  type Kdf = seq<byte> -> Option<Key>

  datatype R0kh = R0kh(addr: Mac, id: string, key: Key)
  datatype R1kh = R1kh(addr: Mac, id: Mac, key: Key)

  // ---------------------------------------------------------------------------------------------
  // MAC addresses
  // ---------------------------------------------------------------------------------------------

  /** A character that neither ends a word nor a line. */
  predicate IsWordChar(c: char) {
    c != ' ' && c != '\n' && c != NUL
  }

  /** MACSTR for the bytes `m`. */
  function MacText(m: seq<byte>): (s: string)
    ensures m != [] ==> |s| == 3 * |m| - 1
  {
    if m == [] then "" else if |m| == 1 then HexByte(m[0]) else HexByte(m[0]) + ":" + MacText(m[1..])
  }

  predicate AllWordChars(s: string) {
    forall i :: 0 <= i < |s| ==> IsWordChar(s[i]) && s[i] != '='
  }

  lemma {:induction false} MacChars(m: seq<byte>)
    ensures AllWordChars(MacText(m))
  {
    if m != [] {
      assert AllWordChars(HexByte(m[0]) + ":");
      MacChars(m[1..]);
    }
  }

  /** hwaddr_parse for `n` bytes; what follows them is not looked at. */
  function ParseMac(s: string, n: nat): (r: Option<seq<byte>>)
    requires n > 0
    ensures r.Some? ==> |r.value| == n
  {
    var b := ParseHexByte(s);
    if b.None? then None
    else if n == 1 then Some([b.value])
    else if |s| < 3 || s[2] != ':' then None
    else
      var rest := ParseMac(s[3..], n - 1);
      if rest.None? then None else Some([b.value] + rest.value)
  }

  lemma {:induction false} MacRoundTrip(m: seq<byte>, rest: string)
    requires m != []
    ensures ParseMac(MacText(m) + rest, |m|) == Some(m)
  {
    hide HexByte, ParseHexByte;
    if |m| == 1 {
      HexByteParses(m[0], rest);
      assert m == [m[0]];
    } else {
      var more := MacText(m[1..]) + rest;
      assert MacText(m) + rest == HexByte(m[0]) + (":" + more);
      assert (HexByte(m[0]) + (":" + more))[3..] == more;
      HexByteParses(m[0], ":" + more);
      MacRoundTrip(m[1..], rest);
      assert m == [m[0]] + m[1..];
    }
  }

  // ---------------------------------------------------------------------------------------------
  // Printing
  // ---------------------------------------------------------------------------------------------

  /** One line to print: everything before the key, and the key. */
  datatype Job = Job(prefix: string, key: Key)

  function Job0(e: R0kh): Job {
    Job("r0kh=" + MacText(e.addr) + " " + e.id + " ", e.key)
  }

  function Job1(e: R1kh): Job {
    Job("r1kh=" + MacText(e.addr) + " " + MacText(e.id) + " ", e.key)
  }

  function Jobs0(es: seq<R0kh>): (js: seq<Job>)
    ensures |js| == |es|
    ensures forall i :: 0 <= i < |es| ==> js[i] == Job0(es[i])
  {
    if es == [] then [] else [Job0(es[0])] + Jobs0(es[1..])
  }

  function Jobs1(es: seq<R1kh>): (js: seq<Job>)
    ensures |js| == |es|
    ensures forall i :: 0 <= i < |es| ==> js[i] == Job1(es[i])
  {
    if es == [] then [] else [Job1(es[0])] + Jobs1(es[1..])
  }

  /** The line with the first `n` bytes of the key. */
  function LineOf(j: Job, n: nat): (s: string)
    requires n <= KEY_LEN
    ensures |s| == |j.prefix| + 2 * n + 1
  {
    j.prefix + HexOf(j.key[..n]) + "\n"
  }

  /** All lines, complete. */
  function FullText(js: seq<Job>): (s: string) {
    if js == [] then "" else LineOf(js[0], KEY_LEN) + FullText(js[1..])
  }

  /** How many key bytes wpa_snprintf_hex prints when `left` characters are left. */
  function KeyBytes(left: nat): (n: nat)
    requires left > 0
    ensures n <= KEY_LEN && 2 * n < left
  {
    if (left - 1) / 2 < KEY_LEN then (left - 1) / 2 else KEY_LEN
  }

  /** The line as printed when `room` characters are left; None makes the printer stop. */
  function Emit(j: Job, room: nat): (r: Option<string>)
    ensures r.Some? ==> 0 < |r.value| < room
  {
    if |j.prefix| >= room then None
    else
      var n := KeyBytes(room - |j.prefix|);
      if |j.prefix| + 2 * n + 1 >= room then None else Some(LineOf(j, n))
  }

  /** The reply to GET_RXKHS in a buffer of `room` characters. */
  function Listing(js: seq<Job>, room: nat): (s: string)
    ensures |s| <= room
  {
    if js == [] then ""
    else
      var line := Emit(js[0], room);
      if line.None? then "" else line.value + Listing(js[1..], room - |line.value|)
  }

  /**
  Printing meets a line that does not fit and stops inside its key with exactly two characters left:
  the newline then fits and the cut line is reported as a whole one.
  */
  predicate CutsKey(js: seq<Job>, room: nat) {
    js != []
    && if |LineOf(js[0], KEY_LEN)| < room then CutsKey(js[1..], room - |LineOf(js[0], KEY_LEN)|)
       else |js[0].prefix| < room && (room - |js[0].prefix|) % 2 == 0
  }

  lemma EmitCases(j: Job, room: nat)
    ensures |LineOf(j, KEY_LEN)| < room ==> Emit(j, room) == Some(LineOf(j, KEY_LEN))
    ensures |LineOf(j, KEY_LEN)| >= room && CutsKey([j], room) ==>
              Emit(j, room).Some? && |Emit(j, room).value| == room - 1
    ensures |LineOf(j, KEY_LEN)| >= room && !CutsKey([j], room) ==> Emit(j, room).None?
  {
  }

  lemma FullTextTake(js: seq<Job>, k: nat)
    requires 0 < k <= |js|
    ensures FullText(js[..k]) == LineOf(js[0], KEY_LEN) + FullText(js[1..][..k - 1])
  {
    assert js[..k][1..] == js[1..][..k - 1] && js[..k][0] == js[0];
  }

  /** With room for the whole text and its terminator, the listing is complete. */
  lemma {:induction false} ListingComplete(js: seq<Job>, room: nat)
    requires |FullText(js)| < room
    ensures Listing(js, room) == FullText(js)
  {
    if js != [] {
      EmitCases(js[0], room);
      ListingComplete(js[1..], room - |LineOf(js[0], KEY_LEN)|);
    }
  }

  predicate IsWholeLines(js: seq<Job>, s: string) {
    exists k :: 0 <= k <= |js| && s == FullText(js[..k])
  }

  lemma {:induction false} WholeLinesUnlessCut(js: seq<Job>, room: nat)
    requires !CutsKey(js, room)
    ensures IsWholeLines(js, Listing(js, room))
  {
    assert js[..0] == [];
    if js != [] {
      EmitCases(js[0], room);
      if |LineOf(js[0], KEY_LEN)| < room {
        var left := room - |LineOf(js[0], KEY_LEN)|;
        WholeLinesUnlessCut(js[1..], left);
        var k :| 0 <= k <= |js[1..]| && Listing(js[1..], left) == FullText(js[1..][..k]);
        FullTextTake(js, k + 1);
      }
    }
  }

  lemma AppendCancel(a: string, b: string, c: string)
    ensures a + b == a + c ==> b == c
  {
    if a + b == a + c {
      assert b == (a + b)[|a|..] == c;
    }
  }

  lemma {:induction false} CutIsNotWhole(js: seq<Job>, room: nat, k: nat)
    requires CutsKey(js, room) && k <= |js|
    ensures |Listing(js, room)| == room - 1
    ensures Listing(js, room) != FullText(js[..k])
  {
    hide Emit, LineOf;
    EmitCases(js[0], room);
    assert k == 0 ==> FullText(js[..k]) == "";
    if k > 0 {
      FullTextTake(js, k);
    }
    if |LineOf(js[0], KEY_LEN)| < room {
      var k1, left := if k > 0 then k - 1 else 0, room - |LineOf(js[0], KEY_LEN)|;
      CutIsNotWhole(js[1..], left, k1);
      AppendCancel(LineOf(js[0], KEY_LEN), Listing(js[1..], left), FullText(js[1..][..k1]));
    } else {
      NoRoomLeft(js[1..]);
    }
  }

  lemma NoRoomLeft(js: seq<Job>)
    ensures Listing(js, 1) == ""
  {
    if js != [] {
      assert Emit(js[0], 1).None?;
    }
  }

  /** The printer gives whole lines only, exactly when it does not stop at an even distance inside a key. */
  lemma WholeLinesIff(js: seq<Job>, room: nat)
    ensures IsWholeLines(js, Listing(js, room)) <==> !CutsKey(js, room)
  {
    if CutsKey(js, room) {
      forall k | 0 <= k <= |js|
        ensures Listing(js, room) != FullText(js[..k])
      {
        CutIsNotWhole(js, room, k);
      }
    } else {
      WholeLinesUnlessCut(js, room);
    }
  }

  /** How many lines fit completely. */
  function WholeCount(js: seq<Job>, room: nat): (k: nat)
    ensures k <= |js|
  {
    if js == [] || |LineOf(js[0], KEY_LEN)| >= room then 0
    else 1 + WholeCount(js[1..], room - |LineOf(js[0], KEY_LEN)|)
  }

  /** These are as many as the room allows: they fit, and one more does not. */
  lemma {:induction false} WholeCountIsMost(js: seq<Job>, room: nat)
    ensures var k := WholeCount(js, room);
            && (k > 0 ==> |FullText(js[..k])| < room) && (k < |js| ==> |FullText(js[..k + 1])| >= room)
  {
    hide LineOf;
    if js != [] && |LineOf(js[0], KEY_LEN)| < room {
      var left := room - |LineOf(js[0], KEY_LEN)|;
      var k := WholeCount(js[1..], left);
      WholeCountIsMost(js[1..], left);
      FullTextTake(js, k + 1);
      NoText(js[1..][..0]);
      if k < |js[1..]| {
        FullTextTake(js, k + 2);
      }
    } else if js != [] {
      FullTextTake(js, 1);
      NoText(js[1..][..0]);
    }
  }

  lemma NoText(js: seq<Job>)
    requires js == []
    ensures FullText(js) == ""
  {
  }

  /** The reply is `whole` and a line cut inside its key, and leaves just one character unused. */
  predicate EndsCut(reply: string, whole: string, j: Job, room: nat) {
    |reply| + 1 == room && exists n :: 0 <= n < KEY_LEN && reply == whole + LineOf(j, n)
  }

  /**
  The whole reply, for every room: as many whole lines as fit, and behind them, exactly when the printer stops
  at an even distance inside the next key, that line cut there.
  */
  lemma {:induction false} ListingIs(js: seq<Job>, room: nat)
    ensures var k := WholeCount(js, room);
            if CutsKey(js, room) then k < |js| && EndsCut(Listing(js, room), FullText(js[..k]), js[k], room)
            else Listing(js, room) == FullText(js[..k])
  {
    hide LineOf, Emit, EndsCut;
    NoText(js[..0]);
    if js != [] {
      var line := LineOf(js[0], KEY_LEN);
      if |line| < room {
        EmitCases(js[0], room);
        var k, rest := WholeCount(js[1..], room - |line|), Listing(js[1..], room - |line|);
        ListingIs(js[1..], room - |line|);
        FullTextTake(js, k + 1);
        if CutsKey(js, room) {
          CutBehind(line, rest, FullText(js[1..][..k]), js[k + 1], room);
        }
      } else {
        CutFirst(js, room);
      }
    }
  }

  lemma CutBehind(line: string, reply: string, whole: string, j: Job, room: nat)
    requires |line| < room && EndsCut(reply, whole, j, room - |line|)
    ensures EndsCut(line + reply, line + whole, j, room)
  {
    hide LineOf;
    var n :| 0 <= n < KEY_LEN && reply == whole + LineOf(j, n);
    assert line + (whole + LineOf(j, n)) == (line + whole) + LineOf(j, n);
  }

  lemma CutFirst(js: seq<Job>, room: nat)
    requires js != [] && |LineOf(js[0], KEY_LEN)| >= room
    ensures if CutsKey(js, room) then EndsCut(Listing(js, room), "", js[0], room) else Listing(js, room) == ""
  {
    EmitCases(js[0], room);
    if CutsKey(js, room) {
      var n := KeyBytes(room - |js[0].prefix|);
      NoRoomLeft(js[1..]);
      var line := LineOf(js[0], n);
      assert Emit(js[0], room) == Some(line);
      assert Listing(js, room) == line + "" == "" + line;
    }
  }

  // ---------------------------------------------------------------------------------------------
  // Reading
  // ---------------------------------------------------------------------------------------------

  /** rkh_derive_key: a long key, or else a short one stretched. */
  function DeriveKey(s: string, kdf: Kdf): Option<Key> {
    var long := ParseHex(s, KEY_LEN);
    if long.Some? then Some(long.value)
    else
      var short := ParseHex(s, OLD_KEY_LEN);
      if short.None? then None else kdf(short.value)
  }

  /** add_r0kh */
  function ParseR0kh(value: string, kdf: Kdf): Option<R0kh> {
    var sp := Find(value, ' ');
    if sp == |value| || ParseMac(value[..sp], ETH_ALEN).None? then None
    else
      var rest := value[sp + 1..];
      var sp2 := Find(rest, ' ');
      if sp2 == |rest| || sp2 + 1 > FT_R0KH_ID_MAX_LEN then None
      else
        var key := DeriveKey(rest[sp2 + 1..], kdf);
        if key.None? then None else Some(R0kh(ParseMac(value[..sp], ETH_ALEN).value, rest[..sp2], key.value))
  }

  /** add_r1kh */
  function ParseR1kh(value: string, kdf: Kdf): Option<R1kh> {
    var sp := Find(value, ' ');
    if sp == |value| || ParseMac(value[..sp], ETH_ALEN).None? then None
    else
      var rest := value[sp + 1..];
      var sp2 := Find(rest, ' ');
      if sp2 == |rest| || ParseMac(rest[..sp2], ETH_ALEN).None? then None
      else
        var key := DeriveKey(rest[sp2 + 1..], kdf);
        if key.None? then None
        else Some(R1kh(ParseMac(value[..sp], ETH_ALEN).value, ParseMac(rest[..sp2], ETH_ALEN).value, key.value))
  }

  /** The lists of a configuration and the errors met so far. */
  datatype Lists = Lists(r0: seq<R0kh>, r1: seq<R1kh>, errors: nat)

  function Added0(st: Lists, e: Option<R0kh>): Lists {
    if e.None? then st.(errors := st.errors + 1) else st.(r0 := [e.value] + st.r0)
  }

  function Added1(st: Lists, e: Option<R1kh>): Lists {
    if e.None? then st.(errors := st.errors + 1) else st.(r1 := [e.value] + st.r1)
  }

  /** The part of a buffer before its first newline or NUL. */
  function Content(chunk: string): (s: string)
    ensures forall i :: 0 <= i < |s| ==> s[i] != '\n' && s[i] != NUL
  {
    chunk[..if Find(chunk, '\n') < Find(chunk, NUL) then Find(chunk, '\n') else Find(chunk, NUL)]
  }

  function ReadLine(chunk: string, st: Lists, kdf: Kdf): Lists {
    var s := Content(chunk);
    if s == "" || s[0] == '#' then st
    else
      var eq := Find(s, '=');
      if eq == |s| then st.(errors := st.errors + 1)
      else if s[..eq] == "r0kh" then Added0(st, ParseR0kh(s[eq + 1..], kdf))
      else if s[..eq] == "r1kh" then Added1(st, ParseR1kh(s[eq + 1..], kdf))
      else st
  }

  /** The loop of hostapd_config_read_rxkh_file over the rest of the file. */
  function ReadFrom(text: string, st: Lists, kdf: Kdf): Lists
    decreases |text|
  {
    if text == "" then st
    else
      var n := FgetsLen(text, LINE_BUF);
      ReadFrom(text[n..], ReadLine(text[..n], st, kdf), kdf)
  }

  // ---------------------------------------------------------------------------------------------
  // Printing, then reading
  // ---------------------------------------------------------------------------------------------

  /** An identifier that can be told apart in a line. */
  predicate PlainId(id: string) {
    |id| < FT_R0KH_ID_MAX_LEN && forall i :: 0 <= i < |id| ==> IsWordChar(id[i])
  }

  predicate AllPlain(es: seq<R0kh>) {
    forall i :: 0 <= i < |es| ==> PlainId(es[i].id)
  }

  lemma {:induction false} KeyText(bs: seq<byte>)
    ensures AllWordChars(HexOf(bs))
  {
    HexOfIsHex(bs);
  }

  lemma HexOfAppend(a: seq<byte>, b: seq<byte>)
    ensures HexOf(a + b) == HexOf(a) + HexOf(b)
  {
    if a == [] {
      assert a + b == b;
    } else {
      HexOfAppend(a[1..], b);
      assert (a + b)[1..] == a[1..] + b;
    }
  }

  /** What a key printed in part is read as: a whole key, an old short key, or nothing. */
  lemma DeriveCutKey(key: Key, n: nat, kdf: Kdf)
    requires n <= KEY_LEN
    ensures DeriveKey(HexOf(key[..n]), kdf)
            == if n == KEY_LEN then Some(key) else if n >= OLD_KEY_LEN then kdf(key[..OLD_KEY_LEN]) else None
  {
    if n == KEY_LEN {
      assert key[..n] == key && HexOf(key) + "" == HexOf(key);
      HexRoundTrip(key, "");
    } else if n >= OLD_KEY_LEN {
      assert key[..n] == key[..OLD_KEY_LEN] + key[OLD_KEY_LEN..n];
      HexOfAppend(key[..OLD_KEY_LEN], key[OLD_KEY_LEN..n]);
      HexRoundTrip(key[..OLD_KEY_LEN], HexOf(key[OLD_KEY_LEN..n]));
    }
  }

  /** Two words and a key separated by single spaces are found again. */
  lemma SplitWords(a: string, b: string, c: string)
    requires ' ' !in a && ' ' !in b
    ensures var v := a + " " + b + " " + c;
            && Find(v, ' ') == |a| && v[..|a|] == a
            && var rest := v[|a| + 1..]; Find(rest, ' ') == |b| && rest[..|b|] == b && rest[|b| + 1..] == c
  {
    var v := a + " " + b + " " + c;
    var rest := v[|a| + 1..];
    assert rest == b + " " + c;
    FindUnique(v, ' ', |a|);
    FindUnique(rest, ' ', |b|);
  }

  lemma ReadValue0(e: R0kh, n: nat, kdf: Kdf)
    requires PlainId(e.id) && n <= KEY_LEN
    ensures var key := DeriveKey(HexOf(e.key[..n]), kdf);
            ParseR0kh(MacText(e.addr) + " " + e.id + " " + HexOf(e.key[..n]), kdf)
            == if key.None? then None else Some(e.(key := key.value))
  {
    MacChars(e.addr);
    SplitWords(MacText(e.addr), e.id, HexOf(e.key[..n]));
    MacRoundTrip(e.addr, "");
    assert MacText(e.addr) + "" == MacText(e.addr);
  }

  lemma ReadValue1(e: R1kh, n: nat, kdf: Kdf)
    requires n <= KEY_LEN
    ensures var key := DeriveKey(HexOf(e.key[..n]), kdf);
            ParseR1kh(MacText(e.addr) + " " + MacText(e.id) + " " + HexOf(e.key[..n]), kdf)
            == if key.None? then None else Some(e.(key := key.value))
  {
    MacChars(e.addr);
    MacChars(e.id);
    SplitWords(MacText(e.addr), MacText(e.id), HexOf(e.key[..n]));
    MacRoundTrip(e.addr, "");
    MacRoundTrip(e.id, "");
    assert MacText(e.addr) + "" == MacText(e.addr) && MacText(e.id) + "" == MacText(e.id);
  }

  /** A line `name=value` is recognised as such. */
  lemma LineContent(name: string, value: string)
    requires name != "" && name[0] != '#' && '=' !in name && |name| + |value| + 2 < LINE_BUF
    requires forall i :: 0 <= i < |name| ==> name[i] != '\n' && name[i] != NUL
    requires forall i :: 0 <= i < |value| ==> value[i] != '\n' && value[i] != NUL
    ensures var s := name + "=" + value;
            && IsLine(s + "\n") && Content(s + "\n") == s && Find(s, '=') == |name| && s[..|name|] == name
            && s[|name| + 1..] == value
  {
    var s := name + "=" + value;
    FindUnique(s + "\n", '\n', |s|);
    FindUnique(s + "\n", NUL, |s| + 1);
    FindUnique(s, '=', |name|);
  }

  function Value0(e: R0kh, n: nat): string
    requires n <= KEY_LEN
  {
    MacText(e.addr) + " " + e.id + " " + HexOf(e.key[..n])
  }

  function Value1(e: R1kh, n: nat): string
    requires n <= KEY_LEN
  {
    MacText(e.addr) + " " + MacText(e.id) + " " + HexOf(e.key[..n])
  }

  lemma ReadOneLine(line: string, rest: string, st: Lists, kdf: Kdf)
    requires IsLine(line) && |line| < LINE_BUF
    ensures ReadFrom(line + rest, st, kdf) == ReadFrom(rest, ReadLine(line, st, kdf), kdf)
  {
    FgetsTakesLine(line, rest, LINE_BUF);
    assert (line + rest)[..|line|] == line && (line + rest)[|line|..] == rest;
  }

  /** A printed line, whole or cut, is one line for the reader, whatever follows. */
  lemma ReadLine0(e: R0kh, n: nat, rest: string, st: Lists, kdf: Kdf)
    requires PlainId(e.id) && n <= KEY_LEN
    ensures ReadFrom(LineOf(Job0(e), n) + rest, st, kdf) == ReadFrom(rest, Added0(st, ParseR0kh(Value0(e, n), kdf)), kdf)
  {
    hide ReadFrom, ParseR0kh, Content, Find, MacText, HexOf;
    var line, value := LineOf(Job0(e), n), Value0(e, n);
    MacChars(e.addr);
    KeyText(e.key[..n]);
    LineContent("r0kh", value);
    assert line == "r0kh" + "=" + value + "\n";
    ReadOneLine(line, rest, st, kdf);
  }

  lemma ReadLine1(e: R1kh, n: nat, rest: string, st: Lists, kdf: Kdf)
    requires n <= KEY_LEN
    ensures ReadFrom(LineOf(Job1(e), n) + rest, st, kdf) == ReadFrom(rest, Added1(st, ParseR1kh(Value1(e, n), kdf)), kdf)
  {
    hide ReadFrom, ParseR1kh, Content, Find, MacText, HexOf;
    var line, value := LineOf(Job1(e), n), Value1(e, n);
    MacChars(e.addr);
    MacChars(e.id);
    KeyText(e.key[..n]);
    LineContent("r1kh", value);
    assert line == "r1kh" + "=" + value + "\n";
    ReadOneLine(line, rest, st, kdf);
  }

  /** A whole line is read as its entry. */
  lemma ReadWhole0(e: R0kh, rest: string, st: Lists, kdf: Kdf)
    requires PlainId(e.id)
    ensures ReadFrom(LineOf(Job0(e), KEY_LEN) + rest, st, kdf) == ReadFrom(rest, st.(r0 := [e] + st.r0), kdf)
  {
    ReadLine0(e, KEY_LEN, rest, st, kdf);
    ReadValue0(e, KEY_LEN, kdf);
    DeriveCutKey(e.key, KEY_LEN, kdf);
  }

  lemma ReadWhole1(e: R1kh, rest: string, st: Lists, kdf: Kdf)
    ensures ReadFrom(LineOf(Job1(e), KEY_LEN) + rest, st, kdf) == ReadFrom(rest, st.(r1 := [e] + st.r1), kdf)
  {
    ReadLine1(e, KEY_LEN, rest, st, kdf);
    ReadValue1(e, KEY_LEN, kdf);
    DeriveCutKey(e.key, KEY_LEN, kdf);
  }

  lemma FullTextFirst(line: string, text: string, rest: string)
    ensures (line + text) + rest == line + (text + rest)
  {
  }

  lemma ReversedOnto<T>(s: seq<T>, onto: seq<T>)
    ensures s == [] ==> Reversed(s) + onto == onto
    ensures s != [] ==> Reversed(s) + onto == Reversed(s[1..]) + ([s[0]] + onto)
  {
  }

  lemma {:induction false} ReadAll0(es: seq<R0kh>, rest: string, st: Lists, kdf: Kdf)
    requires AllPlain(es)
    ensures ReadFrom(FullText(Jobs0(es)) + rest, st, kdf) == ReadFrom(rest, st.(r0 := Reversed(es) + st.r0), kdf)
  {
    hide ReadFrom, LineOf, Reversed;
    ReversedOnto(es, st.r0);
    if es == [] {
      assert FullText(Jobs0(es)) + rest == rest;
    } else {
      assert Jobs0(es)[1..] == Jobs0(es[1..]);
      var text := FullText(Jobs0(es[1..]));
      FullTextFirst(LineOf(Job0(es[0]), KEY_LEN), text, rest);
      ReadWhole0(es[0], text + rest, st, kdf);
      ReadAll0(es[1..], rest, st.(r0 := [es[0]] + st.r0), kdf);
    }
  }

  lemma {:induction false} ReadAll1(es: seq<R1kh>, rest: string, st: Lists, kdf: Kdf)
    ensures ReadFrom(FullText(Jobs1(es)) + rest, st, kdf) == ReadFrom(rest, st.(r1 := Reversed(es) + st.r1), kdf)
  {
    hide ReadFrom, LineOf, Reversed;
    ReversedOnto(es, st.r1);
    if es == [] {
      assert FullText(Jobs1(es)) + rest == rest;
    } else {
      assert Jobs1(es)[1..] == Jobs1(es[1..]);
      var text := FullText(Jobs1(es[1..]));
      FullTextFirst(LineOf(Job1(es[0]), KEY_LEN), text, rest);
      ReadWhole1(es[0], text + rest, st, kdf);
      ReadAll1(es[1..], rest, st.(r1 := [es[0]] + st.r1), kdf);
    }
  }

  lemma {:induction false} FullTextAppend(a: seq<Job>, b: seq<Job>)
    ensures FullText(a + b) == FullText(a) + FullText(b)
  {
    hide LineOf;
    if a == [] {
      assert a + b == b;
    } else {
      FullTextAppend(a[1..], b);
      assert (a + b)[1..] == a[1..] + b;
    }
  }

  /** The whole reply for a configuration. */
  function Jobs(r0: seq<R0kh>, r1: seq<R1kh>): seq<Job> {
    Jobs0(r0) + Jobs1(r1)
  }

  /** Reading back a reply that had room enough gives the same lists in reverse order, without errors. */
  lemma PrintReadReverses(r0: seq<R0kh>, r1: seq<R1kh>, room: nat, st: Lists, kdf: Kdf)
    requires AllPlain(r0) && |FullText(Jobs(r0, r1))| < room
    ensures ReadFrom(Listing(Jobs(r0, r1), room), st, kdf)
            == Lists(Reversed(r0) + st.r0, Reversed(r1) + st.r1, st.errors)
  {
    ListingComplete(Jobs(r0, r1), room);
    FullTextAppend(Jobs0(r0), Jobs1(r1));
    var text1 := FullText(Jobs1(r1));
    ReadAll0(r0, text1, st, kdf);
    assert text1 + "" == text1;
    ReadAll1(r1, "", st.(r0 := Reversed(r0) + st.r0), kdf);
  }

  lemma ReversedTwice<T>(s: seq<T>)
    ensures Reversed(Reversed(s)) == s
  {
  }

  lemma {:induction false} ReversedLength0(es: seq<R0kh>)
    ensures |FullText(Jobs0(Reversed(es)))| == |FullText(Jobs0(es))|
  {
    if es != [] {
      ReversedLength0(es[1..]);
      assert Jobs0(Reversed(es)) == Jobs0(Reversed(es[1..])) + [Job0(es[0])];
      FullTextAppend(Jobs0(Reversed(es[1..])), [Job0(es[0])]);
      assert Jobs0(es)[1..] == Jobs0(es[1..]);
    }
  }

  lemma {:induction false} ReversedLength1(es: seq<R1kh>)
    ensures |FullText(Jobs1(Reversed(es)))| == |FullText(Jobs1(es))|
  {
    if es != [] {
      ReversedLength1(es[1..]);
      assert Jobs1(Reversed(es)) == Jobs1(Reversed(es[1..])) + [Job1(es[0])];
      FullTextAppend(Jobs1(Reversed(es[1..])), [Job1(es[0])]);
      assert Jobs1(es)[1..] == Jobs1(es[1..]);
    }
  }

  /** Printing and reading twice is the identity. */
  lemma PrintReadTwice(r0: seq<R0kh>, r1: seq<R1kh>, room: nat, empty: Lists, kdf: Kdf)
    requires AllPlain(r0) && |FullText(Jobs(r0, r1))| < room && empty == Lists([], [], 0)
    ensures var once := ReadFrom(Listing(Jobs(r0, r1), room), empty, kdf);
            ReadFrom(Listing(Jobs(once.r0, once.r1), room), empty, kdf) == Lists(r0, r1, 0)
  {
    hide FullText, ReadFrom, Listing, Reversed, Jobs0, Jobs1;
    PrintReadReverses(r0, r1, room, empty, kdf);
    var back0, back1 := Reversed(r0), Reversed(r1);
    assert back0 + [] == back0 && back1 + [] == back1;
    FullTextAppend(Jobs0(r0), Jobs1(r1));
    FullTextAppend(Jobs0(back0), Jobs1(back1));
    ReversedLength0(r0);
    ReversedLength1(r1);
    PrintReadReverses(back0, back1, room, empty, kdf);
    ReversedTwice(r0);
    ReversedTwice(r1);
    assert r0 + [] == r0 && r1 + [] == r1;
  }

  // ---------------------------------------------------------------------------------------------
  // Any file
  // ---------------------------------------------------------------------------------------------

  /** Every identifier that any file yields can be printed and read again. */
  lemma {:induction false} ReadIsPlain(text: string, st: Lists, kdf: Kdf)
    requires AllPlain(st.r0)
    ensures AllPlain(ReadFrom(text, st, kdf).r0)
    decreases |text|
  {
    if text != "" {
      var n := FgetsLen(text, LINE_BUF);
      ReadIsPlain(text[n..], ReadLine(text[..n], st, kdf), kdf);
    }
  }

  /** A reply cut inside a key is misread: the last entry gets another key when half the key was printed. */
  lemma CutLineIsMisread(e: R0kh, n: nat, st: Lists, kdf: Kdf)
    requires PlainId(e.id) && n < KEY_LEN
    ensures var short := kdf(e.key[..OLD_KEY_LEN]);
            ReadFrom(LineOf(Job0(e), n), st, kdf)
            == if n >= OLD_KEY_LEN && short.Some? then st.(r0 := [e.(key := short.value)] + st.r0)
               else st.(errors := st.errors + 1)
  {
    var line := LineOf(Job0(e), n);
    assert line + "" == line;
    ReadLine0(e, n, "", st, kdf);
    ReadValue0(e, n, kdf);
    DeriveCutKey(e.key, n, kdf);
  }

  /** The same for a cut R1KH line. */
  lemma CutR1khLineIsMisread(e: R1kh, n: nat, st: Lists, kdf: Kdf)
    requires n < KEY_LEN
    ensures var short := kdf(e.key[..OLD_KEY_LEN]);
            ReadFrom(LineOf(Job1(e), n), st, kdf)
            == if n >= OLD_KEY_LEN && short.Some? then st.(r1 := [e.(key := short.value)] + st.r1)
               else st.(errors := st.errors + 1)
  {
    var line := LineOf(Job1(e), n);
    assert line + "" == line;
    ReadLine1(e, n, "", st, kdf);
    ReadValue1(e, n, kdf);
    DeriveCutKey(e.key, n, kdf);
  }
}
