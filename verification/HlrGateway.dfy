/**
The HLR/AuC gateway process (hostapd/hlr_auc_gw.c): its subscriber list, the AKA requests it serves,
and the key file it loads and rewrites. The Milenage algorithms are parameters.
*/
module HlrGateway {
  import opened Text
  import opened HlrSqn
  import opened HlrFile
  import opened EapSimPeer

  const AUTS_LEN: nat := 14
  const RAND_LEN: nat := 16
  // the reply buffer of process
  const RESP_SIZE: nat := 1000

  type Block = s: seq<byte> | |s| == 16 witness seq(16, _ => 0)
  type Res = s: seq<byte> | |s| <= RES_MAX_LEN

  /** Output of milenage_generate. */
  datatype Vector = Vector(autn: Block, ik: Block, ck: Block, res: Res)

  /** What milenage_generate and milenage_auts are given. */
  datatype GenerateIn = GenerateIn(opc: seq<byte>, amf: seq<byte>, ki: seq<byte>, sqn: SqnBytes, rand: Block)
  datatype ResyncIn = ResyncIn(opc: seq<byte>, ki: seq<byte>, rand: seq<byte>, auts: seq<byte>)

  type Generate = GenerateIn -> Vector
  /** SQN_MS when MAC-S is correct. */
  type Resync = ResyncIn -> Option<SqnBytes>

  // ---------------------------------------------------------------------------------------------
  // Requests on values
  // ---------------------------------------------------------------------------------------------

  /** The subscribers after a vector has been issued to the one at index `i`. */
  function Advanced(db: seq<Params>, i: nat, indLen: IndLen): seq<Params>
    requires i < |db|
  {
    db[i := db[i].(sqn := Encode(Inc(Decode(db[i].sqn), indLen)))]
  }

  /** AKA-REQ-AUTH: a vector is issued iff the IMSI is known and random bytes are available. */
  function AfterRequest(db: seq<Params>, imsi: string, rand: Option<Block>, indLen: IndLen): (r: seq<Params>)
    ensures |r| == |db|
  {
    var i := Lookup(db, imsi);
    if i < |db| && rand.Some? then Advanced(db, i, indLen) else db
  }

  /** The three fields of `<IMSI> <AUTS> <RAND>`. */
  datatype AutsRequest = AutsRequest(imsi: string, auts: seq<byte>, rand: seq<byte>)

  function ParseAuts(text: string): Option<AutsRequest> {
    var a := Find(text, ' ');
    if a == |text| then None
    else
      var rest := text[a + 1..];
      var b := Find(rest, ' ');
      if b == |rest| then None
      else
        var auts := ParseHex(rest[..b], AUTS_LEN);
        var rand := ParseHex(rest[b + 1..], RAND_LEN);
        if auts.None? || rand.None? then None
        else Some(AutsRequest(text[..a], auts.value, rand.value))
  }

  /** The sequence number an AKA-AUTS command installs, and for whom; None when it changes nothing. */
  function Resynced(db: seq<Params>, text: string, resync: Resync): (r: Option<(nat, SqnBytes)>)
    ensures r.Some? ==> r.value.0 < |db|
  {
    var q := ParseAuts(text);
    if q.None? then None
    else
      var i := Lookup(db, q.value.imsi);
      if i == |db| then None
      else
        var sqn := resync(ResyncIn(db[i].opc, db[i].ki, q.value.rand, q.value.auts));
        if sqn.None? then None else Some((i, sqn.value))
  }

  function AfterAuts(db: seq<Params>, text: string, resync: Resync): (r: seq<Params>)
    ensures |r| == |db|
  {
    var q := Resynced(db, text, resync);
    if q.None? then db else db[q.value.0 := db[q.value.0].(sqn := q.value.1)]
  }

  /** The part of RES that is sent. */
  function SentRes(res: seq<byte>, resLen: nat): seq<byte> {
    if RES_MIN_LEN <= resLen <= RES_MAX_LEN && resLen < |res| then res[..resLen] else res
  }

  function ResponseText(imsi: string, rand: Block, v: Vector, resLen: nat): (s: string)
    ensures |s| <= |imsi| + 179
  {
    "AKA-RESP-AUTH " + imsi + " " + HexOf(rand) + " " + HexOf(v.autn) + " " + HexOf(v.ik) + " " + HexOf(v.ck)
    + " " + HexOf(SentRes(v.res, resLen))
  }

  // ---------------------------------------------------------------------------------------------
  // What the peer makes of a reply
  // ---------------------------------------------------------------------------------------------

  /** The peer reads `resp` as the vector `v` for this IMSI, its RES cut to `resLen` bytes if that is allowed. */
  predicate Delivers(resp: string, imsi: string, rand: Block, v: Vector, resLen: nat) {
    var q := Receive(resp);
    && q.Some? && q.value.cmd == "AKA-RESP-AUTH" && q.value.imsi == imsi
    && var r := ReadAka(q.value.body);
       && r.Some? && r.value.AkaVector?
       && r.value.rand == rand && r.value.autn == v.autn && r.value.ik == v.ik && r.value.ck == v.ck
       && r.value.res <= v.res
       && |r.value.res| == if 4 <= resLen <= 16 && resLen < |v.res| then resLen else |v.res|
  }

  predicate DeliversFailure(resp: string, imsi: string) {
    var q := Receive(resp);
    q.Some? && q.value.cmd == "AKA-RESP-AUTH" && q.value.imsi == imsi && ReadAka(q.value.body) == Some(AkaFailure)
  }

  lemma NameFirst(cmd: string, imsi: string, body: string)
    ensures cmd + " " + imsi + " " + body == cmd + (" " + (imsi + (" " + body)))
  {
  }

  lemma FieldsNested(a: string, b: string, c: string, d: string, e: string)
    ensures a + " " + b + " " + c + " " + d + " " + e == a + (" " + (b + (" " + (c + (" " + (d + (" " + e)))))))
  {
  }

  lemma FrontFirst(front: string, a: string, b: string, c: string, d: string, e: string)
    ensures front + a + " " + b + " " + c + " " + d + " " + e == front + (a + " " + b + " " + c + " " + d + " " + e)
  {
  }

  /** Every reply with a vector is read by the peer as just that vector. */
  lemma VectorIsDelivered(imsi: string, rand: Block, v: Vector, resLen: nat)
    requires ' ' !in imsi
    ensures Delivers(ResponseText(imsi, rand, v, resLen), imsi, rand, v, resLen)
  {
    hide HexOf, Receive, ReadAka;
    var cmd, res := "AKA-RESP-AUTH", SentRes(v.res, resLen);
    var a, b, c, d, e := HexOf(rand), HexOf(v.autn), HexOf(v.ik), HexOf(v.ck), HexOf(res);
    var body := a + (" " + (b + (" " + (c + (" " + (d + (" " + e)))))));
    FieldsNested(a, b, c, d, e);
    FrontFirst("AKA-RESP-AUTH " + imsi + " ", a, b, c, d, e);
    NameFirst(cmd, imsi, body);
    assert "AKA-RESP-AUTH " + imsi + " " == cmd + " " + imsi + " ";
    MessageIsReceived(cmd, imsi, body);
    VectorIsRead(rand, v.autn, v.ik, v.ck, res);
  }

  /** And a reply to an unknown IMSI as a failure. */
  lemma FailureIsDelivered(imsi: string)
    requires ' ' !in imsi
    ensures DeliversFailure("AKA-RESP-AUTH " + imsi + " FAILURE", imsi)
  {
    var cmd := "AKA-RESP-AUTH";
    assert "AKA-RESP-AUTH " + imsi + " FAILURE" == cmd + (" " + (imsi + (" " + "FAILURE")));
    MessageIsReceived(cmd, imsi, "FAILURE");
  }

  // ---------------------------------------------------------------------------------------------
  // The synchronisation request of the peer
  // ---------------------------------------------------------------------------------------------

  lemma TokenCut(token: string, rest: string)
    requires ' ' !in token
    ensures var s := token + " " + rest;
            Find(s, ' ') == |token| < |s| && s[..|token|] == token && s[|token| + 1..] == rest
  {
    FindUnique(token + " " + rest, ' ', |token|);
  }

  /** A printed request is taken apart into what was printed. */
  lemma AutsIsParsed(imsi: string, auts: seq<byte>, rand: seq<byte>)
    requires ' ' !in imsi && |auts| == AUTS_LEN && |rand| == RAND_LEN
    ensures ParseAuts(imsi + " " + (HexOf(auts) + " " + HexOf(rand))) == Some(AutsRequest(imsi, auts, rand))
  {
    hide HexOf, ParseHex;
    TokenCut(imsi, HexOf(auts) + " " + HexOf(rand));
    HexIsPlain(auts, "");
    HexIsPlain(rand, "");
    TokenCut(HexOf(auts), HexOf(rand));
  }

  /** A request that can be taken apart: two words, the second one spelling AUTS, then text spelling RAND. */
  predicate IsAutsText(text: string, imsi: string, auts: string, rand: string) {
    && text == imsi + " " + (auts + " " + rand) && ' ' !in imsi && ' ' !in auts
    && SpellsBytes(auts, AUTS_LEN) && SpellsBytes(rand, RAND_LEN)
  }

  /** Just these requests are accepted. */
  lemma AutsAcceptedIff(text: string)
    ensures ParseAuts(text).Some? <==> exists imsi, auts, rand :: IsAutsText(text, imsi, auts, rand)
  {
    hide ParseHex, SpellsBytes;
    var q := ParseAuts(text);
    if q.Some? {
      var a := Find(text, ' ');
      var rest := text[a + 1..];
      var b := Find(rest, ' ');
      ParseHexIff(rest[..b], AUTS_LEN);
      ParseHexIff(rest[b + 1..], RAND_LEN);
      assert rest == rest[..b] + " " + rest[b + 1..];
      assert IsAutsText(text, text[..a], rest[..b], rest[b + 1..]);
    }
    if imsi, auts, rand :| IsAutsText(text, imsi, auts, rand) {
      TokenCut(imsi, auts + " " + rand);
      TokenCut(auts, rand);
      ParseHexIff(auts, AUTS_LEN);
      ParseHexIff(rand, RAND_LEN);
    }
  }

  /**
  What the peer's request does: the first record of the IMSI takes the sequence number that milenage_auts
  recovers from just its keys and the printed AUTS and RAND, and nothing else changes.
  */
  lemma AutsResyncs(db: seq<Params>, imsi: string, auts: seq<byte>, rand: seq<byte>, resync: Resync)
    requires ' ' !in imsi && |auts| == AUTS_LEN && |rand| == RAND_LEN
    ensures var text := imsi + " " + (HexOf(auts) + " " + HexOf(rand));
            && ((forall k :: 0 <= k < |db| ==> db[k].imsi != imsi) ==> AfterAuts(db, text, resync) == db)
            && forall i :: 0 <= i < |db| && db[i].imsi == imsi && (forall k :: 0 <= k < i ==> db[k].imsi != imsi) ==>
                 var sqn := resync(ResyncIn(db[i].opc, db[i].ki, rand, auts));
                 AfterAuts(db, text, resync) == if sqn.None? then db else db[i := db[i].(sqn := sqn.value)]
  {
    hide ParseAuts, HexOf, Lookup;
    AutsIsParsed(imsi, auts, rand);
    var i := Lookup(db, imsi);
    forall j | 0 <= j < |db| && db[j].imsi == imsi && (forall k :: 0 <= k < j ==> db[k].imsi != imsi)
      ensures j == i
    {
    }
  }

  // ---------------------------------------------------------------------------------------------
  // The process
  // ---------------------------------------------------------------------------------------------

  class Subscriber {
    const imsi: string
    const ki: seq<byte>
    const opc: seq<byte>
    const amf: seq<byte>
    const sqn: array<byte>
    const resLen: nat

    constructor (m: Params)
      ensures fresh(sqn) && sqn.Length == 6 && View() == m
    {
      imsi, ki, opc, amf, resLen := m.imsi, m.ki, m.opc, m.amf, m.resLen;
      var a := new byte[6](i requires 0 <= i < 6 => m.sqn[i]);
      sqn := a;
      new;
      assert sqn[..] == m.sqn;
    }

    ghost function View(): Params
      requires sqn.Length == 6
      reads sqn
    {
      Params(imsi, ki, opc, amf, sqn[..], resLen)
    }
  }

  class Gateway {
    var db: seq<Subscriber>
    var sqnChanges: bool
    const indLen: IndLen
    const generate: Generate
    const resync: Resync

    constructor (indLen: IndLen, generate: Generate, resync: Resync)
      ensures Valid() && Views() == [] && !sqnChanges
      ensures this.indLen == indLen && this.generate == generate && this.resync == resync
    {
      db, sqnChanges := [], false;
      this.indLen, this.generate, this.resync := indLen, generate, resync;
    }

    ghost predicate Valid()
      reads this
    {
      && (forall i :: 0 <= i < |db| ==> db[i].sqn.Length == 6)
      && (forall i, j :: 0 <= i < j < |db| ==> db[i].sqn != db[j].sqn)
    }

    ghost function Arrays(): set<array<byte>>
      reads this
    {
      set i | 0 <= i < |db| :: db[i].sqn
    }

    ghost function Views(): (vs: seq<Params>)
      requires Valid()
      reads this, Arrays()
      ensures |vs| == |db|
      ensures forall i :: 0 <= i < |db| ==> vs[i] == db[i].View()
    {
      seq(|db|, i requires 0 <= i < |db| && Valid() reads this, Arrays() => db[i].View())
    }

    /** get_milenage: the first record of the IMSI. */
    method GetMilenage(imsi: string) returns (i: nat)
      requires Valid()
      ensures i == Lookup(Views(), imsi)
    {
      i := 0;
      while i < |db| && db[i].imsi != imsi
        invariant i <= |db|
        invariant forall j :: 0 <= j < i ==> db[j].imsi != imsi
      {
        i := i + 1;
      }
      LookupIsFirst(Views(), imsi, i);
    }

    /**
    aka_req_auth. `rand` is what the random source delivered. A reply with a vector always fits the buffer;
    one to an unknown IMSI fails when the name is too long.
    */
    method AkaReqAuth(imsi: string, rand: Option<Block>) returns (ret: int, resp: string)
      requires Valid() && forall i :: 0 <= i < |db| ==> ValidParams(Views()[i])
      modifies this`sqnChanges, Arrays()
      ensures Valid() && db == old(db)
      ensures Views() == AfterRequest(old(Views()), imsi, rand, indLen)
      ensures var i := Lookup(old(Views()), imsi);
              && sqnChanges == (old(sqnChanges) || (i < |db| && rand.Some?))
              && (ret == 0 <==> if i < |db| then rand.Some? else |imsi| + 22 < RESP_SIZE)
              && (ret == 0 && i == |db| ==> resp == "AKA-RESP-AUTH " + imsi + " FAILURE")
              && (ret == 0 && i < |db| ==>
                    var m := Views()[i];
                    resp == ResponseText(imsi, rand.value,
                              generate(GenerateIn(m.opc, m.amf, m.ki, m.sqn, rand.value)), m.resLen))
      ensures ret == 0 ==> |resp| < RESP_SIZE
      ensures ret == 0 && ' ' !in imsi ==>
                var i := Lookup(old(Views()), imsi);
                if i == |db| then DeliversFailure(resp, imsi)
                else
                  var m := Views()[i];
                  Delivers(resp, imsi, rand.value,
                           generate(GenerateIn(m.opc, m.amf, m.ki, m.sqn, rand.value)), m.resLen)
    {
      hide Lookup, HexOf, Delivers, DeliversFailure;
      resp := "";
      var i := GetMilenage(imsi);
      var zero: Block := seq(16, _ => 0);
      var vector := Vector(zero, zero, zero, []);
      if i < |db| {
        assert |imsi| < IMSI_SIZE by {
          assert ValidParams(Views()[i]) && Views()[i].imsi == imsi;
        }
        if rand.None? {
          return -1, resp;
        }
        IncSqn(db[i].sqn, indLen);
        assert Views() == Advanced(old(Views()), i, indLen);
        sqnChanges := true;
        vector := generate(GenerateIn(db[i].opc, db[i].amf, db[i].ki, db[i].sqn[..], rand.value));
      }
      resp := "AKA-RESP-AUTH " + imsi + " ";
      if |resp| >= RESP_SIZE {
        return -1, resp;
      }
      if i == |db| {
        if 7 >= RESP_SIZE - |resp| {
          return -1, resp;
        }
        resp := resp + "FAILURE";
        assert resp == "AKA-RESP-AUTH " + imsi + " FAILURE";
        if ' ' !in imsi {
          FailureIsDelivered(imsi);
        }
        return 0, resp;
      }
      resp := resp + HexOf(rand.value) + " " + HexOf(vector.autn) + " " + HexOf(vector.ik) + " " + HexOf(vector.ck)
      + " " + HexOf(SentRes(vector.res, db[i].resLen));
      if ' ' !in imsi {
        VectorIsDelivered(imsi, rand.value, vector, db[i].resLen);
      }
      ret := 0;
    }

    /** memcpy into the SQN of record `i`. */
    method SetSqn(i: nat, sqn: SqnBytes)
      requires Valid() && i < |db|
      modifies db[i].sqn
      ensures Valid() && Views() == old(Views())[i := old(Views())[i].(sqn := sqn)]
    {
      ghost var vs := Views();
      var a := db[i].sqn;
      forall j | 0 <= j < 6 {
        a[j] := sqn[j];
      }
      assert a[..] == sqn;
      assert forall j :: 0 <= j < |db| && j != i ==> db[j].View() == vs[j];
    }

    /** aka_auts: installs SQN_MS when the token is authentic; there is never a reply. */
    method AkaAuts(text: string) returns (ret: int)
      requires Valid()
      modifies this`sqnChanges, Arrays()
      ensures Valid() && db == old(db)
      ensures Views() == AfterAuts(old(Views()), text, resync)
      ensures sqnChanges == (old(sqnChanges) || Resynced(old(Views()), text, resync).Some?)
      ensures ret == 0 <==> var q := ParseAuts(text); q.Some? && Lookup(old(Views()), q.value.imsi) < |db|
    {
      hide ParseAuts, Lookup;
      var q := ParseAuts(text);
      if q.None? {
        return -1;
      }
      var i := GetMilenage(q.value.imsi);
      if i == |db| {
        return -1;
      }
      var m := db[i];
      var sqn := resync(ResyncIn(m.opc, m.ki, q.value.rand, q.value.auts));
      if sqn.Some? {
        SetSqn(i, sqn.value);
        sqnChanges := true;
      }
      return 0;
    }

    method Prepend(m: Params)
      requires Valid()
      modifies this`db
      ensures Valid() && Views() == [m] + old(Views())
    {
      ghost var vs := Views();
      var s := new Subscriber(m);
      db := [s] + db;
      assert forall i :: 1 <= i < |db| ==> db[i].View() == vs[i - 1];
    }

    /** read_milenage: prepends the records of the file, stopping at the first bad line. */
    method ReadMilenage(text: string) returns (ret: int)
      requires Valid()
      modifies this`db
      ensures Valid() && Views() == ReadStop(text, old(Views()))
      ensures ret == 0 <==> ReadFrom(text, old(Views())).Some?
      ensures ret == 0 ==> ReadFrom(text, old(Views())) == Some(Views())
    {
      var rest := text;
      while rest != ""
        invariant Valid()
        invariant ReadFrom(text, old(Views())) == ReadFrom(rest, Views())
        invariant ReadStop(text, old(Views())) == ReadStop(rest, Views())
        decreases |rest|
      {
        var n := FgetsLen(rest, READ_BUF);
        var line := rest[..n];
        rest := rest[n..];
        if Skipped(line) {
          continue;
        }
        var m := ParseLine(Stripped(line));
        if m.None? {
          return -1;
        }
        Prepend(m.value);
      }
      return 0;
    }

    /** The body of the update loop: prints the record over the loaded line when its IMSI is known. */
    method RewriteLine(buf: array<char>)
      requires Valid() && buf.Length == WRITE_BUF
      requires forall m :: m in Views() ==> ValidParams(m)
      modifies buf
      ensures Views() == old(Views())
      ensures buf[..] == Rewritten(old(buf[..]), Views())
    {
      hide CStr, Find, Overprinted, ValidParams, Lookup;
      var c := CStr(buf[..]);
      var sp := Find(c, ' ');
      if !((c != "" && c[0] == '#') || sp == |c| || sp >= IMSI_SIZE) {
        var i := GetMilenage(c[..sp]);
        if i < |db| {
          assert Views()[i] in Views();
          PrintRecord(buf, db[i]);
        }
      }
    }

    /**
    update_milenage_file: the text of the new file. `buf` is the line buffer on the stack, whatever it
    holds on entry.
    */
    method UpdateMilenageFile(text: string, buf: array<char>) returns (out: string)
      requires Valid() && buf.Length == WRITE_BUF
      requires forall m :: m in Views() ==> ValidParams(m)
      modifies buf
      ensures Views() == old(Views())
      ensures out == UpdateFrom(text, Views(), old(buf[..]))
    {
      hide UpdateFrom, Rewritten, ValidParams, CStr, Find;
      ghost var vs := Views();
      var rest := text;
      UpdateNothing(vs, buf[..]);
      out := "";
      while rest != ""
        invariant Views() == vs
        invariant UpdateFrom(text, vs, old(buf[..])) == out + UpdateFrom(rest, vs, buf[..])
        decreases |rest|
      {
        ghost var b := buf[..];
        var n := FgetsLen(rest, WRITE_BUF);
        Store(buf, rest[..n]);
        assert Views() == vs && buf[..] == Loaded(b, rest[..n]);
        RewriteLine(buf);
        assert Views() == vs && buf[..] == Rewritten(Loaded(b, rest[..n]), vs);
        UpdateStep(rest, vs, b, buf[..], out);
        out := out + CStr(buf[..]);
        rest := rest[n..];
      }
      UpdateNothing(vs, buf[..]);
    }
  }

  lemma UpdateNothing(vs: seq<Params>, b: Buffer)
    requires forall m :: m in vs ==> ValidParams(m)
    ensures UpdateFrom("", vs, b) == ""
  {
  }

  lemma UpdateStep(rest: string, vs: seq<Params>, b: Buffer, b': Buffer, out: string)
    requires rest != "" && forall m :: m in vs ==> ValidParams(m)
    requires b' == Rewritten(Loaded(b, rest[..FgetsLen(rest, WRITE_BUF)]), vs)
    ensures out + UpdateFrom(rest, vs, b)
         == (out + CStr(b')) + UpdateFrom(rest[FgetsLen(rest, WRITE_BUF)..], vs, b')
  {
  }

  lemma LookupIsFirst(db: seq<Params>, imsi: string, i: nat)
    requires i <= |db| && (forall j :: 0 <= j < i ==> db[j].imsi != imsi) && (i < |db| ==> db[i].imsi == imsi)
    ensures i == Lookup(db, imsi)
  {
  }

  // ---------------------------------------------------------------------------------------------
  // The line buffer
  // ---------------------------------------------------------------------------------------------

  /** Stores a string with its terminating NUL at the start of the buffer. */
  method Store(buf: array<char>, s: string)
    requires |s| < buf.Length == WRITE_BUF
    modifies buf
    ensures buf[..] == Loaded(old(buf[..]), s)
  {
    forall j | 0 <= j < |s| {
      buf[j] := s[j];
    }
    buf[|s|] := NUL;
  }

  /** The buffer holds `c` at its start; beyond the character after it nothing but the end changed. */
  ghost predicate Printed(before: seq<char>, now: seq<char>, c: string) {
    && |before| == |now| && |c| + 1 < |now|
    && (forall j :: 0 <= j < |c| ==> now[j] == c[j])
    && (forall j :: |c| < j < |now| - 1 ==> now[j] == before[j])
  }

  /** snprintf of a string at `pos`: the text and a NUL. */
  method PrintText(buf: array<char>, pos: nat, s: string, ghost before: seq<char>, ghost c: string) returns (end: nat)
    requires |c| == pos && pos + |s| + 1 < buf.Length && Printed(before, buf[..], c)
    modifies buf
    ensures end == pos + |s| && Printed(before, buf[..], c + s)
    ensures buf[buf.Length - 1] == old(buf[buf.Length - 1])
  {
    forall j | 0 <= j < |s| {
      buf[pos + j] := s[j];
    }
    end := pos + |s|;
    buf[end] := NUL;
  }

  /** wpa_snprintf_hex at `pos`: the digits and a NUL, and a NUL in the last place of the buffer. */
  method PrintHex(buf: array<char>, pos: nat, bs: seq<byte>, ghost before: seq<char>, ghost c: string)
    returns (end: nat)
    requires |c| == pos && pos + 2 * |bs| + 1 < buf.Length && Printed(before, buf[..], c)
    modifies buf
    ensures end == pos + 2 * |bs| && Printed(before, buf[..], c + HexOf(bs))
    ensures buf[buf.Length - 1] == NUL
  {
    end := PrintText(buf, pos, HexOf(bs), before, c);
    buf[buf.Length - 1] := NUL;
  }

  method PrintChar(buf: array<char>, pos: nat, ch: char, ghost before: seq<char>, ghost c: string) returns (end: nat)
    requires |c| == pos && pos + 2 < buf.Length && Printed(before, buf[..], c)
    modifies buf
    ensures end == pos + 1 && Printed(before, buf[..], c + [ch]) && buf[end] == before[end]
    ensures buf[buf.Length - 1] == old(buf[buf.Length - 1])
  {
    buf[pos] := ch;
    end := pos + 1;
  }

  /** A hexadecimal field and the character behind it. */
  method PrintField(buf: array<char>, pos: nat, bs: seq<byte>, ch: char, ghost before: seq<char>, ghost c: string)
    returns (end: nat)
    requires |c| == pos && pos + 2 * |bs| + 2 < buf.Length && Printed(before, buf[..], c)
    modifies buf
    ensures end == pos + 2 * |bs| + 1 && Printed(before, buf[..], c + (HexOf(bs) + [ch]))
    ensures buf[end] == before[end] && buf[buf.Length - 1] == NUL
  {
    end := PrintHex(buf, pos, bs, before, c);
    end := PrintChar(buf, end, ch, before, c + HexOf(bs));
    assert c + HexOf(bs) + [ch] == c + (HexOf(bs) + [ch]);
  }

  /** The new line of one record, printed over the old one. */
  method PrintRecord(buf: array<char>, m: Subscriber)
    requires buf.Length == WRITE_BUF && m.sqn.Length == 6 && ValidParams(m.View())
    modifies buf
    ensures m.View() == old(m.View())
    ensures buf[..] == Overprinted(old(buf[..]), m.View())
  {
    hide HexOf, Printed, Canonical;
    ghost var b, v := buf[..], m.View();
    var fields := [m.ki, m.opc, m.amf, m.sqn[..]];
    ghost var c := "";
    PrintedNothing(b);
    var pos := PrintText(buf, 0, m.imsi + " ", b, c);
    c := c + (m.imsi + " ");
    pos := PrintField(buf, pos, fields[0], ' ', b, c);
    c := c + (HexOf(v.ki) + [' ']);
    pos := PrintField(buf, pos, fields[1], ' ', b, c);
    c := c + (HexOf(v.opc) + [' ']);
    pos := PrintField(buf, pos, fields[2], ' ', b, c);
    c := c + (HexOf(v.amf) + [' ']);
    pos := PrintField(buf, pos, fields[3], '\n', b, c);
    c := c + (HexOf(v.sqn) + ['\n']);
    CanonicalParts(v);
    PrintedAll(b, buf[..], c);
  }

  lemma CanonicalParts(v: Params)
    ensures "" + (v.imsi + " ") + (HexOf(v.ki) + [' ']) + (HexOf(v.opc) + [' ']) + (HexOf(v.amf) + [' '])
            + (HexOf(v.sqn) + ['\n']) == Canonical(v)
  {
    hide HexOf;
  }

  lemma PrintedNothing(before: seq<char>)
    requires |before| > 1
    ensures Printed(before, before, "")
  {
  }

  lemma PrintedAll(before: seq<char>, now: seq<char>, c: string)
    requires Printed(before, now, c) && now[|c|] == before[|c|] && now[|now| - 1] == NUL
    ensures now == c + before[|c|..|now| - 1] + [NUL]
  {
  }
}
