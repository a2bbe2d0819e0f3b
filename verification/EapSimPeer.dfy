/**
The other end of the gateway's socket (src/eap_server/eap_sim_db.c): how the EAP server takes a reply
apart. It cuts the text at blanks and colons and reads the pieces as hexadecimal bytes.
*/
module EapSimPeer {
  import opened Text

  const BLOCK_LEN: nat := 16
  const RES_SIZE: nat := 16
  const KC_LEN: nat := 8
  const SRES_LEN: nat := 4
  const CHALLENGES: nat := 3

  /** `<command> <IMSI> <body>` */
  datatype Message = Message(cmd: string, imsi: string, body: string)

  /** eap_sim_db_receive: the text cut at its first two blanks. */
  function Receive(text: string): Option<Message> {
    var a := Find(text, ' ');
    if a == |text| then None
    else
      var rest := text[a + 1..];
      var b := Find(rest, ' ');
      if b == |rest| then None else Some(Message(text[..a], rest[..b], rest[b + 1..]))
  }

  lemma MessageIsReceived(cmd: string, imsi: string, body: string)
    requires ' ' !in cmd && ' ' !in imsi
    ensures Receive(cmd + (" " + (imsi + (" " + body)))) == Some(Message(cmd, imsi, body))
  {
    var rest := imsi + (" " + body);
    CutAtBlank(cmd, rest);
    CutAtBlank(imsi, body);
  }

  /** A piece without blanks is found again in front of a blank. */
  lemma CutAtBlank(piece: string, rest: string)
    requires ' ' !in piece
    ensures var s := piece + (" " + rest);
            Find(s, ' ') == |piece| < |s| && s[..|piece|] == piece && s[|piece| + 1..] == rest
  {
    FindUnique(piece + (" " + rest), ' ', |piece|);
  }

  lemma CutAtColon(piece: string, rest: string)
    requires ':' !in piece
    ensures var s := piece + (":" + rest);
            Find(s, ':') == |piece| < |s| && s[..|piece|] == piece && s[|piece| + 1..] == rest
  {
    FindUnique(piece + (":" + rest), ':', |piece|);
  }

  /** The gateway answered that it has no vector. */
  predicate SaysFailure(body: string) {
    "FAILURE" <= body
  }

  /** Printed bytes hold no separator and do not look like a failure. */
  lemma HexIsPlain(bs: seq<byte>, rest: string)
    ensures ' ' !in HexOf(bs) && ':' !in HexOf(bs)
    ensures bs != [] ==> !SaysFailure(HexOf(bs) + rest)
    ensures ParseHex(HexOf(bs), |bs|) == Some(bs)
  {
    HexOfIsHex(bs);
    HexRoundTrip(bs, "");
    assert HexOf(bs) + "" == HexOf(bs);
    if bs != [] {
      assert (HexOf(bs) + rest)[0] == HexOf(bs)[0];
    }
  }

  // ---------------------------------------------------------------------------------------------
  // AKA-RESP-AUTH
  // ---------------------------------------------------------------------------------------------

  datatype AkaReply =
    | AkaFailure
    | AkaVector(rand: seq<byte>, autn: seq<byte>, ik: seq<byte>, ck: seq<byte>, res: seq<byte>)

  /** A field of 16 bytes with a blank behind it, and what follows the blank. */
  function BlockField(s: string): Option<(seq<byte>, string)> {
    var e := Find(s, ' ');
    if e == |s| then None
    else
      var b := ParseHex(s[..e], BLOCK_LEN);
      if b.None? then None else Some((b.value, s[e + 1..]))
  }

  /** RES, which may have any length up to 16 bytes. */
  function ResField(s: string): Option<seq<byte>> {
    var e := Find(s, ' ');
    if e / 2 > RES_SIZE then None else ParseHex(s[..e], e / 2)
  }

  /** eap_sim_db_aka_resp_auth: the body of an AKA reply; None when it cannot be parsed. */
  function ReadAka(body: string): Option<AkaReply> {
    if SaysFailure(body) then Some(AkaFailure) else
    var rand := BlockField(body);
    if rand.None? then None else
    var autn := BlockField(rand.value.1);
    if autn.None? then None else
    var ik := BlockField(autn.value.1);
    if ik.None? then None else
    var ck := BlockField(ik.value.1);
    if ck.None? then None else
    var res := ResField(ck.value.1);
    if res.None? then None
    else Some(AkaVector(rand.value.0, autn.value.0, ik.value.0, ck.value.0, res.value))
  }

  lemma BlockIsRead(bs: seq<byte>, rest: string)
    requires |bs| == BLOCK_LEN
    ensures BlockField(HexOf(bs) + (" " + rest)) == Some((bs, rest))
  {
    HexIsPlain(bs, "");
    CutAtBlank(HexOf(bs), rest);
  }

  lemma ResIsRead(res: seq<byte>)
    requires |res| <= RES_SIZE
    ensures ResField(HexOf(res)) == Some(res)
  {
    hide HexOf, ParseHex, Find;
    var s := HexOf(res);
    HexIsPlain(res, "");
    FindUnique(s, ' ', |s|);
    assert s[..|s|] == s && |s| / 2 == |res|;
  }

  /** Fields printed in the order RAND AUTN IK CK RES are read as just these. */
  lemma VectorIsRead(rand: seq<byte>, autn: seq<byte>, ik: seq<byte>, ck: seq<byte>, res: seq<byte>)
    requires |rand| == |autn| == |ik| == |ck| == BLOCK_LEN && |res| <= RES_SIZE
    ensures ReadAka(HexOf(rand) + (" " + (HexOf(autn) + (" " + (HexOf(ik) + (" " + (HexOf(ck) + (" " + HexOf(res)))))))))
            == Some(AkaVector(rand, autn, ik, ck, res))
  {
    hide BlockField, ResField, SaysFailure, HexOf;
    var s3 := HexOf(ck) + (" " + HexOf(res));
    var s2 := HexOf(ik) + (" " + s3);
    var s1 := HexOf(autn) + (" " + s2);
    HexIsPlain(rand, " " + s1);
    BlockIsRead(rand, s1);
    BlockIsRead(autn, s2);
    BlockIsRead(ik, s3);
    BlockIsRead(ck, HexOf(res));
    ResIsRead(res);
  }

  // ---------------------------------------------------------------------------------------------
  // SIM-RESP-AUTH
  // ---------------------------------------------------------------------------------------------

  datatype Challenge = Challenge(kc: seq<byte>, sres: seq<byte>, rand: seq<byte>)

  datatype SimReply = SimFailure | SimChallenges(list: seq<Challenge>)

  /** `Kc:SRES:RAND` */
  function ReadChallenge(s: string): Option<Challenge> {
    var p := Find(s, ':');
    if p == |s| then None else
    var kc := ParseHex(s[..p], KC_LEN);
    if kc.None? then None else
    var s1 := s[p + 1..];
    var q := Find(s1, ':');
    if q == |s1| then None else
    var sres := ParseHex(s1[..q], SRES_LEN);
    if sres.None? then None else
    var rand := ParseHex(s1[q + 1..], BLOCK_LEN);
    if rand.None? then None else Some(Challenge(kc.value, sres.value, rand.value))
  }

  /** The loop over the challenges, of which at most `n` more are read. */
  function ReadChallenges(s: string, n: nat): Option<seq<Challenge>>
    decreases n
  {
    if n == 0 then Some([])
    else
      var e := Find(s, ' ');
      var c := ReadChallenge(s[..e]);
      if c.None? then None
      else if e == |s| then Some([c.value])
      else
        var rest := ReadChallenges(s[e + 1..], n - 1);
        if rest.None? then None else Some([c.value] + rest.value)
  }

  /** eap_sim_db_sim_resp_auth: the body of a SIM reply; None when it cannot be parsed. */
  function ReadSim(body: string): Option<SimReply> {
    if SaysFailure(body) then Some(SimFailure)
    else
      var cs := ReadChallenges(body, CHALLENGES);
      if cs.None? then None else Some(SimChallenges(cs.value))
  }

  predicate ValidChallenge(c: Challenge) {
    |c.kc| == KC_LEN && |c.sres| == SRES_LEN && |c.rand| == BLOCK_LEN
  }

  lemma ChallengeIsRead(c: Challenge)
    requires ValidChallenge(c)
    ensures var s := HexOf(c.kc) + (":" + (HexOf(c.sres) + (":" + HexOf(c.rand))));
            ReadChallenge(s) == Some(c) && ' ' !in s && forall rest: string :: !SaysFailure(s + rest)
  {
    hide HexOf, ParseHex, SaysFailure;
    var s1 := HexOf(c.sres) + (":" + HexOf(c.rand));
    var s := HexOf(c.kc) + (":" + s1);
    HexIsPlain(c.kc, "");
    HexIsPlain(c.sres, "");
    HexIsPlain(c.rand, "");
    CutAtColon(HexOf(c.kc), s1);
    CutAtColon(HexOf(c.sres), HexOf(c.rand));
    forall rest: string
      ensures !SaysFailure(s + rest)
    {
      assert s + rest == HexOf(c.kc) + (":" + s1 + rest);
      HexIsPlain(c.kc, ":" + s1 + rest);
    }
  }
}
