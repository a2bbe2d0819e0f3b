/**
The `domain_name` option of hostapd/config_file.c: a comma separated list turned into the length prefixed
names of the Domain Name ANQP-element (section 9.4.5.15 of IEEE Std 802.11-2016).
*/
module DomainList {
  import opened Text

  const COMMA: byte := 0x2c

  // ---------------------------------------------------------------------------------------------
  // Splitting at commas
  // ---------------------------------------------------------------------------------------------

  function Pieces(s: seq<byte>): (ps: seq<seq<byte>>)
    ensures ps != []
  {
    var c := Find(s, COMMA);
    if c == |s| then [s] else [s[..c]] + Pieces(s[c + 1..])
  }

  function Join(ps: seq<seq<byte>>): seq<byte>
    requires ps != []
  {
    if |ps| == 1 then ps[0] else ps[0] + [COMMA] + Join(ps[1..])
  }

  predicate CommaFree(ps: seq<seq<byte>>) {
    forall i :: 0 <= i < |ps| ==> COMMA !in ps[i]
  }

  lemma {:induction false} PiecesAreSplit(s: seq<byte>)
    ensures CommaFree(Pieces(s)) && Join(Pieces(s)) == s
  {
    var c := Find(s, COMMA);
    if c < |s| {
      PiecesAreSplit(s[c + 1..]);
      assert Pieces(s)[1..] == Pieces(s[c + 1..]);
      assert s == s[..c] + [COMMA] + s[c + 1..];
    }
  }

  lemma {:induction false} PiecesOfJoin(ps: seq<seq<byte>>)
    requires ps != [] && CommaFree(ps)
    ensures Pieces(Join(ps)) == ps
  {
    var s := Join(ps);
    FindUnique(s, COMMA, |ps[0]|);
    if |ps| == 1 {
      assert ps == [ps[0]];
    } else {
      assert s[..|ps[0]|] == ps[0] && s[|ps[0]| + 1..] == Join(ps[1..]);
      PiecesOfJoin(ps[1..]);
      assert ps == [ps[0]] + ps[1..];
    }
  }

  // ---------------------------------------------------------------------------------------------
  // Length prefixes
  // ---------------------------------------------------------------------------------------------

  /** A piece behind its length, which is stored in one byte. */
  function Prefixed(p: seq<byte>): (b: seq<byte>)
    ensures |b| == |p| + 1
  {
    [|p| % 256] + p
  }

  function Encode(ps: seq<seq<byte>>): seq<byte> {
    if ps == [] then [] else Prefixed(ps[0]) + Encode(ps[1..])
  }

  lemma {:induction false} EncodeAppend(ps: seq<seq<byte>>, p: seq<byte>)
    ensures Encode(ps + [p]) == Encode(ps) + Prefixed(p)
  {
    hide Prefixed;
    if ps == [] {
      assert ps + [p] == [p] && [p][1..] == [];
    } else {
      assert (ps + [p])[1..] == ps[1..] + [p];
      EncodeAppend(ps[1..], p);
    }
  }

  /** The commas pay for the length bytes, all but one. */
  lemma {:induction false} EncodeLength(s: seq<byte>)
    ensures |Encode(Pieces(s))| == |s| + 1
  {
    hide Prefixed;
    var c := Find(s, COMMA);
    if c == |s| {
      assert Pieces(s)[1..] == [];
    } else {
      EncodeLength(s[c + 1..]);
      assert Pieces(s)[1..] == Pieces(s[c + 1..]);
    }
  }

  /** The names of a list of length prefixed names. */
  function Decode(b: seq<byte>): Option<seq<seq<byte>>> {
    if b == [] then Some([])
    else if 1 + b[0] as int > |b| then None
    else
      var rest := Decode(b[1 + b[0]..]);
      if rest.None? then None else Some([b[1..1 + b[0]]] + rest.value)
  }

  predicate AllFit(ps: seq<seq<byte>>) {
    forall i :: 0 <= i < |ps| ==> |ps[i]| <= 255
  }

  lemma {:induction false} DecodeEncodeFits(ps: seq<seq<byte>>)
    requires AllFit(ps)
    ensures Decode(Encode(ps)) == Some(ps)
  {
    if ps != [] {
      var b, n := Encode(ps), |ps[0]|;
      assert b[0] as int == n && b[1..1 + n] == ps[0] && b[1 + n..] == Encode(ps[1..]);
      DecodeEncodeFits(ps[1..]);
      assert ps == [ps[0]] + ps[1..];
    }
  }

  lemma {:induction false} DecodeEncodeTooLong(ps: seq<seq<byte>>)
    requires !AllFit(ps)
    ensures Decode(Encode(ps)) != Some(ps)
  {
    var b, n := Encode(ps), |ps[0]|;
    assert b[0] as int == n % 256;
    if n <= 255 {
      assert b[1 + n..] == Encode(ps[1..]);
      DecodeEncodeTooLong(ps[1..]);
      assert Decode(b).Some? ==> Decode(b).value[1..] == Decode(Encode(ps[1..])).value;
    } else {
      assert Decode(b).Some? ==> |Decode(b).value[0]| == n % 256;
    }
  }

  /** Decoding gives the comma split back exactly when every piece is at most 255 bytes long. */
  lemma DecodesIffFits(s: seq<byte>)
    ensures Decode(Encode(Pieces(s))) == Some(Pieces(s)) <==> AllFit(Pieces(s))
  {
    if AllFit(Pieces(s)) {
      DecodeEncodeFits(Pieces(s));
    } else {
      DecodeEncodeTooLong(Pieces(s));
    }
  }

  // ---------------------------------------------------------------------------------------------
  // The parser
  // ---------------------------------------------------------------------------------------------

  class Bss {
    var domainName: array?<byte>

    constructor ()
      ensures domainName == null
    {
      domainName := null;
    }

    /** The domain_name branch: one byte more than the text is allocated, and all of it is written. */
    method SetDomainName(text: seq<byte>)
      modifies this
      ensures domainName != null && fresh(domainName) && domainName.Length == |text| + 1
      ensures domainName[..] == Encode(Pieces(text))
    {
      var list := new byte[|text| + 1];
      var numDomains := CountDomains(text);
      WriteDomains(text, list, numDomains);
      domainName := list;
    }
  }

  /** The first pass. */
  method CountDomains(text: seq<byte>) returns (n: nat)
    ensures n == |Pieces(text)|
  {
    n := 1;
    var rest := text;
    while Find(rest, COMMA) < |rest|
      invariant n + |Pieces(rest)| == |Pieces(text)| + 1
      decreases |rest|
    {
      n := n + 1;
      rest := rest[Find(rest, COMMA) + 1..];
    }
  }

  /** Before turn `j` of the second pass; while pieces remain, as much is written as is read. */
  ghost predicate Writing(text: seq<byte>, list: array<byte>, j: nat, rest: seq<byte>, ptr: nat)
    requires j <= |Pieces(text)|
    reads list
  {
    && list.Length == |text| + 1 && ptr <= list.Length && list[..ptr] == Encode(Pieces(text)[..j])
    && if j == |Pieces(text)| then ptr == |text| + 1 else Pieces(rest) == Pieces(text)[j..] && ptr + |rest| == |text|
  }

  /** The second pass. */
  method WriteDomains(text: seq<byte>, list: array<byte>, n: nat)
    requires n == |Pieces(text)| && list.Length == |text| + 1
    modifies list
    ensures list[..] == Encode(Pieces(text))
  {
    var rest := text;
    var ptr: nat := 0;
    assert Pieces(text)[0..] == Pieces(text) && Pieces(text)[..0] == [];
    for j := 0 to n
      invariant Writing(text, list, j, rest, ptr)
    {
      rest, ptr := WriteDomain(text, list, j, rest, ptr);
    }
    assert list[..] == list[..ptr] && Pieces(text)[..n] == Pieces(text);
  }

  method WriteDomain(text: seq<byte>, list: array<byte>, ghost j: nat, rest: seq<byte>, ptr: nat)
    returns (rest': seq<byte>, ptr': nat)
    requires j < |Pieces(text)| && Writing(text, list, j, rest, ptr)
    modifies list
    ensures Writing(text, list, j + 1, rest', ptr')
  {
    var c := Find(rest, COMMA);
    ghost var ps, before := Pieces(text), list[..ptr];
    assert ps[j] == rest[..c];
    list[ptr] := c % 256;
    forall i | 0 <= i < c {
      list[ptr + 1 + i] := rest[i];
    }
    ptr' := ptr + c + 1;
    rest' := if c < |rest| then rest[c + 1..] else rest;
    assert list[..ptr'] == before + Prefixed(ps[j]);
    EncodeAppend(ps[..j], ps[j]);
    assert ps[..j + 1] == ps[..j] + [ps[j]];
    assert ps[j..][1..] == ps[j + 1..];
  }
}
