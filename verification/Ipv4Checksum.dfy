/**
The header checksum of the data test frames (hostapd/ctrl_iface.c; section 3.1 of RFC 791, RFC 1071).
*/
module Ipv4Checksum {
  const WORD: nat := 0x1_0000
  const MOD: nat := 0xffff

  /** How many words can be added before a sum of 32 bits may wrap. */
  const MAX_WORDS: nat := 0x1_0001

  type u16 = x: int | 0 <= x < WORD

  function Sum(ws: seq<u16>): nat {
    if ws == [] then 0 else Sum(ws[..|ws| - 1]) + ws[|ws| - 1]
  }

  lemma {:induction false} SumBound(ws: seq<u16>)
    ensures Sum(ws) <= |ws| * MOD
  {
    if ws != [] {
      SumBound(ws[..|ws| - 1]);
    }
  }

  lemma SumFits(ws: seq<u16>)
    requires |ws| <= MAX_WORDS
    ensures Sum(ws) < 0x1_0000_0000
  {
    SumBound(ws);
    assert |ws| * MOD <= MAX_WORDS * MOD;
  }

  /** The sum with its carries added back until none is left. */
  function Fold(n: nat): (r: nat)
    ensures r < WORD
  {
    if n < WORD then n else Fold(n % WORD + n / WORD)
  }

  lemma FoldStep(n: nat)
    ensures (n % WORD + n / WORD) % MOD == n % MOD
    ensures n % WORD + n / WORD == 0 <==> n == 0
  {
    var hi, lo := n / WORD, n % WORD;
    assert n == MOD * hi + (lo + hi);
  }

  /** Folding keeps the remainder modulo 65535, and never turns a positive sum into zero. */
  lemma {:induction false} FoldKeepsRemainder(n: nat)
    ensures Fold(n) % MOD == n % MOD
    ensures Fold(n) == 0 <==> n == 0
  {
    if n >= WORD {
      FoldStep(n);
      FoldKeepsRemainder(n % WORD + n / WORD);
    }
  }

  /** `x ^ 0xffff` for a word. */
  function Complement(x: u16): u16 {
    MOD - x
  }

  function Checksum(ws: seq<u16>): u16 {
    Complement(Fold(Sum(ws)))
  }

  /** The exclusive or of the code is a subtraction. */
  lemma XorIsComplement(x: bv16)
    ensures x ^ 0xffff == 0xffff - x
  {
  }

  /** ipv4_hdr_checksum over the words of the header; 32 bits hold the sum of that many words. */
  method HdrChecksum(ws: seq<u16>) returns (r: u16)
    requires |ws| <= MAX_WORDS
    ensures r == Checksum(ws)
  {
    var sum := 0;
    for i := 0 to |ws|
      invariant sum == Sum(ws[..i])
    {
      assert ws[..i + 1][..i] == ws[..i];
      sum := sum + ws[i];
      SumFits(ws[..i + 1]);
      assert sum < 0x1_0000_0000;
    }
    assert ws[..|ws|] == ws;
    while sum / WORD != 0
      invariant sum >= 0 && Fold(sum) == Fold(Sum(ws))
      decreases sum
    {
      sum := sum % WORD + sum / WORD;
    }
    r := MOD - sum;
  }

  lemma {:induction false} SumUpdate(ws: seq<u16>, i: nat, c: u16)
    requires i < |ws|
    ensures Sum(ws[i := c]) == Sum(ws) - ws[i] + c
  {
    var front := ws[..|ws| - 1];
    if i == |ws| - 1 {
      assert ws[i := c][..|ws| - 1] == front;
    } else {
      assert ws[i := c][..|ws| - 1] == front[i := c];
      SumUpdate(front, i, c);
    }
  }

  lemma Multiple(n: nat)
    requires 0 < n < WORD && n % MOD == 0
    ensures n == MOD
  {
  }

  /** A stored checksum verifies: computed again over the header that holds it, it gives 0. */
  lemma StoredChecksumVerifies(ws: seq<u16>, i: nat)
    requires i < |ws| && ws[i] == 0
    ensures Checksum(ws[i := Checksum(ws)]) == 0
  {
    var s, c := Sum(ws), Checksum(ws);
    SumUpdate(ws, i, c);
    FoldKeepsRemainder(s);
    FoldKeepsRemainder(s + c);
    RemainderOfTotal(s, Fold(s));
    Multiple(Fold(s + c));
  }

  lemma RemainderOfTotal(s: nat, f: nat)
    requires f <= MOD && f % MOD == s % MOD
    ensures (s + (MOD - f)) % MOD == 0
    ensures s + (MOD - f) == 0 ==> s == 0 && f == MOD
  {
    var q := s / MOD;
    assert s == MOD * q + s % MOD;
    if f == MOD {
      assert s + (MOD - f) == MOD * q;
    } else {
      assert s + (MOD - f) == MOD * (q + 1);
    }
  }

  /** No other word in the place of the checksum verifies, up to the two forms of zero. */
  lemma OnlyChecksumVerifies(ws: seq<u16>, i: nat, c: u16)
    requires i < |ws| && ws[i] == 0 && Checksum(ws[i := c]) == 0
    ensures c % MOD == Checksum(ws) % MOD
  {
    SumUpdate(ws, i, c);
    FoldKeepsRemainder(Sum(ws));
    FoldKeepsRemainder(Sum(ws) + c);
    assert Fold(Sum(ws) + c) == MOD;
    SameRemainder(Sum(ws), c, Fold(Sum(ws)));
  }

  lemma SameRemainder(s: nat, c: nat, f: nat)
    requires f <= MOD && f % MOD == s % MOD && (s + c) % MOD == 0
    ensures c % MOD == (MOD - f) % MOD
  {
    var q, r := s / MOD, (s + c) / MOD;
    assert s == MOD * q + s % MOD && s + c == MOD * r;
    if f == MOD {
      assert c == MOD * (r - q);
    } else {
      assert c == MOD * (r - q - 1) + (MOD - f);
    }
  }

  /** Of two headers that differ in one word and both verify, that word differs by one zero for the other. */
  lemma ChangeIsNoticed(ws: seq<u16>, j: nat, x: u16)
    requires j < |ws| && Checksum(ws) == 0 && Checksum(ws[j := x]) == 0
    ensures x % MOD == ws[j] % MOD
  {
    hide Sum, Fold;
    SumUpdate(ws, j, x);
    FoldKeepsRemainder(Sum(ws));
    FoldKeepsRemainder(Sum(ws[j := x]));
    SameDifference(Sum(ws), Sum(ws[j := x]), ws[j], x);
  }

  lemma SameDifference(a: nat, b: nat, c: nat, d: nat)
    requires a % MOD == b % MOD && a + d == b + c
    ensures d % MOD == c % MOD
  {
  }
}
