/**
Text helpers shared by the parsers and printers: hexadecimal digits (src/utils/common.c),
C strings, and the searches the C library offers on them. A C string is a `string` that holds no NUL.
*/
module Text {
  datatype Option<+T> = None | Some(value: T)

  type byte = x: int | 0 <= x < 256

  const NUL: char := '\0'

  // ---------------------------------------------------------------------------------------------
  // Searching
  // ---------------------------------------------------------------------------------------------

  /** The index of the first `c` in `s`, or `|s|` when there is none. */
  function Find<T(==)>(s: seq<T>, c: T): (i: nat)
    ensures i <= |s|
    ensures forall j :: 0 <= j < i ==> s[j] != c
    ensures i < |s| ==> s[i] == c
  {
    if s == [] then 0 else if s[0] == c then 0 else 1 + Find(s[1..], c)
  }

  lemma FindUnique<T>(s: seq<T>, c: T, i: nat)
    requires i <= |s| && (forall j :: 0 <= j < i ==> s[j] != c) && (i < |s| ==> s[i] == c)
    ensures Find(s, c) == i
  {
  }

  /** The part of `s` that C sees: everything before the first NUL. */
  function CStr(s: string): (r: string)
    ensures |r| <= |s| && r == s[..|r|] && NUL !in r
  {
    s[..Find(s, NUL)]
  }

  // ---------------------------------------------------------------------------------------------
  // Hexadecimal
  // ---------------------------------------------------------------------------------------------

  function HexDigit(n: int): (c: char)
    requires 0 <= n < 16
    ensures '0' <= c <= '9' || 'a' <= c <= 'f'
    ensures HexVal(c) == n
  {
    if n < 10 then '0' + n as char else 'a' + (n - 10) as char
  }

  /** The value of a hexadecimal digit of either case; -1 for any other character. */
  function HexVal(c: char): (v: int)
    ensures -1 <= v < 16
  {
    if '0' <= c <= '9' then c as int - '0' as int
    else if 'a' <= c <= 'f' then c as int - 'a' as int + 10
    else if 'A' <= c <= 'F' then c as int - 'A' as int + 10
    else -1
  }

  /** `%02x` */
  function HexByte(b: byte): (s: string)
    ensures |s| == 2
  {
    [HexDigit(b / 16), HexDigit(b % 16)]
  }

  function HexOf(bs: seq<byte>): (s: string)
    ensures |s| == 2 * |bs|
  {
    if bs == [] then "" else HexByte(bs[0]) + HexOf(bs[1..])
  }

  /** hex2byte on the first two characters of a C string. */
  function ParseHexByte(s: string): Option<byte> {
    if |s| < 2 || HexVal(s[0]) < 0 || HexVal(s[1]) < 0 then None else Some(HexVal(s[0]) * 16 + HexVal(s[1]))
  }

  lemma HexByteParses(b: byte, rest: string)
    ensures ParseHexByte(HexByte(b) + rest) == Some(b)
  {
    var s := HexByte(b) + rest;
    assert s[0] == HexDigit(b / 16) && s[1] == HexDigit(b % 16);
  }

  /** hexstr2bin: the first `len` bytes spelled by `s`; what follows them is not looked at. */
  function ParseHex(s: string, len: nat): (r: Option<seq<byte>>)
    ensures r.Some? ==> |r.value| == len && 2 * len <= |s|
  {
    if len == 0 then Some([])
    else
      var b := ParseHexByte(s);
      if b.None? then None
      else
        var rest := ParseHex(s[2..], len - 1);
        if rest.None? then None else Some([b.value] + rest.value)
  }

  /** Printing bytes and parsing them back gives the bytes, whatever text follows. */
  lemma {:induction false} HexRoundTrip(bs: seq<byte>, rest: string)
    ensures ParseHex(HexOf(bs) + rest, |bs|) == Some(bs)
  {
    if bs != [] {
      hide HexByte, ParseHexByte;
      var more := HexOf(bs[1..]) + rest;
      assert HexOf(bs) + rest == HexByte(bs[0]) + more;
      assert (HexByte(bs[0]) + more)[2..] == more;
      HexByteParses(bs[0], more);
      HexRoundTrip(bs[1..], rest);
      assert bs == [bs[0]] + bs[1..];
    }
  }

  const LOWER_DIGITS: string := "0123456789abcdef"
  const UPPER_DIGITS: string := "0123456789ABCDEF"

  /** Both cases are accepted, and no other character is. */
  lemma HexValIff(c: char)
    ensures forall n :: 0 <= n < 16 ==> HexVal(LOWER_DIGITS[n]) == n && HexVal(UPPER_DIGITS[n]) == n
    ensures HexVal(c) >= 0 <==> c in LOWER_DIGITS || c in UPPER_DIGITS
  {
    var n := HexVal(c);
    if n >= 0 {
      assert c == LOWER_DIGITS[n] || c == UPPER_DIGITS[n];
    }
  }

  predicate IsHexDigit(c: char) {
    c in LOWER_DIGITS || c in UPPER_DIGITS
  }

  /** The first `2 * n` characters are hexadecimal digits. */
  predicate SpellsBytes(s: string, n: nat) {
    2 * n <= |s| && forall i :: 0 <= i < 2 * n ==> IsHexDigit(s[i])
  }

  lemma SpellsStep(s: string, n: nat)
    requires n > 0 && |s| >= 2
    ensures SpellsBytes(s, n) <==> IsHexDigit(s[0]) && IsHexDigit(s[1]) && SpellsBytes(s[2..], n - 1)
  {
    hide IsHexDigit;
    var rest := s[2..];
    if SpellsBytes(s, n) {
      assert forall i :: 0 <= i < 2 * (n - 1) ==> rest[i] == s[i + 2];
    }
    if IsHexDigit(s[0]) && IsHexDigit(s[1]) && SpellsBytes(rest, n - 1) {
      forall i | 0 <= i < 2 * n
        ensures IsHexDigit(s[i])
      {
        assert i >= 2 ==> s[i] == rest[i - 2];
      }
    }
  }

  /** hexstr2bin accepts just the texts that begin with enough digits ... */
  lemma {:induction false} ParseHexIff(s: string, n: nat)
    ensures ParseHex(s, n).Some? <==> SpellsBytes(s, n)
  {
    hide HexVal, IsHexDigit, SpellsBytes;
    if n == 0 {
      NoBytes(s);
    } else if |s| < 2 {
      TooShort(s, n);
    } else {
      DigitHasValue(s[0]);
      DigitHasValue(s[1]);
      SpellsStep(s, n);
      ParseHexIff(s[2..], n - 1);
    }
  }

  lemma TooShort(s: string, n: nat)
    requires |s| < 2 * n
    ensures !SpellsBytes(s, n)
  {
  }

  lemma DigitHasValue(c: char)
    ensures IsHexDigit(c) <==> HexVal(c) >= 0
  {
    HexValIff(c);
  }

  /** The bytes that the first `2 * n` digits spell, two digits each. */
  function SpelledBytes(s: string, n: nat): (bs: seq<byte>)
    requires SpellsBytes(s, n)
    ensures |bs| == n
  {
    seq(n, k requires 0 <= k < n => SpelledByte(s[2 * k], s[2 * k + 1]))
  }

  function SpelledByte(high: char, low: char): byte
    requires IsHexDigit(high) && IsHexDigit(low)
  {
    DigitHasValue(high);
    DigitHasValue(low);
    16 * HexVal(high) + HexVal(low)
  }

  lemma FirstByte(s: string, n: nat)
    requires n > 0 && SpellsBytes(s, n)
    ensures SpellsBytes(s[2..], n - 1)
    ensures SpelledBytes(s, n) == [SpelledByte(s[0], s[1])] + SpelledBytes(s[2..], n - 1)
  {
    hide IsHexDigit, SpelledByte;
    SpellsStep(s, n);
    var rest := s[2..];
    forall k | 0 < k < n
      ensures SpelledBytes(s, n)[k] == SpelledBytes(rest, n - 1)[k - 1]
    {
      assert rest[2 * (k - 1)] == s[2 * k] && rest[2 * (k - 1) + 1] == s[2 * k + 1];
    }
  }

  /** ... and reads them pair by pair. */
  lemma {:induction false} ParseHexIs(s: string, n: nat)
    ensures ParseHex(s, n) == if SpellsBytes(s, n) then Some(SpelledBytes(s, n)) else None
  {
    hide SpellsBytes, SpelledBytes, IsHexDigit, HexVal;
    ParseHexIff(s, n);
    if n == 0 {
      NoBytes(s);
    } else if SpellsBytes(s, n) {
      FirstByte(s, n);
      SpellsStep(s, n);
      ParseHexIs(s[2..], n - 1);
    }
  }

  lemma NoBytes(s: string)
    ensures SpellsBytes(s, 0) && SpelledBytes(s, 0) == []
  {
  }

  predicate IsHex(s: string) {
    forall i :: 0 <= i < |s| ==> '0' <= s[i] <= '9' || 'a' <= s[i] <= 'f'
  }

  lemma {:induction false} HexOfIsHex(bs: seq<byte>)
    ensures IsHex(HexOf(bs))
  {
    if bs != [] {
      HexOfIsHex(bs[1..]);
    }
  }

  // ---------------------------------------------------------------------------------------------
  // fgets
  // ---------------------------------------------------------------------------------------------

  /** How many characters fgets takes from `text` into a buffer of `size` characters. */
  function FgetsLen(text: string, size: nat): (n: nat)
    requires size >= 2
    ensures n <= |text| && n < size
    ensures text != "" ==> n > 0
  {
    var eol := Find(text, '\n');
    var line := if eol < |text| then eol + 1 else |text|;
    if line < size then line else size - 1
  }

  /** A line: it ends in a newline and has no other. */
  predicate IsLine(s: string) {
    |s| > 0 && s[|s| - 1] == '\n' && forall i :: 0 <= i < |s| - 1 ==> s[i] != '\n'
  }

  lemma FgetsTakesLine(line: string, rest: string, size: nat)
    requires IsLine(line) && |line| < size
    ensures FgetsLen(line + rest, size) == |line|
  {
    FindUnique(line + rest, '\n', |line| - 1);
  }

  // ---------------------------------------------------------------------------------------------
  // Lists
  // ---------------------------------------------------------------------------------------------

  function Reversed<T>(s: seq<T>): (r: seq<T>)
    ensures |r| == |s|
    ensures forall i :: 0 <= i < |s| ==> r[i] == s[|s| - 1 - i]
  {
    if s == [] then [] else Reversed(s[1..]) + [s[0]]
  }

  // ---------------------------------------------------------------------------------------------
  // Printing into a buffer
  // ---------------------------------------------------------------------------------------------

  /** Places below `pos` are as they were. */
  twostate predicate Keeps(buf: array<char>, pos: nat)
    requires pos <= buf.Length
    reads buf
  {
    forall j :: 0 <= j < pos ==> buf[j] == old(buf[j])
  }

  /**
  os_snprintf at `pos`: as much of `s` as fits in front of a NUL is written; the result is the length
  of `s`, also when it did not fit.
  */
  method Snprintf(buf: array<char>, pos: nat, s: string) returns (ret: nat)
    requires pos < buf.Length
    modifies buf
    ensures ret == |s| && Keeps(buf, pos)
    ensures |s| < buf.Length - pos ==> buf[pos..pos + |s|] == s
  {
    var n := if |s| < buf.Length - pos then |s| else buf.Length - pos - 1;
    for i := 0 to n
      invariant Keeps(buf, pos)
      invariant forall j :: pos <= j < pos + i ==> buf[j] == s[j - pos]
    {
      buf[pos + i] := s[i];
    }
    buf[pos + n] := NUL;
    return |s|;
  }
}
