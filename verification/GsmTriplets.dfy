/**
The GSM triplet store of the HLR/AuC gateway (hostapd/hlr_auc_gw.c): a list searched from a cursor
that moves past each entry handed out, so that the entries of an IMSI are used in rotation.
*/
module GsmTriplets {
  import opened Text
  import opened EapSimPeer

  const MAX_CHAL: nat := 3
  const IMSI_SIZE: nat := 20
  // the reply buffer of process
  const RESP_SIZE: nat := 1000

  datatype Triplet = Triplet(imsi: string, kc: seq<byte>, sres: seq<byte>, rand: seq<byte>)

  /** The sizes of the fields of struct gsm_triplet. */
  predicate ValidTriplet(t: Triplet) {
    |t.imsi| < IMSI_SIZE && |t.kc| == 8 && |t.sres| == 4 && |t.rand| == 16
  }

  // ---------------------------------------------------------------------------------------------
  // One lookup
  // ---------------------------------------------------------------------------------------------

  /** The first entry of `imsi` at an index from `a` on and below `b`, or `b` when there is none. */
  function FirstFrom(db: seq<Triplet>, imsi: string, a: nat, b: nat): (i: nat)
    requires a <= b <= |db|
    ensures a <= i <= b
    ensures i < b ==> db[i].imsi == imsi
    decreases b - a
  {
    if a == b || db[a].imsi == imsi then a else FirstFrom(db, imsi, a + 1, b)
  }

  /** The entry a lookup returns from cursor `pos`; the cursor |db| stands for NULL. */
  function Next(db: seq<Triplet>, pos: nat, imsi: string): (r: Option<nat>)
    requires pos <= |db|
    ensures r.Some? ==> r.value < |db| && db[r.value].imsi == imsi
  {
    var i := FirstFrom(db, imsi, pos, |db|);
    if i < |db| then Some(i)
    else
      var j := FirstFrom(db, imsi, 0, pos);
      if j < pos then Some(j) else None
  }

  /** The cursor after a lookup: behind the entry returned, or where it was. */
  function Moved(db: seq<Triplet>, pos: nat, imsi: string): (p: nat)
    requires pos <= |db|
    ensures p <= |db|
  {
    var r := Next(db, pos, imsi);
    if r.Some? then r.value + 1 else pos
  }

  /** The cursor after `k` lookups of `imsi`. */
  function Cursor(db: seq<Triplet>, pos: nat, imsi: string, k: nat): (p: nat)
    requires pos <= |db|
    ensures p <= |db|
  {
    if k == 0 then pos else Moved(db, Cursor(db, pos, imsi, k - 1), imsi)
  }

  /** What the k-th lookup (counting from 0) returns. */
  function Result(db: seq<Triplet>, pos: nat, imsi: string, k: nat): Option<nat>
    requires pos <= |db|
  {
    Next(db, Cursor(db, pos, imsi, k), imsi)
  }

  /** `" Kc:SRES:RAND"` */
  function ReplyField(t: Triplet): string {
    " " + HexOf(t.kc) + ":" + HexOf(t.sres) + ":" + HexOf(t.rand)
  }

  function ReplyFields(ts: seq<Triplet>): string {
    if ts == [] then "" else ReplyFields(ts[..|ts| - 1]) + ReplyField(ts[|ts| - 1])
  }

  /** The triplets the first `n` lookups return; fewer only when nothing matches. */
  function Chosen(db: seq<Triplet>, pos: nat, imsi: string, n: nat): (ts: seq<Triplet>)
    requires pos <= |db|
  {
    if n == 0 then []
    else
      var r := Result(db, pos, imsi, n - 1);
      if r.None? then [] else Chosen(db, pos, imsi, n - 1) + [db[r.value]]
  }

  /** How many challenges a request gets: what it asks for within 1 to 3, else 3. */
  function Challenges(asked: Option<int>): (n: nat)
    ensures 1 <= n <= MAX_CHAL
  {
    if asked.Some? && 1 <= asked.value <= MAX_CHAL then asked.value else MAX_CHAL
  }

  class TripletStore {
    const db: seq<Triplet>
    var pos: nat

    constructor (db: seq<Triplet>)
      requires forall i :: 0 <= i < |db| ==> ValidTriplet(db[i])
      ensures Valid() && this.db == db && pos == |db|
    {
      this.db := db;
      pos := |db|;
    }

    ghost predicate Valid()
      reads this
    {
      pos <= |db| && forall i :: 0 <= i < |db| ==> ValidTriplet(db[i])
    }

    method GetGsmTriplet(imsi: string) returns (r: Option<nat>)
      requires Valid()
      modifies this
      ensures Valid()
      ensures r == Next(db, old(pos), imsi) && pos == Moved(db, old(pos), imsi)
    {
      var g := pos;
      while g < |db|
        invariant pos == old(pos) <= g <= |db|
        invariant FirstFrom(db, imsi, pos, |db|) == FirstFrom(db, imsi, g, |db|)
      {
        if db[g].imsi == imsi {
          pos := g + 1;
          return Some(g);
        }
        g := g + 1;
      }
      g := 0;
      while g < |db| && g != pos
        invariant pos == old(pos) && 0 <= g <= pos
        invariant FirstFrom(db, imsi, 0, pos) == FirstFrom(db, imsi, g, pos)
        decreases |db| - g
      {
        if db[g].imsi == imsi {
          pos := g + 1;
          return Some(g);
        }
        g := g + 1;
      }
      return None;
    }

    /**
    sim_req_auth for an IMSI without Milenage parameters; `asked` is the number of challenges in the
    request, if it has one.
    */
    method SimReqAuth(imsi: string, asked: Option<int>) returns (ret: int, resp: string)
      requires Valid()
      modifies this
      ensures Valid()
      ensures var head, ts := "SIM-RESP-AUTH " + imsi, Chosen(db, old(pos), imsi, Challenges(asked));
              && (ret == 0 <==> |head| + (if ts == [] then 8 else 0) < RESP_SIZE)
              && (ret == 0 ==> resp == head + (if ts == [] then " FAILURE" else ReplyFields(ts)) && |resp| < RESP_SIZE)
              && pos == if |head| < RESP_SIZE then Cursor(db, old(pos), imsi, Challenges(asked)) else old(pos)
      ensures ret == 0 && ' ' !in imsi ==>
                if forall i :: 0 <= i < |db| ==> db[i].imsi != imsi then DeliversFailure(resp, imsi)
                else
                  var n := if asked.Some? && asked.value in {1, 2, 3} then asked.value else 3;
                  Delivers(resp, db, old(pos), imsi, n)
    {
      var maxChal := MAX_CHAL;
      if asked.Some? {
        maxChal := asked.value;
        if maxChal < 1 || maxChal > MAX_CHAL {
          maxChal := MAX_CHAL;
        }
      }
      resp := "SIM-RESP-AUTH " + imsi;
      if |resp| >= RESP_SIZE {
        LongNameUnknown(db, pos, imsi, Challenges(asked));
        return -1, resp;
      }
      hide *;
      ghost var p0 := pos;
      var fields, count := AppendTriplets(imsi, maxChal);
      ChallengesIs(asked, maxChal);
      ReplyFits(db, p0, imsi, maxChal);
      ReplyIsRead(db, p0, imsi, maxChal);
      if count == 0 {
        if 8 >= RESP_SIZE - |resp| {
          return -1, resp;
        }
        resp := resp + " FAILURE";
        return 0, resp;
      }
      resp := resp + fields;
      return 0, resp;
    }

    /** The loop of sim_req_auth: triplets until there are enough, or none. */
    method AppendTriplets(imsi: string, maxChal: nat) returns (fields: string, count: nat)
      requires Valid()
      modifies this
      ensures Valid()
      ensures var ts := Chosen(db, old(pos), imsi, maxChal); fields == ReplyFields(ts) && count == |ts|
      ensures pos == Cursor(db, old(pos), imsi, maxChal)
    {
      hide FirstFrom, ReplyFields, Chosen, Matches, Moved, Next;
      ghost var p0 := pos;
      fields, count := "", 0;
      NoneAsked(db, p0, imsi);
      while count < maxChal
        invariant Valid() && count <= maxChal
        invariant pos == Cursor(db, p0, imsi, count)
        invariant |Chosen(db, p0, imsi, count)| == count
        invariant fields == ReplyFields(Chosen(db, p0, imsi, count))
      {
        NoneIffNoMatch(db, pos, imsi);
        var g := GetGsmTriplet(imsi);
        if g.None? {
          NothingChosen(db, p0, imsi, maxChal);
          NothingChosen(db, p0, imsi, count);
          break;
        }
        ChosenStep(db, p0, imsi, count, g.value);
        fields := fields + ReplyField(db[g.value]);
        count := count + 1;
      }
    }
  }

  lemma ChallengesIs(asked: Option<int>, n: nat)
    requires n == if asked.Some? && 1 <= asked.value <= MAX_CHAL then asked.value else MAX_CHAL
    ensures Challenges(asked) == n
  {
  }

  lemma FieldLength(t: Triplet)
    requires ValidTriplet(t)
    ensures |ReplyField(t)| == 59
  {
  }

  lemma {:induction false} FieldsLength(db: seq<Triplet>, pos: nat, imsi: string, n: nat)
    requires pos <= |db| && forall i :: 0 <= i < |db| ==> ValidTriplet(db[i])
    ensures var ts := Chosen(db, pos, imsi, n);
            |ts| <= n && |ReplyFields(ts)| == 59 * |ts| && (ts != [] ==> |imsi| < IMSI_SIZE)
  {
    hide Cursor, Moved, Next, ReplyField;
    if n > 0 {
      FieldsLength(db, pos, imsi, n - 1);
      var r := Result(db, pos, imsi, n - 1);
      if r.Some? {
        var ts, t := Chosen(db, pos, imsi, n - 1), db[r.value];
        NextMatches(db, pos, imsi, n - 1);
        assert (ts + [t])[..|ts|] == ts;
        FieldLength(t);
      }
    }
  }

  lemma NextMatches(db: seq<Triplet>, pos: nat, imsi: string, k: nat)
    requires pos <= |db|
    ensures var r := Result(db, pos, imsi, k); r.Some? ==> r.value < |db| && db[r.value].imsi == imsi
  {
  }

  /** A reply with triplets fits the buffer of the process. */
  lemma ReplyFits(db: seq<Triplet>, pos: nat, imsi: string, n: nat)
    requires pos <= |db| && n <= MAX_CHAL && forall i :: 0 <= i < |db| ==> ValidTriplet(db[i])
    ensures var ts := Chosen(db, pos, imsi, n);
            (|ts| == 0 <==> ts == []) && (ts != [] ==> 14 + |imsi| + |ReplyFields(ts)| < RESP_SIZE)
  {
    FieldsLength(db, pos, imsi, n);
  }

  /** A name that leaves no room for a reply is no subscriber's. */
  lemma LongNameUnknown(db: seq<Triplet>, pos: nat, imsi: string, n: nat)
    requires pos <= |db| && |imsi| >= IMSI_SIZE && forall i :: 0 <= i < |db| ==> ValidTriplet(db[i])
    ensures Chosen(db, pos, imsi, n) == []
  {
    FieldsLength(db, pos, imsi, n);
  }

  lemma NoneAsked(db: seq<Triplet>, pos: nat, imsi: string)
    requires pos <= |db|
    ensures Chosen(db, pos, imsi, 0) == [] && ReplyFields(Chosen(db, pos, imsi, 0)) == ""
  {
  }

  lemma ChosenStep(db: seq<Triplet>, pos: nat, imsi: string, k: nat, g: nat)
    requires pos <= |db| && g < |db| && Result(db, pos, imsi, k) == Some(g)
    ensures var ts := Chosen(db, pos, imsi, k);
            && |Chosen(db, pos, imsi, k + 1)| == |ts| + 1
            && ReplyFields(Chosen(db, pos, imsi, k + 1)) == ReplyFields(ts) + ReplyField(db[g])
  {
    var ts := Chosen(db, pos, imsi, k);
    assert Chosen(db, pos, imsi, k + 1) == ts + [db[g]];
    assert (ts + [db[g]])[..|ts|] == ts;
  }

  /** When nothing matches, no number of lookups moves the cursor or finds anything. */
  lemma {:induction false} NothingChosen(db: seq<Triplet>, pos: nat, imsi: string, n: nat)
    requires pos <= |db| && Matches(db, imsi, |db|) == []
    ensures Cursor(db, pos, imsi, n) == pos && Chosen(db, pos, imsi, n) == []
  {
    if n > 0 {
      NothingChosen(db, pos, imsi, n - 1);
      NoneIffNoMatch(db, pos, imsi);
    }
  }

  // ---------------------------------------------------------------------------------------------
  // Round robin
  // ---------------------------------------------------------------------------------------------

  /** The indices below `k` of the entries of `imsi`, in order. */
  function Matches(db: seq<Triplet>, imsi: string, k: nat): seq<nat>
    requires k <= |db|
  {
    if k == 0 then []
    else if db[k - 1].imsi == imsi then Matches(db, imsi, k - 1) + [k - 1]
    else Matches(db, imsi, k - 1)
  }

  lemma {:induction false} MatchesSound(db: seq<Triplet>, imsi: string, k: nat)
    requires k <= |db|
    ensures forall j :: 0 <= j < |Matches(db, imsi, k)| ==>
              Matches(db, imsi, k)[j] < k && db[Matches(db, imsi, k)[j]].imsi == imsi
    ensures forall i, j :: 0 <= i < j < |Matches(db, imsi, k)| ==>
              Matches(db, imsi, k)[i] < Matches(db, imsi, k)[j]
    ensures forall i :: 0 <= i < k && db[i].imsi == imsi ==> i in Matches(db, imsi, k)
  {
    if k > 0 {
      MatchesSound(db, imsi, k - 1);
    }
  }

  lemma {:induction false} MatchesPrefix(db: seq<Triplet>, imsi: string, a: nat, b: nat)
    requires a <= b <= |db|
    ensures Matches(db, imsi, a) <= Matches(db, imsi, b)
  {
    if a < b {
      MatchesPrefix(db, imsi, a, b - 1);
    }
  }

  /** The search returns the match whose rank is the number of matches before its start. */
  lemma {:induction false} FirstFromRank(db: seq<Triplet>, imsi: string, a: nat, b: nat)
    requires a <= b <= |db|
    ensures var i := FirstFrom(db, imsi, a, b); var r := |Matches(db, imsi, a)|;
            && Matches(db, imsi, i) == Matches(db, imsi, a)
            && (i < b ==> Matches(db, imsi, i + 1) == Matches(db, imsi, a) + [i])
            && (i == b ==> Matches(db, imsi, b) == Matches(db, imsi, a))
    decreases b - a
  {
    if a < b && db[a].imsi != imsi {
      FirstFromRank(db, imsi, a + 1, b);
    }
  }

  lemma NoneIffNoMatch(db: seq<Triplet>, pos: nat, imsi: string)
    requires pos <= |db|
    ensures Next(db, pos, imsi).None? <==> Matches(db, imsi, |db|) == []
    ensures Next(db, pos, imsi).None? <==> forall i :: 0 <= i < |db| ==> db[i].imsi != imsi
    ensures Next(db, pos, imsi).None? ==> Moved(db, pos, imsi) == pos
  {
    FirstFromRank(db, imsi, pos, |db|);
    FirstFromRank(db, imsi, 0, pos);
    MatchesSound(db, imsi, |db|);
    MatchesPrefix(db, imsi, pos, |db|);
    MatchesPrefix(db, imsi, FirstFrom(db, imsi, 0, pos), |db|);
    if FirstFrom(db, imsi, pos, |db|) < |db| {
      assert FirstFrom(db, imsi, pos, |db|) in Matches(db, imsi, |db|);
    } else if FirstFrom(db, imsi, 0, pos) < pos {
      assert FirstFrom(db, imsi, 0, pos) in Matches(db, imsi, |db|);
    }
  }

  /** One lookup returns the match at the cursor's rank, wrapping to the first, and moves behind it. */
  lemma NextByRank(db: seq<Triplet>, pos: nat, imsi: string)
    requires pos <= |db| && Matches(db, imsi, |db|) != []
    ensures var all, r := Matches(db, imsi, |db|), |Matches(db, imsi, pos)|;
            var t := if r < |all| then r else 0;
            && r <= |all| && t < |all|
            && Next(db, pos, imsi) == Some(all[t])
            && |Matches(db, imsi, Moved(db, pos, imsi))| == t + 1
  {
    var all := Matches(db, imsi, |db|);
    MatchesPrefix(db, imsi, pos, |db|);
    FirstFromRank(db, imsi, pos, |db|);
    FirstFromRank(db, imsi, 0, pos);
    NoneIffNoMatch(db, pos, imsi);
    var i := Next(db, pos, imsi).value;
    MatchesPrefix(db, imsi, i + 1, |db|);
    assert i == Matches(db, imsi, i + 1)[|Matches(db, imsi, i + 1)| - 1];
  }

  lemma ModNext(m: nat, r: nat, k: nat, rank: nat)
    requires m > 0 && rank <= m && rank % m == (r + k) % m
    ensures ((if rank < m then rank else 0) + 1) % m == (r + k + 1) % m
    ensures (if rank < m then rank else 0) == (r + k) % m
  {
    var x := (r + k) / m;
    assert r + k == x * m + (r + k) % m;
    if rank < m {
      Remainder(m, 0, rank, rank);
    } else {
      Remainder(m, 1, 0, rank);
    }
    var y := (r + k) % m;
    if y + 1 < m {
      Remainder(m, x, y + 1, r + k + 1);
      Remainder(m, 0, y + 1, y + 1);
    } else {
      assert (x + 1) * m == x * m + m;
      Remainder(m, x + 1, 0, r + k + 1);
      Remainder(m, 1, 0, m);
    }
  }

  lemma Remainder(m: nat, q: nat, y: nat, v: nat)
    requires m > 0 && v == q * m + y && y < m
    ensures v % m == y
  {
    var d := q - v / m;
    assert d * m == v % m - y;
  }

  /** The k-th lookup returns match number (r + k) mod m, where r matches lie before the cursor. */
  lemma {:induction false} RoundRobin(db: seq<Triplet>, pos: nat, imsi: string, k: nat)
    requires pos <= |db| && Matches(db, imsi, |db|) != []
    ensures var all, r := Matches(db, imsi, |db|), |Matches(db, imsi, pos)|;
            && Result(db, pos, imsi, k) == Some(all[(r + k) % |all|])
            && |Matches(db, imsi, Cursor(db, pos, imsi, k))| <= |all|
            && |Matches(db, imsi, Cursor(db, pos, imsi, k))| % |all| == (r + k) % |all|
  {
    var all, r := Matches(db, imsi, |db|), |Matches(db, imsi, pos)|;
    var c := Cursor(db, pos, imsi, k);
    if k > 0 {
      RoundRobin(db, pos, imsi, k - 1);
      var before := Cursor(db, pos, imsi, k - 1);
      NextByRank(db, before, imsi);
      ModNext(|all|, r, k - 1, |Matches(db, imsi, before)|);
    }
    NextByRank(db, c, imsi);
    ModNext(|all|, r, k, |Matches(db, imsi, c)|);
  }

  lemma ModDistinct(m: nat, a: nat, b: nat)
    requires a < b < a + m
    ensures a % m != b % m
  {
    var x := a / m;
    assert a == x * m + a % m && (x + 1) * m == x * m + m;
    if b < (x + 1) * m {
      Remainder(m, x, b - x * m, b);
    } else {
      Remainder(m, x + 1, b - (x + 1) * m, b);
    }
  }

  lemma AddModulus(m: nat, a: nat)
    requires m > 0
    ensures (a + m) % m == a % m
  {
    var x := a / m;
    assert a == x * m + a % m && (x + 1) * m == x * m + m;
    Remainder(m, x + 1, a % m, a + m);
  }

  /** Any m consecutive lookups return m different entries ... */
  lemma ConsecutiveDiffer(db: seq<Triplet>, pos: nat, imsi: string, a: nat, b: nat)
    requires pos <= |db| && a < b < a + |Matches(db, imsi, |db|)|
    ensures Result(db, pos, imsi, a) != Result(db, pos, imsi, b)
  {
    var all, r := Matches(db, imsi, |db|), |Matches(db, imsi, pos)|;
    RoundRobin(db, pos, imsi, a);
    RoundRobin(db, pos, imsi, b);
    ModDistinct(|all|, r + a, r + b);
    MatchesSound(db, imsi, |db|);
  }

  /** ... hence every matching entry, from whichever call on they are counted ... */
  lemma EveryMatchReturned(db: seq<Triplet>, pos: nat, imsi: string, a: nat, i: nat) returns (k: nat)
    requires pos <= |db| && i < |db| && db[i].imsi == imsi
    ensures a <= k < a + |Matches(db, imsi, |db|)| && Result(db, pos, imsi, k) == Some(i)
  {
    var all, r := Matches(db, imsi, |db|), |Matches(db, imsi, pos)|;
    MatchesSound(db, imsi, |db|);
    assert i in all;
    var t :| 0 <= t < |all| && all[t] == i;
    var d := StepTo(|all|, r + a, t);
    k := a + d;
    RoundRobin(db, pos, imsi, k);
  }

  lemma StepTo(m: nat, s: nat, t: nat) returns (d: nat)
    requires t < m
    ensures d < m && (s + d) % m == t
  {
    var y, x := s % m, s / m;
    assert s == x * m + y;
    if y <= t {
      d := t - y;
      Remainder(m, x, t, s + d);
    } else {
      d := t + m - y;
      assert (x + 1) * m == x * m + m;
      Remainder(m, x + 1, t, s + d);
    }
  }

  /** ... and the m-th lookup after one repeats it. */
  lemma RepeatsAfterAll(db: seq<Triplet>, pos: nat, imsi: string, k: nat)
    requires pos <= |db| && Matches(db, imsi, |db|) != []
    ensures Result(db, pos, imsi, k + |Matches(db, imsi, |db|)|) == Result(db, pos, imsi, k)
  {
    var m, r := |Matches(db, imsi, |db|)|, |Matches(db, imsi, pos)|;
    RoundRobin(db, pos, imsi, k);
    RoundRobin(db, pos, imsi, k + m);
    AddModulus(m, r + k);
  }

  /** With any match at all a reply holds as many triplets as were asked for. */
  lemma {:induction false} ChosenIsFull(db: seq<Triplet>, pos: nat, imsi: string, n: nat)
    requires pos <= |db| && Matches(db, imsi, |db|) != []
    ensures |Chosen(db, pos, imsi, n)| == n
    ensures forall k :: 0 <= k < n ==>
              var r := Result(db, pos, imsi, k); r.Some? && Chosen(db, pos, imsi, n)[k] == db[r.value]
  {
    if n > 0 {
      ChosenIsFull(db, pos, imsi, n - 1);
      NoneIffNoMatch(db, Cursor(db, pos, imsi, n - 1), imsi);
    }
  }

  /** The triplets of one reply are pairwise different exactly when the store holds enough of them. */
  lemma ReplyDistinctIffEnough(db: seq<Triplet>, pos: nat, imsi: string, n: nat)
    requires pos <= |db| && Matches(db, imsi, |db|) != []
    ensures (forall a, b :: 0 <= a < b < n ==> Result(db, pos, imsi, a) != Result(db, pos, imsi, b))
        <==> n <= |Matches(db, imsi, |db|)|
  {
    var m := |Matches(db, imsi, |db|)|;
    if n <= m {
      forall a, b | 0 <= a < b < n
        ensures Result(db, pos, imsi, a) != Result(db, pos, imsi, b)
      {
        ConsecutiveDiffer(db, pos, imsi, a, b);
      }
    } else {
      RepeatsAfterAll(db, pos, imsi, 0);
      assert Result(db, pos, imsi, 0) == Result(db, pos, imsi, m);
    }
  }

  // ---------------------------------------------------------------------------------------------
  // What the peer makes of a reply
  // ---------------------------------------------------------------------------------------------

  function ChallengeOf(t: Triplet): Challenge {
    Challenge(t.kc, t.sres, t.rand)
  }

  /** The peer reads `resp` as `n` challenges: the entries of the IMSI from the cursor on, in rotation. */
  predicate Delivers(resp: string, db: seq<Triplet>, pos: nat, imsi: string, n: nat)
    requires pos <= |db|
  {
    var q := Receive(resp);
    && q.Some? && q.value.cmd == "SIM-RESP-AUTH" && q.value.imsi == imsi
    && var r := ReadSim(q.value.body);
       && r.Some? && r.value.SimChallenges? && |r.value.list| == n
       && var all, start := Matches(db, imsi, |db|), |Matches(db, imsi, pos)|;
          && |all| > 0 && (forall j :: 0 <= j < |all| ==> all[j] < |db|)
          && forall k :: 0 <= k < n ==> r.value.list[k] == ChallengeOf(db[all[(start + k) % |all|]])
  }

  predicate DeliversFailure(resp: string, imsi: string) {
    var q := Receive(resp);
    q.Some? && q.value.cmd == "SIM-RESP-AUTH" && q.value.imsi == imsi && ReadSim(q.value.body) == Some(SimFailure)
  }

  lemma {:induction false} FieldsFirst(ts: seq<Triplet>)
    requires ts != []
    ensures ReplyFields(ts) == ReplyField(ts[0]) + ReplyFields(ts[1..])
  {
    hide ReplyField;
    if |ts| > 1 {
      var front := ts[..|ts| - 1];
      FieldsFirst(front);
      assert front[1..] == ts[1..][..|ts| - 2];
    } else {
      assert ts[..|ts| - 1] == [] && ts[1..] == [];
      assert "" + ReplyField(ts[0]) == ReplyField(ts[0]) + "";
    }
  }

  /** One printed triplet: a blank and the text of the challenge. */
  lemma FieldIsRead(t: Triplet)
    requires ValidTriplet(t)
    ensures ReplyField(t) == " " + ReplyField(t)[1..]
    ensures var s := ReplyField(t)[1..];
            ReadChallenge(s) == Some(ChallengeOf(t)) && ' ' !in s && forall rest: string :: !SaysFailure(s + rest)
  {
    hide HexOf, ReadChallenge, SaysFailure;
    var s := HexOf(t.kc) + (":" + (HexOf(t.sres) + (":" + HexOf(t.rand))));
    assert ReplyField(t) == " " + s;
    assert ReplyField(t)[1..] == s;
    ChallengeIsRead(ChallengeOf(t));
  }

  function ChallengesOf(ts: seq<Triplet>): (cs: seq<Challenge>)
    ensures |cs| == |ts| && forall k :: 0 <= k < |ts| ==> cs[k] == ChallengeOf(ts[k])
  {
    if ts == [] then [] else [ChallengeOf(ts[0])] + ChallengesOf(ts[1..])
  }

  /** The text behind the first blank is read as the triplets, as long as there are not too many. */
  lemma {:induction false} FieldsAreRead(ts: seq<Triplet>, n: nat)
    requires 0 < |ts| <= n && forall k :: 0 <= k < |ts| ==> ValidTriplet(ts[k])
    ensures ReplyFields(ts) == " " + ReplyFields(ts)[1..] && !SaysFailure(ReplyFields(ts)[1..])
    ensures ReadChallenges(ReplyFields(ts)[1..], n) == Some(ChallengesOf(ts))
  {
    hide *;
    FieldsFirst(ts);
    FieldIsRead(ts[0]);
    ChallengesFirst(ts);
    var s := ReplyField(ts[0])[1..];
    if |ts| == 1 {
      NoFields(ts[1..]);
      LastChallenge(s, ChallengeOf(ts[0]), n);
      assert ReplyField(ts[0]) + "" == ReplyField(ts[0]) && s + "" == s;
    } else {
      FieldsAreRead(ts[1..], n - 1);
      var more := ReplyFields(ts[1..])[1..];
      assert ReplyFields(ts)[1..] == s + (" " + more);
      ChallengeThen(s, ChallengeOf(ts[0]), more, n);
    }
  }

  lemma ChallengesFirst(ts: seq<Triplet>)
    requires ts != []
    ensures ChallengesOf(ts) == [ChallengeOf(ts[0])] + ChallengesOf(ts[1..])
    ensures |ts| == 1 ==> ChallengesOf(ts) == [ChallengeOf(ts[0])]
  {
  }

  lemma LastChallenge(s: string, c: Challenge, n: nat)
    requires n > 0 && ' ' !in s && ReadChallenge(s) == Some(c)
    ensures ReadChallenges(s, n) == Some([c])
  {
    hide ReadChallenge;
    FindUnique(s, ' ', |s|);
    assert s[..|s|] == s;
  }

  lemma ChallengeThen(s: string, c: Challenge, more: string, n: nat)
    requires n > 1 && ' ' !in s && ReadChallenge(s) == Some(c)
    ensures ReadChallenges(s + (" " + more), n)
            == var rest := ReadChallenges(more, n - 1); if rest.None? then None else Some([c] + rest.value)
  {
    hide ReadChallenge;
    CutAtBlank(s, more);
  }

  lemma NoFields(ts: seq<Triplet>)
    requires ts == []
    ensures ReplyFields(ts) == ""
  {
  }

  lemma {:induction false} ChosenAreValid(db: seq<Triplet>, pos: nat, imsi: string, n: nat)
    requires pos <= |db| && forall i :: 0 <= i < |db| ==> ValidTriplet(db[i])
    ensures forall k :: 0 <= k < |Chosen(db, pos, imsi, n)| ==> ValidTriplet(Chosen(db, pos, imsi, n)[k])
  {
    hide Result, ValidTriplet;
    if n > 0 {
      ChosenAreValid(db, pos, imsi, n - 1);
      NextMatches(db, pos, imsi, n - 1);
    }
  }

  /** The chosen triplets are the matches in rotation. */
  lemma ChosenRotate(db: seq<Triplet>, pos: nat, imsi: string, n: nat)
    requires pos <= |db| && Matches(db, imsi, |db|) != []
    ensures var all, start := Matches(db, imsi, |db|), |Matches(db, imsi, pos)|;
            && |Chosen(db, pos, imsi, n)| == n && (forall j :: 0 <= j < |all| ==> all[j] < |db|)
            && forall k :: 0 <= k < n ==> Chosen(db, pos, imsi, n)[k] == db[all[(start + k) % |all|]]
  {
    hide Result, Chosen, Matches, Cursor;
    MatchesSound(db, imsi, |db|);
    ChosenIsFull(db, pos, imsi, n);
    var all, start := Matches(db, imsi, |db|), |Matches(db, imsi, pos)|;
    forall k | 0 <= k < n
      ensures Chosen(db, pos, imsi, n)[k] == db[all[(start + k) % |all|]]
    {
      RoundRobin(db, pos, imsi, k);
    }
  }

  lemma HeadFirst(imsi: string, fields: string)
    requires fields != "" && fields[0] == ' '
    ensures "SIM-RESP-AUTH " + imsi + fields == "SIM-RESP-AUTH" + (" " + (imsi + (" " + fields[1..])))
  {
    assert fields == " " + fields[1..];
  }

  /** Every reply is read by the peer as the triplets it was made of, or as a failure when there are none. */
  lemma ReplyIsRead(db: seq<Triplet>, pos: nat, imsi: string, n: nat)
    requires pos <= |db| && 0 < n <= MAX_CHAL && forall i :: 0 <= i < |db| ==> ValidTriplet(db[i])
    ensures var ts := Chosen(db, pos, imsi, n);
            && (ts == [] <==> forall i :: 0 <= i < |db| ==> db[i].imsi != imsi)
            && (' ' !in imsi ==>
                  if ts == [] then DeliversFailure("SIM-RESP-AUTH " + imsi + " FAILURE", imsi)
                  else Delivers("SIM-RESP-AUTH " + imsi + ReplyFields(ts), db, pos, imsi, n))
  {
    hide Chosen, Matches, ReplyFields, ReadChallenges, Receive, ValidTriplet, Cursor;
    var ts := Chosen(db, pos, imsi, n);
    NoneIffNoMatch(db, pos, imsi);
    if Matches(db, imsi, |db|) == [] {
      NothingChosen(db, pos, imsi, n);
      HeadFirst(imsi, " FAILURE");
      if ' ' !in imsi {
        MessageIsReceived("SIM-RESP-AUTH", imsi, "FAILURE");
      }
    } else {
      ChosenRotate(db, pos, imsi, n);
      ChosenAreValid(db, pos, imsi, n);
      FieldsAreRead(ts, CHALLENGES);
      HeadFirst(imsi, ReplyFields(ts));
      if ' ' !in imsi {
        MessageIsReceived("SIM-RESP-AUTH", imsi, ReplyFields(ts)[1..]);
      }
    }
  }
}
