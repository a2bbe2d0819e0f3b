/**
Which of the authentication vectors issued by the gateway a USIM accepts when they arrive out of
order. The USIM keeps one SEQ per IND value and accepts a vector iff its SEQ exceeds the stored one,
the freshness rule of Annex C.2.2 of 3GPP TS 33.102.
*/
module HlrUsim {
  import opened HlrSqn

  /** The USIM's array: entry `ind` holds the highest SEQ accepted with that IND. */
  type Usim = seq<nat>

  predicate ValidUsim(u: Usim, indLen: IndLen) {
    |u| == Pow2(indLen)
  }

  predicate Accepts(u: Usim, sqn: nat, indLen: IndLen)
    requires ValidUsim(u, indLen)
  {
    SplitFields(sqn, indLen);
    Seq(sqn, indLen) > u[Ind(sqn, indLen)]
  }

  /** The USIM after the first `k` arrivals; a rejected vector leaves it unchanged. */
  function After(u: Usim, sqns: seq<nat>, k: nat, indLen: IndLen): (r: Usim)
    requires ValidUsim(u, indLen) && k <= |sqns|
    ensures ValidUsim(r, indLen)
  {
    if k == 0 then u
    else
      SplitFields(sqns[k - 1], indLen);
      var before := After(u, sqns, k - 1, indLen);
      if Accepts(before, sqns[k - 1], indLen)
      then before[Ind(sqns[k - 1], indLen) := Seq(sqns[k - 1], indLen)]
      else before
  }

  predicate AcceptedAt(u: Usim, sqns: seq<nat>, k: nat, indLen: IndLen)
    requires ValidUsim(u, indLen) && k < |sqns|
  {
    Accepts(After(u, sqns, k, indLen), sqns[k], indLen)
  }

  /** An entry is the largest of its initial value and the SEQs that arrived with its IND. */
  lemma {:induction false} EntryIsMax(u: Usim, sqns: seq<nat>, k: nat, indLen: IndLen, ind: nat)
    requires ValidUsim(u, indLen) && k <= |sqns| && ind < |u|
    ensures var e := After(u, sqns, k, indLen)[ind];
            && u[ind] <= e
            && (forall p :: 0 <= p < k && Ind(sqns[p], indLen) == ind ==> Seq(sqns[p], indLen) <= e)
            && (e == u[ind] || exists p :: 0 <= p < k && Ind(sqns[p], indLen) == ind && Seq(sqns[p], indLen) == e)
  {
    if k > 0 {
      EntryIsMax(u, sqns, k - 1, indLen, ind);
      assert Ind(sqns[k - 1], indLen) == ind ==> Seq(sqns[k - 1], indLen) <= After(u, sqns, k, indLen)[ind];
    }
  }

  /** A vector is accepted iff it beats the initial entry and everything that came before it with its IND. */
  lemma AcceptedIffNewest(u: Usim, sqns: seq<nat>, k: nat, indLen: IndLen)
    requires ValidUsim(u, indLen) && k < |sqns|
    ensures Ind(sqns[k], indLen) < |u|
    ensures AcceptedAt(u, sqns, k, indLen)
        <==> && Seq(sqns[k], indLen) > u[Ind(sqns[k], indLen)]
             && forall p :: 0 <= p < k && Ind(sqns[p], indLen) == Ind(sqns[k], indLen) ==>
                              Seq(sqns[p], indLen) < Seq(sqns[k], indLen)
  {
    SplitFields(sqns[k], indLen);
    EntryIsMax(u, sqns, k, indLen, Ind(sqns[k], indLen));
  }

  // ---------------------------------------------------------------------------------------------
  // Deliveries of the gateway's vectors
  // ---------------------------------------------------------------------------------------------

  /** The SQN of the i-th vector (counting from 0) issued from the stored value `v`. */
  function Vector(v: nat, indLen: IndLen, i: nat): nat {
    IncTimes(v, indLen, i + 1)
  }

  /** The SQNs in the order of arrival; `d[k]` is the number of the vector that arrives k-th. */
  function Arrivals(v: nat, indLen: IndLen, d: seq<nat>): seq<nat> {
    seq(|d|, k requires 0 <= k < |d| => Vector(v, indLen, d[k]))
  }

  /** Every delivered vector is issued before SEQ wraps, and at most once delivered. */
  predicate Delivery(v: nat, indLen: IndLen, d: seq<nat>) {
    && v < SQN_MOD
    && (forall k :: 0 <= k < |d| ==> Seq(v, indLen) + d[k] + 1 < SeqLimit(indLen))
    && (forall p, q :: 0 <= p < q < |d| ==> d[p] != d[q])
  }

  /** The USIM starts behind every vector that will arrive. */
  predicate StartsBehind(u: Usim, sqns: seq<nat>, indLen: IndLen)
    requires ValidUsim(u, indLen)
  {
    forall k :: 0 <= k < |sqns| ==> Accepts(u, sqns[k], indLen)
  }

  predicate SameInd(v: nat, indLen: IndLen, i: nat, j: nat) {
    Ind(v + i + 1, indLen) == Ind(v + j + 1, indLen)
  }

  lemma VectorFields(v: nat, indLen: IndLen, i: nat)
    requires v < SQN_MOD && Seq(v, indLen) + i + 1 < SeqLimit(indLen)
    ensures Seq(Vector(v, indLen, i), indLen) == Seq(v, indLen) + i + 1
    ensures Ind(Vector(v, indLen, i), indLen) == Ind(v + i + 1, indLen)
  {
    IncTimesFields(v, indLen, i + 1);
  }

  /**
  The exact condition for one arrival: it is accepted iff it was issued after every vector with the
  same IND that arrived before it.
  */
  lemma AcceptedIffYoungest(u: Usim, v: nat, indLen: IndLen, d: seq<nat>, k: nat)
    requires ValidUsim(u, indLen) && Delivery(v, indLen, d) && k < |d|
    requires StartsBehind(u, Arrivals(v, indLen, d), indLen)
    ensures AcceptedAt(u, Arrivals(v, indLen, d), k, indLen)
        <==> forall p :: 0 <= p < k && SameInd(v, indLen, d[p], d[k]) ==> d[p] < d[k]
  {
    var sqns := Arrivals(v, indLen, d);
    AcceptedIffNewest(u, sqns, k, indLen);
    forall p | 0 <= p <= k
      ensures Seq(sqns[p], indLen) == Seq(v, indLen) + d[p] + 1
      ensures Ind(sqns[p], indLen) == Ind(v + d[p] + 1, indLen)
    {
      VectorFields(v, indLen, d[p]);
    }
  }

  /** No vector arrives after the one issued 2^indLen positions later. */
  predicate WindowKept(indLen: IndLen, d: seq<nat>) {
    forall p, q :: 0 <= p < q < |d| ==> d[p] != d[q] + Pow2(indLen)
  }

  /** Nothing is lost: the arrivals are the first |d| vectors in some order. */
  predicate Lossless(d: seq<nat>) {
    (forall k :: 0 <= k < |d| ==> d[k] < |d|) && (forall i: nat :: i < |d| ==> i in d)
  }

  lemma SameIndApart(a: nat, b: nat, indLen: IndLen) returns (t: nat)
    requires a < b && Ind(a, indLen) == Ind(b, indLen)
    ensures t >= 1 && b == a + t * Pow2(indLen)
  {
    SplitFields(a, indLen);
    SplitFields(b, indLen);
    t := Apart(Seq(a, indLen), Seq(b, indLen), Pow2(indLen));
  }

  lemma Apart(x: nat, y: nat, p: nat) returns (t: nat)
    requires x * p < y * p
    ensures t >= 1 && y * p == x * p + t * p
  {
    assert (y - x) * p == y * p - x * p;
    t := y - x;
  }

  lemma ShiftKeepsInd(v: nat, indLen: IndLen, i: nat)
    ensures SameInd(v, indLen, i + Pow2(indLen), i)
  {
    var a := v + i + 1;
    SplitFields(a, indLen);
    assert (Seq(a, indLen) + 1) * Pow2(indLen) == Seq(a, indLen) * Pow2(indLen) + Pow2(indLen);
    ComposedFields(Seq(a, indLen) + 1, Ind(a, indLen), indLen);
  }

  lemma OneLess(t: nat, p: nat)
    requires t >= 1
    ensures t * p == p + (t - 1) * p && (t - 1) * p >= 0
    ensures t == 1 ==> t * p == p
  {
  }

  /** Without losses the window orders any two vectors with the same IND. */
  lemma {:induction false} WindowOrders(indLen: IndLen, d: seq<nat>, i: nat, t: nat, pi: nat, pj: nat)
    requires WindowKept(indLen, d) && Lossless(d) && t >= 1 && pi < |d| && pj < |d|
    requires d[pi] == i && d[pj] == i + t * Pow2(indLen)
    ensures pi < pj
    decreases t
  {
    var p := Pow2(indLen);
    OneLess(t, p);
    assert i + p in d;
    var pm :| 0 <= pm < |d| && d[pm] == i + p;
    if t > 1 {
      WindowOrders(indLen, d, i + p, t - 1, pm, pj);
    }
  }

  lemma InOrder(v: nat, indLen: IndLen, d: seq<nat>, p: nat, k: nat)
    requires Delivery(v, indLen, d) && Lossless(d) && WindowKept(indLen, d)
    requires p < k < |d| && SameInd(v, indLen, d[p], d[k])
    ensures d[p] < d[k]
  {
    hide Ind, Pow2, WindowKept, Lossless;
    if d[k] < d[p] {
      var t := SameIndApart(v + d[k] + 1, v + d[p] + 1, indLen);
      WindowOrders(indLen, d, d[k], t, k, p);
    }
  }

  /** With nothing lost, the USIM accepts everything exactly when the window is kept. */
  lemma AllAcceptedIffWindowKept(u: Usim, v: nat, indLen: IndLen, d: seq<nat>)
    requires ValidUsim(u, indLen) && Delivery(v, indLen, d) && Lossless(d)
    requires StartsBehind(u, Arrivals(v, indLen, d), indLen)
    ensures (forall k :: 0 <= k < |d| ==> AcceptedAt(u, Arrivals(v, indLen, d), k, indLen))
        <==> WindowKept(indLen, d)
  {
    hide StartsBehind, AcceptedAt, Lossless, SameInd, ValidUsim, Pow2;
    if WindowKept(indLen, d) {
      forall k | 0 <= k < |d|
        ensures AcceptedAt(u, Arrivals(v, indLen, d), k, indLen)
      {
        AcceptedIffYoungest(u, v, indLen, d, k);
        forall p | 0 <= p < k && SameInd(v, indLen, d[p], d[k])
          ensures d[p] < d[k]
        {
          InOrder(v, indLen, d, p, k);
        }
      }
    } else {
      var p, q :| 0 <= p < q < |d| && d[p] == d[q] + Pow2(indLen);
      AcceptedIffYoungest(u, v, indLen, d, q);
      ShiftKeepsInd(v, indLen, d[q]);
    }
  }

  /**
  The window alone is not enough once vectors are lost: if the vector 2^indLen positions later never
  arrives, the window says nothing about the one after it, and the older vector is rejected.
  */
  lemma WindowIsNotEnoughWithLosses(u: Usim, v: nat, indLen: IndLen)
    requires ValidUsim(u, indLen) && v < SQN_MOD
    requires Seq(v, indLen) + 2 * Pow2(indLen) + 1 < SeqLimit(indLen)
    requires StartsBehind(u, Arrivals(v, indLen, [2 * Pow2(indLen), 0]), indLen)
    ensures var d := [2 * Pow2(indLen), 0];
            && Delivery(v, indLen, d) && WindowKept(indLen, d)
            && !AcceptedAt(u, Arrivals(v, indLen, d), 1, indLen)
  {
    var p := Pow2(indLen);
    ShiftKeepsInd(v, indLen, 0);
    ShiftKeepsInd(v, indLen, p);
    assert SameInd(v, indLen, 2 * p, 0);
    AcceptedIffYoungest(u, v, indLen, [2 * p, 0], 1);
  }
}
