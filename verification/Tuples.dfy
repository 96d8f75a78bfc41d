/** Stored tuples and their order: column by column, numerically. */
module Tuples {
  type Tuple = seq<nat>

  predicate IsTuple(t: Tuple, n: nat) {
    |t| == n && forall i :: 0 <= i < n ==> t[i] < 0x1_0000_0000
  }

  predicate TupleBelow(t: Tuple, u: Tuple) {
    u != [] && (t == [] || t[0] < u[0] || (t[0] == u[0] && TupleBelow(t[1..], u[1..])))
  }

  lemma {:induction false} TupleTrans(t: Tuple, u: Tuple, v: Tuple)
    requires TupleBelow(t, u) && TupleBelow(u, v)
    ensures TupleBelow(t, v)
  {
    if t != [] && t[0] == u[0] == v[0] { TupleTrans(t[1..], u[1..], v[1..]); }
  }

  lemma {:induction false} TupleTotal(t: Tuple, u: Tuple, n: nat)
    requires |t| == |u| == n
    ensures t == u || TupleBelow(t, u) || TupleBelow(u, t)
    ensures !TupleBelow(t, t)
  {
    if n > 0 {
      TupleTotal(t[1..], u[1..], n - 1);
      TupleTotal(t[1..], t[1..], n - 1);
      assert t == [t[0]] + t[1..] && u == [u[0]] + u[1..];
    }
  }

  /** Tuples whose leading columns are in order are in order. */
  lemma {:induction false} PrefixBelow(t: Tuple, u: Tuple, j: nat)
    requires j <= |t| && j <= |u| && TupleBelow(t[..j], u[..j])
    ensures TupleBelow(t, u)
  {
    if t[0] == u[0] {
      assert t[..j][1..] == t[1..][..j - 1] && u[..j][1..] == u[1..][..j - 1];
      PrefixBelow(t[1..], u[1..], j - 1);
    }
  }

  ghost predicate TuplesAscend(ts: seq<Tuple>) {
    forall i, j :: 0 <= i < j < |ts| ==> TupleBelow(ts[i], ts[j])
  }

  lemma LastIsLargest(ts: seq<Tuple>, us: seq<Tuple>, n: nat)
    requires TuplesAscend(ts) && TuplesAscend(us) && ts != [] && us != []
    requires (forall t :: t in ts <==> t in us) && forall t :: t in ts ==> |t| == n
    ensures ts[|ts| - 1] == us[|us| - 1]
  {
    var t, u := ts[|ts| - 1], us[|us| - 1];
    assert t in us && u in ts;
    var i :| 0 <= i < |us| && us[i] == t;
    var j :| 0 <= j < |ts| && ts[j] == u;
    if t != u {
      TupleTrans(t, u, t);
      TupleTotal(t, t, n);
    }
  }

  lemma HasMember(ts: seq<Tuple>)
    requires ts != []
    ensures exists t :: t in ts
  {
    assert ts[0] in ts;
  }

  /** A set has one ascending enumeration. */
  lemma {:induction false} AscendingUnique(ts: seq<Tuple>, us: seq<Tuple>, n: nat)
    requires TuplesAscend(ts) && TuplesAscend(us)
    requires (forall t :: t in ts <==> t in us) && forall t :: t in ts ==> |t| == n
    ensures ts == us
    decreases |ts|
  {
    hide TupleBelow;
    if ts == [] {
      if us != [] { HasMember(us); }
    } else {
      assert ts[0] in us;
      LastIsLargest(ts, us, n);
      var p, q := |ts| - 1, |us| - 1;
      TupleTotal(ts[p], ts[p], n);
      forall t ensures t in ts[..p] <==> t in us[..q] {
        FrontMembers(ts, t);
        FrontMembers(us, t);
      }
      AscendingUnique(ts[..p], us[..q], n);
      assert ts == ts[..p] + [ts[p]] && us == us[..q] + [us[q]];
    }
  }

  lemma FrontMembers(ts: seq<Tuple>, t: Tuple)
    requires TuplesAscend(ts) && ts != [] && forall u :: u in ts ==> |u| == |ts[0]|
    ensures t in ts[..|ts| - 1] <==> t in ts && t != ts[|ts| - 1]
  {
    hide TupleBelow;
    var p := |ts| - 1;
    if t in ts[..p] {
      var i :| 0 <= i < p && ts[i] == t;
      assert ts[i] in ts && ts[p] in ts;
      TupleTotal(ts[p], ts[p], |ts[0]|);
    }
    if t in ts && t != ts[p] {
      var i :| 0 <= i < |ts| && ts[i] == t;
      assert ts[..p][i] == t;
    }
  }
}
