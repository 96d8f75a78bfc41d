/** Acyclic byte automata, the storage form of symbol tables and relations.

    States are numbered; a rank that falls along every edge says that there is no
    cycle.  Different words may share states at both ends.
 */
module Automaton {
  import opened ByteStrings

  datatype Edge = Edge(sym: Byte, target: nat)

  /** States by index; `final` marks the ends of words. */
  datatype Dafsa = Dafsa(edges: seq<seq<Edge>>, final: seq<bool>, initial: nat)

  ghost predicate WellFormed(d: Dafsa, rank: seq<nat>) {
    && |d.edges| == |d.final| == |rank| && d.initial < |d.edges|
    && (forall s: nat, j: nat :: s < |d.edges| && j < |d.edges[s]| ==> EdgeDown(d, rank, s, j))
    && (forall s, i, j :: 0 <= s < |d.edges| && 0 <= i < j < |d.edges[s]| ==> d.edges[s][i].sym != d.edges[s][j].sym)
  }

  ghost predicate EdgeDown(d: Dafsa, rank: seq<nat>, s: nat, j: nat)
    requires |rank| == |d.edges| && s < |d.edges| && j < |d.edges[s]|
  {
    d.edges[s][j].target < |d.edges| && rank[d.edges[s][j].target] < rank[s]
  }

  /** `t` is reached from `s` by reading `w`. */
  ghost predicate Reads(d: Dafsa, s: nat, w: Bytes, t: nat)
    decreases |w|
  {
    s < |d.edges| &&
    if w == [] then s == t
    else exists j: nat :: j < |d.edges[s]| && d.edges[s][j].sym == w[0] && Reads(d, d.edges[s][j].target, w[1..], t)
  }

  ghost predicate AcceptsFrom(d: Dafsa, s: nat, w: Bytes) {
    exists t: nat :: Reads(d, s, w, t) && t < |d.final| && d.final[t]
  }

  /** Every state that is reached lies on the way to an accepted word. */
  ghost predicate Trim(d: Dafsa) {
    forall w, s: nat {:trigger Reads(d, d.initial, w, s)} :: Reads(d, d.initial, w, s) ==> exists u :: AcceptsFrom(d, s, u)
  }

  lemma {:induction false} ReadsUnique(d: Dafsa, rank: seq<nat>, s: nat, w: Bytes, t: nat, t': nat)
    requires WellFormed(d, rank) && Reads(d, s, w, t) && Reads(d, s, w, t')
    ensures t == t' && t < |d.edges|
    decreases |w|
  {
    if w != [] {
      var j: nat :| j < |d.edges[s]| && d.edges[s][j].sym == w[0] && Reads(d, d.edges[s][j].target, w[1..], t);
      var i: nat :| i < |d.edges[s]| && d.edges[s][i].sym == w[0] && Reads(d, d.edges[s][i].target, w[1..], t');
      assert i == j;
      ReadsUnique(d, rank, d.edges[s][j].target, w[1..], t, t');
    }
  }

  lemma {:induction false} ReadsConcat(d: Dafsa, s: nat, u: Bytes, v: Bytes, m: nat, t: nat)
    requires Reads(d, s, u, m) && Reads(d, m, v, t)
    ensures Reads(d, s, u + v, t)
    decreases |u|
  {
    if u == [] {
      assert u + v == v;
    } else {
      var j: nat :| j < |d.edges[s]| && d.edges[s][j].sym == u[0] && Reads(d, d.edges[s][j].target, u[1..], m);
      ReadsConcat(d, d.edges[s][j].target, u[1..], v, m, t);
      assert (u + v)[0] == u[0] && (u + v)[1..] == u[1..] + v;
    }
  }

  lemma {:induction false} ReadsSplit(d: Dafsa, s: nat, u: Bytes, v: Bytes, t: nat) returns (m: nat)
    requires Reads(d, s, u + v, t)
    ensures Reads(d, s, u, m) && Reads(d, m, v, t)
    decreases |u|
  {
    if u == [] {
      assert u + v == v;
      m := s;
    } else {
      assert (u + v)[0] == u[0] && (u + v)[1..] == u[1..] + v;
      var j: nat :| j < |d.edges[s]| && d.edges[s][j].sym == u[0] && Reads(d, d.edges[s][j].target, u[1..] + v, t);
      m := ReadsSplit(d, d.edges[s][j].target, u[1..], v, t);
    }
  }

  lemma ReadsEdge(d: Dafsa, s: nat, j: nat)
    requires s < |d.edges| && j < |d.edges[s]| && d.edges[s][j].target < |d.edges|
    ensures Reads(d, s, [d.edges[s][j].sym], d.edges[s][j].target)
  {
    assert [d.edges[s][j].sym][1..] == [];
  }

  /* ---------- a measure for walks ---------- */

  ghost function TreeSize(d: Dafsa, rank: seq<nat>, s: nat): nat
    requires WellFormed(d, rank) && s < |d.edges|
    decreases rank[s], |d.edges[s]| + 1
  {
    2 + TreeFrom(d, rank, s, 0)
  }

  ghost function TreeFrom(d: Dafsa, rank: seq<nat>, s: nat, j: nat): nat
    requires WellFormed(d, rank) && s < |d.edges| && j <= |d.edges[s]|
    decreases rank[s], |d.edges[s]| - j
  {
    if j == |d.edges[s]| then 0
    else
      assert EdgeDown(d, rank, s, j);
      1 + TreeSize(d, rank, d.edges[s][j].target) + TreeFrom(d, rank, s, j + 1)
  }

  /* ---------- four-byte words ---------- */

  const WORD_BYTES: nat := 4

  function Word(p: Bytes): nat
    requires |p| == WORD_BYTES
  {
    ((At(p, 0) * 256 + At(p, 1)) * 256 + At(p, 2)) * 256 + At(p, 3)
  }

  lemma LastDigit(x: nat, b: Byte, y: nat, c: Byte)
    requires x * 256 + b == y * 256 + c
    ensures x == y && b == c
  {
  }

  lemma WordInjective(p: Bytes, q: Bytes)
    requires |p| == |q| == WORD_BYTES && Word(p) == Word(q)
    ensures p == q
  {
    var x, y := At(p, 0) * 256 + At(p, 1), At(q, 0) * 256 + At(q, 1);
    LastDigit(x * 256 + At(p, 2), p[3], y * 256 + At(q, 2), q[3]);
    LastDigit(x, p[2], y, q[2]);
    LastDigit(p[0], p[1], q[0], q[1]);
  }

  function WordOf(v: nat): (p: Bytes)
    ensures |p| == WORD_BYTES
  {
    [v / 0x100_0000 % 256, v / 0x1_0000 % 256, v / 256 % 256, v % 256]
  }

  lemma WordOfWord(v: nat)
    requires v < 0x1_0000_0000
    ensures Word(WordOf(v)) == v
  {
    assert v == v / 256 * 256 + v % 256;
    assert v / 256 == v / 0x1_0000 * 256 + v / 256 % 256;
    assert v / 0x1_0000 == v / 0x100_0000 * 256 + v / 0x1_0000 % 256;
  }
}
