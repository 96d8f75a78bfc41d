/** A set of words has one minimal automaton, up to the numbers of its states.

    So an automaton built in one go from sorted keys and one that grew key by key are the
    same, once both are trim and have no two equivalent states.
 */
module MinimalAutomata {
  import opened Automaton
  import opened ByteStrings
  import opened Sets

  /** The states accept the same words from here on. */
  ghost predicate SameFrom(d: Dafsa, s: nat, e: Dafsa, t: nat) {
    forall u :: AcceptsFrom(d, s, u) <==> AcceptsFrom(e, t, u)
  }

  ghost predicate Reachable(d: Dafsa, s: nat) {
    exists w :: Reads(d, d.initial, w, s)
  }

  /** Every state is reached, lies on the way to a word, and is told apart from every
      other by some word. */
  ghost predicate Minimal(d: Dafsa, rank: seq<nat>) {
    && WellFormed(d, rank) && Trim(d)
    && (forall s: nat :: s < |d.edges| ==> Reachable(d, s))
    && forall s: nat, t: nat :: s < |d.edges| && t < |d.edges| && SameFrom(d, s, d, t) ==> s == t
  }

  ghost predicate SameWords(d: Dafsa, e: Dafsa) {
    SameFrom(d, d.initial, e, e.initial)
  }

  /** `h` renames the states of `d` into those of `e`: one to one, onto, initial state,
      ends of words and transitions included. */
  ghost predicate Renames(d: Dafsa, e: Dafsa, h: seq<nat>) {
    && |h| == |d.edges| == |e.edges| && d.initial < |h| && h[d.initial] == e.initial
    && (forall s: nat :: s < |h| ==> h[s] < |e.edges|)
    && NoneTwice(h)
    && (forall t: nat :: t < |e.edges| ==> t in h)
    && (forall s: nat :: s < |h| ==> FinalAlike(d, s, e, h[s]))
    && forall s: nat, c: Byte, t: nat :: s < |h| && t < |h| ==> (Reads(d, s, [c], t) <==> Reads(e, h[s], [c], h[t]))
  }

  predicate FinalAlike(d: Dafsa, s: nat, e: Dafsa, t: nat) {
    (s < |d.final| && d.final[s]) <==> (t < |e.final| && e.final[t])
  }

  /* ---------- words from a state ---------- */

  lemma AcceptsAfter(d: Dafsa, rank: seq<nat>, s: nat, w: Bytes, m: nat, v: Bytes)
    requires WellFormed(d, rank) && Reads(d, s, w, m)
    ensures AcceptsFrom(d, s, w + v) <==> AcceptsFrom(d, m, v)
  {
    if AcceptsFrom(d, s, w + v) {
      var t: nat :| Reads(d, s, w + v, t) && t < |d.final| && d.final[t];
      var m' := ReadsSplit(d, s, w, v, t);
      ReadsUnique(d, rank, s, w, m, m');
    }
    if AcceptsFrom(d, m, v) {
      var t: nat :| Reads(d, m, v, t) && t < |d.final| && d.final[t];
      ReadsConcat(d, s, w, v, m, t);
    }
  }

  lemma AcceptsNothing(d: Dafsa, s: nat)
    requires s < |d.edges| == |d.final|
    ensures AcceptsFrom(d, s, []) <==> d.final[s]
  {
    if d.final[s] { assert Reads(d, s, [], s); }
  }

  lemma SameSwapped(d: Dafsa, s: nat, e: Dafsa, t: nat)
    requires SameFrom(d, s, e, t)
    ensures SameFrom(e, t, d, s)
  {
    hide AcceptsFrom;
  }

  lemma SameThrough(d: Dafsa, s: nat, e: Dafsa, t: nat, d': Dafsa, s': nat)
    requires SameFrom(d, s, e, t) && SameFrom(e, t, d', s')
    ensures SameFrom(d, s, d', s')
  {
    hide AcceptsFrom;
  }

  /** States that accept the same words go on by the same words to states that do. */
  lemma Partner(d: Dafsa, rank: seq<nat>, e: Dafsa, rank': seq<nat>, s: nat, t: nat, w: Bytes, s': nat) returns (t': nat)
    requires WellFormed(d, rank) && WellFormed(e, rank') && SameFrom(d, s, e, t)
    requires Reads(d, s, w, s') && exists u :: AcceptsFrom(d, s', u)
    ensures Reads(e, t, w, t') && t' < |e.edges| && SameFrom(d, s', e, t')
  {
    var u :| AcceptsFrom(d, s', u);
    AcceptsAfter(d, rank, s, w, s', u);
    assert AcceptsFrom(e, t, w + u);
    var end: nat :| Reads(e, t, w + u, end) && end < |e.final| && e.final[end];
    t' := ReadsSplit(e, t, w, u, end);
    ReadsUnique(e, rank', t, w, t', t');
    forall v ensures AcceptsFrom(d, s', v) <==> AcceptsFrom(e, t', v) {
      AcceptsAfter(d, rank, s, w, s', v);
      AcceptsAfter(e, rank', t, w, t', v);
      assert AcceptsFrom(d, s, w + v) <==> AcceptsFrom(e, t, w + v);
    }
  }

  /** Every state of one has a state of the other that accepts the same words. */
  lemma PartnerOf(d: Dafsa, rank: seq<nat>, e: Dafsa, rank': seq<nat>, s: nat) returns (t: nat)
    requires Minimal(d, rank) && Minimal(e, rank') && SameWords(d, e) && s < |d.edges|
    ensures t < |e.edges| && SameFrom(d, s, e, t)
  {
    hide SameFrom, AcceptsFrom;
    assert Reachable(d, s);
    var w :| Reads(d, d.initial, w, s);
    t := Partner(d, rank, e, rank', d.initial, e.initial, w, s);
  }

  /* ---------- the renaming ---------- */

  /** The first `n` states with their partners. */
  ghost predicate Paired(d: Dafsa, e: Dafsa, h: seq<nat>) {
    |h| <= |d.edges| && forall s: nat :: s < |h| ==> h[s] < |e.edges| && SameFrom(d, s, e, h[s])
  }

  lemma {:induction false} Pairing(d: Dafsa, rank: seq<nat>, e: Dafsa, rank': seq<nat>, n: nat) returns (h: seq<nat>)
    requires Minimal(d, rank) && Minimal(e, rank') && SameWords(d, e) && n <= |d.edges|
    ensures |h| == n && Paired(d, e, h)
  {
    hide SameFrom, Minimal, SameWords;
    if n == 0 {
      h := [];
    } else {
      h := Pairing(d, rank, e, rank', n - 1);
      var t := PartnerOf(d, rank, e, rank', n - 1);
      h := h + [t];
    }
  }

  lemma OneToOne(d: Dafsa, rank: seq<nat>, e: Dafsa, h: seq<nat>, s: nat, t: nat)
    requires Minimal(d, rank) && |h| == |d.edges| && Paired(d, e, h) && s < |h| && t < |h| && h[s] == h[t]
    ensures s == t
  {
    hide AcceptsFrom;
    SameSwapped(d, t, e, h[t]);
    SameThrough(d, s, e, h[s], d, t);
  }

  /** The partner of a state is the only state that accepts the same words. */
  lemma OnlyPartner(d: Dafsa, e: Dafsa, rank': seq<nat>, h: seq<nat>, s: nat, t: nat)
    requires Minimal(e, rank') && Paired(d, e, h) && s < |h| && t < |e.edges| && SameFrom(d, s, e, t)
    ensures t == h[s]
  {
    hide AcceptsFrom;
    SameSwapped(d, s, e, h[s]);
    SameThrough(e, h[s], d, s, e, t);
  }

  lemma Onto(d: Dafsa, rank: seq<nat>, e: Dafsa, rank': seq<nat>, h: seq<nat>, t: nat)
    requires Minimal(d, rank) && Minimal(e, rank') && SameWords(d, e) && |h| == |d.edges| && Paired(d, e, h) && t < |e.edges|
    ensures t in h
  {
    SameSwapped(d, d.initial, e, e.initial);
    hide SameFrom, Minimal;
    var s := PartnerOf(e, rank', d, rank, t);
    SameSwapped(e, t, d, s);
    OnlyPartner(d, e, rank', h, s, t);
  }

  lemma SameFinal(d: Dafsa, rank: seq<nat>, e: Dafsa, rank': seq<nat>, s: nat, t: nat)
    requires WellFormed(d, rank) && WellFormed(e, rank') && s < |d.edges| && t < |e.edges| && SameFrom(d, s, e, t)
    ensures FinalAlike(d, s, e, t)
  {
    AcceptsNothing(d, s);
    AcceptsNothing(e, t);
  }

  lemma AcceptsSome(d: Dafsa, rank: seq<nat>, s: nat)
    requires Minimal(d, rank) && s < |d.edges|
    ensures exists u :: AcceptsFrom(d, s, u)
  {
    assert Reachable(d, s);
    var w :| Reads(d, d.initial, w, s);
  }

  lemma SameStep(d: Dafsa, rank: seq<nat>, e: Dafsa, rank': seq<nat>, h: seq<nat>, s: nat, c: Byte, t: nat)
    requires Minimal(d, rank) && Minimal(e, rank') && |h| == |d.edges| && Paired(d, e, h) && s < |h| && t < |h|
    ensures Reads(d, s, [c], t) <==> Reads(e, h[s], [c], h[t])
  {
    AcceptsSome(d, rank, t);
    AcceptsSome(e, rank', h[t]);
    hide AcceptsFrom, SameFrom, Trim, Reads;
    if Reads(d, s, [c], t) {
      var t' := Partner(d, rank, e, rank', s, h[s], [c], t);
      OnlyPartner(d, e, rank', h, t, t');
    }
    if Reads(e, h[s], [c], h[t]) {
      SameSwapped(d, s, e, h[s]);
      var s' := Partner(e, rank', d, rank, h[s], s, [c], h[t]);
      SameSwapped(e, h[t], d, s');
      OnlyPartner(d, e, rank', h, s', h[t]);
      OneToOne(d, rank, e, h, s', t);
    }
  }

  /** One to one and onto: both have the same number of states. */
  lemma SameNumber(h: seq<nat>, n: nat)
    requires NoneTwice(h) && (forall s :: 0 <= s < |h| ==> h[s] < n) && forall t: nat :: t < n ==> t in h
    ensures |h| == n
  {
    var numbers: seq<int> := h;
    NoneTwiceSize(numbers);
    assert (set t | t in numbers) == NumbersBelow(n);
  }

  /** Two minimal automata of the same words are one automaton up to the numbers of the
      states. */
  lemma MinimalUnique(d: Dafsa, rank: seq<nat>, e: Dafsa, rank': seq<nat>) returns (h: seq<nat>)
    requires Minimal(d, rank) && Minimal(e, rank') && SameWords(d, e)
    ensures Renames(d, e, h)
  {
    h := Pairing(d, rank, e, rank', |d.edges|);
    OnlyPartner(d, e, rank', h, d.initial, e.initial);
    forall s: nat | s < |h| ensures FinalAlike(d, s, e, h[s]) { SameFinal(d, rank, e, rank', s, h[s]); }
    hide SameFrom, Minimal, SameWords, Reads, FinalAlike;
    forall s, t | 0 <= s < t < |h| ensures h[s] != h[t] {
      if h[s] == h[t] { OneToOne(d, rank, e, h, s, t); }
    }
    forall t: nat | t < |e.edges| ensures t in h { Onto(d, rank, e, rank', h, t); }
    SameNumber(h, |e.edges|);
    forall s: nat, c: Byte, t: nat | s < |h| && t < |h| ensures Reads(d, s, [c], t) <==> Reads(e, h[s], [c], h[t]) {
      SameStep(d, rank, e, rank', h, s, c, t);
    }
  }

  /** A renaming keeps the words. */
  lemma {:induction false} RenamedReads(d: Dafsa, rank: seq<nat>, e: Dafsa, rank': seq<nat>, h: seq<nat>, s: nat, w: Bytes, t: nat)
    requires WellFormed(d, rank) && WellFormed(e, rank') && Renames(d, e, h) && s < |h| && t < |h|
    ensures Reads(d, s, w, t) <==> Reads(e, h[s], w, h[t])
    decreases |w|
  {
    if w == [] {
      if h[s] == h[t] { assert s == t; }
    } else {
      var c, v := [w[0]], w[1..];
      assert w == c + v;
      if Reads(d, s, w, t) {
        var m := ReadsSplit(d, s, c, v, t);
        ReadsUnique(d, rank, s, c, m, m);
        RenamedReads(d, rank, e, rank', h, m, v, t);
        ReadsConcat(e, h[s], c, v, h[m], h[t]);
      }
      if Reads(e, h[s], w, h[t]) {
        var m' := ReadsSplit(e, h[s], c, v, h[t]);
        ReadsUnique(e, rank', h[s], c, m', m');
        assert m' in h;
        var m: nat :| m < |h| && h[m] == m';
        RenamedReads(d, rank, e, rank', h, m, v, t);
        ReadsConcat(d, s, c, v, m, t);
      }
    }
  }

  lemma RenamedAccepts(d: Dafsa, rank: seq<nat>, e: Dafsa, rank': seq<nat>, h: seq<nat>)
    requires WellFormed(d, rank) && WellFormed(e, rank') && Renames(d, e, h)
    ensures SameWords(d, e)
  {
    forall u ensures AcceptsFrom(d, d.initial, u) <==> AcceptsFrom(e, e.initial, u) {
      if AcceptsFrom(d, d.initial, u) {
        var t: nat :| Reads(d, d.initial, u, t) && t < |d.final| && d.final[t];
        RenamedReads(d, rank, e, rank', h, d.initial, u, t);
        assert FinalAlike(d, t, e, h[t]);
      }
      if AcceptsFrom(e, e.initial, u) {
        var t': nat :| Reads(e, e.initial, u, t') && t' < |e.final| && e.final[t'];
        assert t' in h;
        var t: nat :| t < |h| && h[t] == t';
        RenamedReads(d, rank, e, rank', h, d.initial, u, t);
        assert FinalAlike(d, t, e, h[t]);
      }
    }
  }
}
