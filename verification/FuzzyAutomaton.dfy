/** The fuzzy matcher: a table automaton whose states are rows of capped edit
    distances, built breadth-first over classes of bytes that the term does not
    tell apart.
 */
module FuzzyAutomaton {
  import opened ByteStrings
  import opened EditDistance
  import opened FuzzyRows
  import opened Sets

  const LEV_MAX_K: nat := 2
  const LEV_PATTERN_MAX: nat := 512
  const DFA_MAX_STATES: nat := 50000
  const DFA_DEAD: nat := 0xFFFF_FFFF

  /** `trans[s][b]` is the state after byte `b`, or `DFA_DEAD`. */
  datatype Dfa = Dfa(trans: seq<seq<nat>>, accept: seq<bool>)

  datatype Compiled = Failed | Automaton(dfa: Dfa)

  predicate Runnable(d: Dfa) {
    && 0 < |d.trans| == |d.accept| <= DFA_MAX_STATES
    && (forall s :: 0 <= s < |d.trans| ==> |d.trans[s]| == 256)
    && forall s, b :: 0 <= s < |d.trans| && 0 <= b < 256 ==> d.trans[s][b] == DFA_DEAD || d.trans[s][b] < |d.trans|
  }

  /** The state after reading `u` from state `s`. */
  function Run(d: Dfa, s: nat, u: Bytes): (t: nat)
    requires Runnable(d) && s < |d.trans|
    ensures t == DFA_DEAD || t < |d.trans|
    decreases |u|
  {
    if u == [] then s
    else
      var t := Run(d, s, Front(u));
      if t == DFA_DEAD then DFA_DEAD else d.trans[t][Last(u)]
  }

  predicate Accepts(d: Dfa, u: Bytes)
    requires Runnable(d)
  {
    var t := Run(d, 0, u);
    t != DFA_DEAD && d.accept[t]
  }

  /* ---------- rows ---------- */

  ghost predicate Dead(term: Bytes, k: nat, t: Bytes) {
    forall j :: 0 <= j <= |term| ==> Dist(t, term[..j]) > k
  }

  lemma StartRow(term: Bytes, k: nat, row: Row)
    requires |row| == |term| + 1 && forall j :: 0 <= j <= |term| ==> row[j] == Clamp(j, k)
    ensures RowAfter(term, k, [], row)
  {
    forall j | 0 <= j <= |term| ensures row[j] == Clamp(Dist([], term[..j]), k) { DistLengths([], term[..j]); }
  }

  /** The three neighbours of an entry, for the text on the left. */
  lemma TextRecurrence(term: Bytes, t: Bytes, ch: Byte, j: nat)
    requires j <= |term|
    ensures Dist(t, term[..0]) == |t| && Dist(t + [ch], term[..0]) == |t| + 1
    ensures j > 0 ==>
              Dist(t + [ch], term[..j]) ==
              Min(Min(Dist(t, term[..j]) + 1, Dist(t + [ch], term[..j - 1]) + 1), Dist(t, term[..j - 1]) + Cost(term[j - 1], ch))
  {
    hide Dist;
    Recurrence(term, t, ch, j);
    DistSymmetric(t, term[..0]);
    DistSymmetric(t + [ch], term[..0]);
    DistSymmetric(t, term[..j]);
    DistSymmetric(t + [ch], term[..j]);
    if j > 0 {
      DistSymmetric(t, term[..j - 1]);
      DistSymmetric(t + [ch], term[..j - 1]);
    }
  }

  lemma AliveSnoc(row: Row, x: nat, k: nat)
    ensures Alive(row + [x], k) <==> Alive(row, k) || x <= k
  {
    var longer := row + [x];
    if j :| 0 <= j < |row| && row[j] <= k { assert longer[j] <= k; }
    if x <= k { assert longer[|row|] <= k; }
  }

  /** One transition: the next row, entry by entry, clamped at `k + 1`. */
  method Step(row: Row, term: Bytes, k: nat, ch: Byte) returns (next: Row, alive: bool)
    requires |row| == |term| + 1
    ensures alive == Alive(next, k)
    ensures IsStep(row, term, k, ch, next)
  {
    hide Alive;
    next, alive := [], false;
    AliveNone(k);
    var left := 0;
    for j := 0 to |term| + 1
      invariant |next| == j && alive == Alive(next, k) && (j > 0 ==> left == next[j - 1])
      invariant forall i :: 0 <= i < j ==> StepAt(row, term, k, ch, next, i)
    {
      var x := row[j] + 1;
      if j > 0 {
        if left + 1 < x { x := left + 1; }
        if row[j - 1] + Cost(term[j - 1], ch) < x { x := row[j - 1] + Cost(term[j - 1], ch); }
      }
      x := Clamp(x, k);
      AliveSnoc(next, x, k);
      forall i | 0 <= i < j ensures StepAt(row, term, k, ch, next + [x], i) { assert StepAt(row, term, k, ch, next, i); }
      next, left := next + [x], x;
      if x <= k { alive := true; }
    }
  }

  lemma AliveNone(k: nat)
    ensures !Alive([], k)
  {
  }

  predicate StepAt(row: Row, term: Bytes, k: nat, ch: Byte, next: Row, j: nat) {
    && |row| == |term| + 1 && j < |next| && j <= |term|
    && next[j] == if j == 0 then Clamp(row[0] + 1, k)
                  else Clamp(Min(Min(row[j] + 1, next[j - 1] + 1), row[j - 1] + Cost(term[j - 1], ch)), k)
  }

  ghost predicate IsStep(row: Row, term: Bytes, k: nat, ch: Byte, next: Row) {
    |row| == |next| == |term| + 1 && forall j :: 0 <= j <= |term| ==> StepAt(row, term, k, ch, next, j)
  }

  /** Stepping the row of a text gives the row of the longer text. */
  lemma StepExact(term: Bytes, k: nat, t: Bytes, ch: Byte, row: Row, next: Row)
    requires RowAfter(term, k, t, row) && IsStep(row, term, k, ch, next)
    ensures RowAfter(term, k, t + [ch], next)
  {
    forall j: nat | j <= |term| ensures next[j] == Clamp(Dist(t + [ch], term[..j]), k) { StepExactAt(term, k, t, ch, row, next, j); }
  }

  lemma {:induction false} StepExactAt(term: Bytes, k: nat, t: Bytes, ch: Byte, row: Row, next: Row, j: nat)
    requires RowAfter(term, k, t, row) && IsStep(row, term, k, ch, next) && j <= |term|
    ensures next[j] == Clamp(Dist(t + [ch], term[..j]), k)
    decreases j
  {
    hide Dist;
    TextRecurrence(term, t, ch, j);
    assert StepAt(row, term, k, ch, next, j);
    if j > 0 { StepExactAt(term, k, t, ch, row, next, j - 1); }
  }

  /** No continuation brings a dead text back within `k`. */
  lemma DeadStaysDead(term: Bytes, k: nat, t: Bytes, u: Bytes)
    requires Dead(term, k, t)
    ensures Dist(t + u, term) > k
  {
    hide Dist;
    forall i | 0 <= i <= |term| ensures Dist(term[..i], t) > k { DistSymmetric(term[..i], t); }
    RowStaysAbove(term, t, u, k, |term|);
    DistSymmetric(term, t + u);
    assert term[..|term|] == term;
  }

  /** Two bytes outside the term, or one byte and itself, lead to the same rows. */
  predicate SameClass(term: Bytes, a: Byte, b: Byte) {
    a == b || (a !in term && b !in term)
  }

  lemma SameClassStep(term: Bytes, k: nat, row: Row, a: Byte, b: Byte, next: Row)
    requires SameClass(term, a, b) && IsStep(row, term, k, a, next)
    ensures IsStep(row, term, k, b, next)
  {
    forall j | 0 <= j <= |term| ensures StepAt(row, term, k, b, next, j) {
      assert StepAt(row, term, k, a, next, j);
      if j > 0 { assert term[j - 1] in term; }
    }
  }

  /* ---------- the automaton and its rows ---------- */

  /** Each state carries a row, and the table follows the rows. */
  ghost predicate Follows(term: Bytes, k: nat, d: Dfa, rows: seq<Row>) {
    && Runnable(d) && |rows| == |d.trans|
    && RowAfter(term, k, [], rows[0])
    && (forall s :: 0 <= s < |rows| ==> |rows[s]| == |term| + 1 && d.accept[s] == (rows[s][|term|] <= k))
    && forall s, b: Byte :: 0 <= s < |rows| ==> EntryOf(term, k, rows, s, b, d.trans[s][b])
  }

  /** Entry `t` for byte `b`: the state of the next row, or dead when that row is. */
  ghost predicate EntryOf(term: Bytes, k: nat, rows: seq<Row>, s: nat, b: Byte, t: nat)
    requires s < |rows|
  {
    if t == DFA_DEAD then exists next :: IsStep(rows[s], term, k, b, next) && !Alive(next, k)
    else t < |rows| && IsStep(rows[s], term, k, b, rows[t])
  }

  lemma StartsAtRow(term: Bytes, k: nat, d: Dfa, rows: seq<Row>)
    requires Follows(term, k, d, rows)
    ensures RowAfter(term, k, [], rows[0])
  {
  }

  lemma DeadRow(term: Bytes, k: nat, t: Bytes, row: Row)
    requires RowAfter(term, k, t, row) && !Alive(row, k)
    ensures Dead(term, k, t)
  {
  }

  lemma {:induction false} RunRow(term: Bytes, k: nat, d: Dfa, rows: seq<Row>, u: Bytes)
    requires Follows(term, k, d, rows)
    ensures var t := Run(d, 0, u);
            if t == DFA_DEAD then Dist(u, term) > k && forall v :: Dist(u + v, term) > k
            else RowAfter(term, k, u, rows[t])
    decreases |u|
  {
    hide Dist, IsStep, RowAfter, Alive;
    StartsAtRow(term, k, d, rows);
    if u != [] {
      var p, ch := Front(u), Last(u);
      RunRow(term, k, d, rows, p);
      assert u == p + [ch];
      var s := Run(d, 0, p);
      if s == DFA_DEAD {
        forall v ensures Dist(u + v, term) > k { assert u + v == p + ([ch] + v); }
        assert u + [] == u;
      } else {
        assert EntryOf(term, k, rows, s, ch, d.trans[s][ch]);
        var t := d.trans[s][ch];
        if t == DFA_DEAD {
          var next :| IsStep(rows[s], term, k, ch, next) && !Alive(next, k);
          StepExact(term, k, p, ch, rows[s], next);
          DeadRow(term, k, u, next);
          forall v ensures Dist(u + v, term) > k { DeadStaysDead(term, k, u, v); }
          assert u + [] == u;
        } else {
          StepExact(term, k, p, ch, rows[s], rows[t]);
        }
      }
    }
  }

  /** The automaton accepts exactly the strings within distance `k` of the term. */
  lemma AcceptsWithin(term: Bytes, k: nat, d: Dfa, rows: seq<Row>, u: Bytes)
    requires Follows(term, k, d, rows)
    ensures Accepts(d, u) <==> Dist(u, term) <= k
  {
    hide Dist;
    RunRow(term, k, d, rows, u);
    assert term[..|term|] == term;
  }

  /* ---------- construction ---------- */

  ghost predicate ClassesOf(term: Bytes, classOf: seq<nat>, reps: seq<Byte>) {
    |classOf| == 256 && forall b: Byte :: classOf[b] < |reps| && SameClass(term, b, reps[classOf[b]])
  }

  /** The distinct bytes of the term, in byte order, then one class for the rest. */
  method ByteClasses(term: Bytes) returns (classOf: seq<nat>, reps: seq<Byte>)
    ensures ClassesOf(term, classOf, reps)
  {
    var inTerm := seq(256, b requires 0 <= b < 256 => b in term);
    classOf, reps := seq(256, _ => 0), [];
    for b := 0 to 256
      invariant |classOf| == 256 && |reps| <= b && (|reps| == b ==> forall x: Byte :: x < b ==> x in term)
      invariant forall x: Byte :: x < b && x in term ==> classOf[x] < |reps| && reps[classOf[x]] == x
      invariant forall r :: r in reps ==> r in term && r < b
    {
      if inTerm[b] {
        classOf, reps := classOf[b := |reps|], reps + [b];
      }
    }
    if |reps| < 256 {
      var other := 0;
      while other < 256 && inTerm[other]
        invariant 0 <= other <= 256 && forall x: Byte :: x < other ==> x in term
      {
        other := other + 1;
      }
      if other < 256 {
        var n := |reps|;
        reps := reps + [other];
        for b := 0 to 256
          invariant |classOf| == 256
          invariant forall x: Byte :: x in term ==> classOf[x] < n && reps[classOf[x]] == x
          invariant forall x: Byte :: x < b && x !in term ==> classOf[x] == n
        {
          if !inTerm[b] { classOf := classOf[b := n]; }
        }
      }
    }
  }

  /** States found so far, with their rows, and the class table of the processed ones. */
  ghost predicate Built(term: Bytes, k: nat, reps: seq<Byte>, rows: seq<Row>, accept: seq<bool>, index: map<Row, nat>, cls: seq<seq<nat>>) {
    && 0 < |rows| == |accept| <= DFA_MAX_STATES && |cls| <= |rows|
    && RowAfter(term, k, [], rows[0])
    && (forall s :: 0 <= s < |rows| ==> |rows[s]| == |term| + 1 && accept[s] == (rows[s][|term|] <= k))
    && (forall r :: r in index ==> index[r] < |rows| && rows[index[r]] == r)
    && forall s :: 0 <= s < |cls| ==> |cls[s]| == |reps| && forall c :: 0 <= c < |reps| ==> EntryOf(term, k, rows, s, reps[c], cls[s][c])
  }

  /** The states are different rows, each of some text and none of them dead. */
  ghost predicate Needed(term: Bytes, k: nat, rows: seq<Row>, index: map<Row, nat>) {
    && NoneTwice(rows) && (forall r :: r in rows ==> r in index)
    && forall s :: 0 <= s < |rows| ==> Reached(term, k, rows[s]) && Alive(rows[s], k)
  }

  lemma NeededMore(term: Bytes, k: nat, rows: seq<Row>, index: map<Row, nat>, s: nat, ch: Byte, next: Row)
    requires Needed(term, k, rows, index) && s < |rows| && IsStep(rows[s], term, k, ch, next)
    requires Alive(next, k) && next !in index
    ensures Needed(term, k, rows + [next], index[next := |rows|])
  {
    var t := TextOf(term, k, rows[s]);
    StepExact(term, k, t, ch, rows[s], next);
    assert Reached(term, k, next);
    hide RowAfter, Alive, IsStep, Reached;
    forall i | 0 <= i < |rows| ensures rows[i] != next { assert rows[i] in rows; }
  }

  /** An admissible term needs fewer states than the limit: no term is refused for
      the number of its states. */
  lemma StatesFit(term: Bytes, k: nat, rows: seq<Row>, index: map<Row, nat>)
    requires Needed(term, k, rows, index) && |term| <= LEV_PATTERN_MAX && k <= LEV_MAX_K
    ensures |rows| <= 72 * (|term| + k + 1) < DFA_MAX_STATES
  {
    FewRows(term, k, rows);
  }

  lemma StartNeeded(term: Bytes, k: nat, start: Row)
    requires RowAfter(term, k, [], start)
    ensures Needed(term, k, [start], map[start := 0])
  {
    DistLengths([], term[..0]);
    assert start[0] == 0;
    assert Reached(term, k, start) && Alive(start, k);
    hide Reached, Alive;
  }

  /** Breadth-first over the rows. */
  method BuildRows(term: Bytes, k: nat, reps: seq<Byte>)
      returns (ok: bool, rows: seq<Row>, accept: seq<bool>, ghost index: map<Row, nat>, cls: seq<seq<nat>>)
    ensures ok ==> Built(term, k, reps, rows, accept, index, cls) && |cls| == |rows|
    ensures Needed(term, k, rows, index) && (!ok ==> |rows| == DFA_MAX_STATES)
  {
    var start := seq(|term| + 1, j requires 0 <= j <= |term| => Clamp(j, k));
    StartRow(term, k, start);
    StartNeeded(term, k, start);
    var table: map<Row, nat> := map[start := 0];
    rows, accept, cls := [start], [|term| <= k], [];
    index := table;
    ok := true;
    hide Needed;
    while |cls| < |rows|
      invariant Built(term, k, reps, rows, accept, table, cls) && index == table && ok
      invariant Needed(term, k, rows, table)
      decreases DFA_MAX_STATES - |cls|
    {
      var entries;
      ok, rows, accept, table, entries := Expand(term, k, reps, rows, accept, table, cls, |cls|);
      index := table;
      if !ok { return; }
      cls := cls + [entries];
    }
  }

  /** The entries found so far for state `s`. */
  ghost predicate Expanding(term: Bytes, k: nat, reps: seq<Byte>, rows: seq<Row>, s: nat, entries: seq<nat>) {
    s < |rows| && |entries| <= |reps| && forall i :: 0 <= i < |entries| ==> EntryOf(term, k, rows, s, reps[i], entries[i])
  }

  /** The successors of one state, class by class; new rows become new states. */
  method Expand(term: Bytes, k: nat, reps: seq<Byte>, rows0: seq<Row>, accept0: seq<bool>, table0: map<Row, nat>,
                ghost cls: seq<seq<nat>>, s: nat)
      returns (ok: bool, rows: seq<Row>, accept: seq<bool>, table: map<Row, nat>, entries: seq<nat>)
    requires Built(term, k, reps, rows0, accept0, table0, cls) && s == |cls| < |rows0|
    requires Needed(term, k, rows0, table0)
    ensures ok ==> Built(term, k, reps, rows, accept, table, cls + [entries])
    ensures Needed(term, k, rows, table) && (!ok ==> |rows| == DFA_MAX_STATES)
  {
    hide RowAfter, Alive, IsStep, Needed;
    ok, rows, accept, table, entries := true, rows0, accept0, table0, [];
    for c := 0 to |reps|
      invariant ok && Built(term, k, reps, rows, accept, table, cls)
      invariant |entries| == c && Expanding(term, k, reps, rows, s, entries)
      invariant Needed(term, k, rows, table)
    {
      var next, alive := Step(rows[s], term, k, reps[c]);
      if !alive {
        entries := entries + [DFA_DEAD];
      } else if next in table {
        entries := entries + [table[next]];
      } else {
        if |rows| >= DFA_MAX_STATES { return false, rows, accept, table, entries; }
        StepLength(rows[s], term, k, reps[c], next);
        StateAdded(term, k, reps, rows, accept, table, cls, next);
        EntriesKept(term, k, reps, rows, next, s, entries);
        NeededMore(term, k, rows, table, s, reps[c], next);
        table := table[next := |rows|];
        entries := entries + [|rows|];
        accept := accept + [next[|term|] <= k];
        rows := rows + [next];
      }
    }
  }

  lemma StepLength(row: Row, term: Bytes, k: nat, ch: Byte, next: Row)
    requires IsStep(row, term, k, ch, next)
    ensures |next| == |term| + 1
  {
  }

  lemma EntriesKept(term: Bytes, k: nat, reps: seq<Byte>, rows: seq<Row>, next: Row, s: nat, entries: seq<nat>)
    requires Expanding(term, k, reps, rows, s, entries)
    ensures Expanding(term, k, reps, rows + [next], s, entries)
  {
    hide IsStep, Alive;
    forall i | 0 <= i < |entries| ensures EntryOf(term, k, rows + [next], s, reps[i], entries[i]) {
      assert EntryOf(term, k, rows, s, reps[i], entries[i]);
    }
  }

  /** A new state at the end changes nothing about the earlier ones. */
  lemma StateAdded(term: Bytes, k: nat, reps: seq<Byte>, rows: seq<Row>, accept: seq<bool>, table: map<Row, nat>,
                   cls: seq<seq<nat>>, next: Row)
    requires Built(term, k, reps, rows, accept, table, cls) && |rows| < DFA_MAX_STATES
    requires |next| == |term| + 1 && next !in table
    ensures Built(term, k, reps, rows + [next], accept + [next[|term|] <= k], table[next := |rows|], cls)
  {
    hide IsStep, Alive, RowAfter;
    forall s, c | 0 <= s < |cls| && 0 <= c < |reps| ensures EntryOf(term, k, rows + [next], s, reps[c], cls[s][c]) {
      assert EntryOf(term, k, rows, s, reps[c], cls[s][c]);
    }
  }

  /** Widen the class table to all bytes. */
  method ExpandTable(term: Bytes, k: nat, classOf: seq<nat>, reps: seq<Byte>, rows: seq<Row>, accept: seq<bool>,
                     ghost index: map<Row, nat>, cls: seq<seq<nat>>) returns (d: Dfa)
    requires ClassesOf(term, classOf, reps) && Built(term, k, reps, rows, accept, index, cls) && |cls| == |rows|
    ensures Follows(term, k, d, rows) && |d.trans| == |rows|
  {
    var trans: seq<seq<nat>> := [];
    for s := 0 to |rows|
      invariant |trans| == s && forall i :: 0 <= i < s ==> |trans[i]| == 256
      invariant forall i, b :: 0 <= i < s && 0 <= b < 256 ==> trans[i][b] == cls[i][classOf[b]]
    {
      trans := trans + [seq(256, b requires 0 <= b < 256 => cls[s][classOf[b]])];
    }
    hide IsStep, Alive, RowAfter;
    d := Dfa(trans, accept);
    forall s, b: Byte | 0 <= s < |rows| ensures EntryOf(term, k, rows, s, b, d.trans[s][b]) {
      assert EntryOf(term, k, rows, s, reps[classOf[b]], cls[s][classOf[b]]);
      EntryForByte(term, k, reps, rows, s, classOf[b], b, trans[s][b]);
    }
  }

  lemma EntryForByte(term: Bytes, k: nat, reps: seq<Byte>, rows: seq<Row>, s: nat, c: nat, b: Byte, t: nat)
    requires s < |rows| && c < |reps| && SameClass(term, b, reps[c]) && EntryOf(term, k, rows, s, reps[c], t)
    ensures EntryOf(term, k, rows, s, b, t)
  {
    assert SameClass(term, reps[c], b);
    if t == DFA_DEAD {
      var next :| IsStep(rows[s], term, k, reps[c], next) && !Alive(next, k);
      SameClassStep(term, k, rows[s], reps[c], b, next);
    } else {
      SameClassStep(term, k, rows[s], reps[c], b, rows[t]);
    }
  }

  /** Compile a term and a bound.  An empty or overlong term and a bound above two are
      refused, and nothing else; otherwise the automaton accepts exactly the byte strings
      within edit distance `k` of the term. */
  method Compile(term: Bytes, k: nat) returns (r: Compiled)
    ensures r.Failed? <==> term == [] || |term| > LEV_PATTERN_MAX || k > LEV_MAX_K
    ensures r.Automaton? ==> Runnable(r.dfa) && forall u :: Accepts(r.dfa, u) <==> Dist(u, term) <= k
    ensures r.Automaton? ==> |r.dfa.trans| <= 72 * (|term| + k + 1)
  {
    hide Built, Follows, Accepts, ClassesOf, Dist;
    if term == [] || k > LEV_MAX_K || |term| > LEV_PATTERN_MAX { return Failed; }
    var classOf, reps := ByteClasses(term);
    var ok, rows, accept, cls;
    ghost var index;
    ok, rows, accept, index, cls := BuildRows(term, k, reps);
    StatesFit(term, k, rows, index);
    if !ok { return Failed; }
    var d := ExpandTable(term, k, classOf, reps, rows, accept, index, cls);
    AcceptsAllWithin(term, k, d, rows);
    r := Automaton(d);
  }

  lemma AcceptsAllWithin(term: Bytes, k: nat, d: Dfa, rows: seq<Row>)
    requires Follows(term, k, d, rows)
    ensures Runnable(d) && forall u :: Accepts(d, u) <==> Dist(u, term) <= k
  {
    hide Accepts, Dist;
    forall u ensures Accepts(d, u) <==> Dist(u, term) <= k { AcceptsWithin(term, k, d, rows, u); }
  }
}
