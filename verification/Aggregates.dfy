/** Aggregate rules under change.

    A maintainable aggregate rule reads one stored relation, groups its rows by
    their leading columns and emits one row per non-empty group: the group key and
    the count, sum, minimum or maximum.  Evaluation from scratch fills one bucket
    per group; maintenance re-scans only the groups that a pending change touches.
    Both see the rows of a relation in ascending order and count them in 32 bits, so
    a group of 2^32 rows counts as empty for maintenance, and its minimum or maximum
    starts over.
 */
module Aggregates {
  import opened Tuples

  type Row = Tuple

  const WORD: nat := 0x1_0000_0000

  datatype Op = Count | Sum | Min | Max

  datatype AggRule = AggRule(nKey: nat, arity: nat, op: Op, src: nat)

  predicate WellFormed(rule: AggRule) {
    rule.nKey <= rule.arity && (rule.op.Count? || rule.src < rule.arity)
  }

  predicate Typed(rule: AggRule, rows: seq<Row>) {
    forall i :: 0 <= i < |rows| ==> IsTuple(rows[i], rule.arity)
  }

  /** A relation as its readers enumerate it. */
  ghost predicate Relation(rule: AggRule, rows: seq<Row>) {
    Typed(rule, rows) && TuplesAscend(rows)
  }

  predicate InGroup(rule: AggRule, r: Row, key: Row) {
    |r| >= rule.nKey && r[..rule.nKey] == key
  }

  /** The rows of one group, in order. */
  function Group(rule: AggRule, rows: seq<Row>, key: Row): (G: seq<Row>)
    ensures forall r :: r in G <==> r in rows && InGroup(rule, r, key)
  {
    if rows == [] then []
    else
      var n := |rows| - 1;
      assert rows == rows[..n] + [rows[n]];
      Group(rule, rows[..n], key) + if InGroup(rule, rows[n], key) then [rows[n]] else []
  }

  function Keys(rule: AggRule, rows: seq<Row>): set<Row> {
    set r | r in rows && |r| >= rule.nKey :: r[..rule.nKey]
  }

  /* ---------- the accumulator ---------- */

  datatype Acc = Acc(count: nat, sum: nat, min: nat, max: nat)

  const EMPTY := Acc(0, 0, 0, 0)

  /** The aggregated column of a row. */
  function Source(rule: AggRule, r: Row): (v: nat)
    ensures rule.src < |r| ==> v == r[rule.src]
  {
    if rule.src < |r| then r[rule.src] else 0
  }

  function Accumulate(rule: AggRule, a: Acc, r: Row): Acc {
    var count := (a.count + 1) % WORD;
    var v := Source(rule, r);
    match rule.op
    case Count => a.(count := count)
    case Sum => a.(count := count, sum := (a.sum + v) % WORD)
    case Min => a.(count := count, min := if count == 1 || v < a.min then v else a.min)
    case Max => a.(count := count, max := if count == 1 || v > a.max then v else a.max)
  }

  function Folded(rule: AggRule, G: seq<Row>): Acc {
    if G == [] then EMPTY else Accumulate(rule, Folded(rule, G[..|G| - 1]), G[|G| - 1])
  }

  function Result(rule: AggRule, a: Acc): nat {
    match rule.op
    case Count => a.count
    case Sum => a.sum
    case Min => a.min
    case Max => a.max
  }

  /* ---------- what the accumulator holds ---------- */

  function Total(rule: AggRule, G: seq<Row>): nat {
    if G == [] then 0 else Total(rule, G[..|G| - 1]) + Source(rule, G[|G| - 1])
  }

  /** Where the rows begin that a minimum or maximum over `n` rows still sees: the
      counter passed through one there last. */
  function Restart(n: nat): nat
    requires n > 0
  {
    (n - 1) / WORD * WORD
  }

  ghost predicate LeastFrom(rule: AggRule, G: seq<Row>, from: nat, v: nat) {
    && (exists i :: from <= i < |G| && Source(rule, G[i]) == v)
    && forall i :: from <= i < |G| ==> v <= Source(rule, G[i])
  }

  ghost predicate GreatestFrom(rule: AggRule, G: seq<Row>, from: nat, v: nat) {
    && (exists i :: from <= i < |G| && Source(rule, G[i]) == v)
    && forall i :: from <= i < |G| ==> Source(rule, G[i]) <= v
  }

  /** The value emitted for a non-empty group: the count and the sum modulo 2^32, the
      extreme of the rows since the counter last started over. */
  ghost predicate IsValue(rule: AggRule, G: seq<Row>, v: nat)
    requires G != []
  {
    match rule.op
    case Count => v == |G| % WORD
    case Sum => v == Total(rule, G) % WORD
    case Min => LeastFrom(rule, G, Restart(|G|), v)
    case Max => GreatestFrom(rule, G, Restart(|G|), v)
  }

  lemma {:induction false} ModShift(q: nat, z: nat)
    ensures (q * WORD + z) % WORD == z % WORD
    decreases q
  {
    if q > 0 {
      ModShift(q - 1, z);
      var w := (q - 1) * WORD + z;
      assert q * WORD + z == w + WORD;
      assert (w + WORD) % WORD == w % WORD;
    }
  }

  lemma ModAdd(x: nat, y: nat)
    ensures (x % WORD + y) % WORD == (x + y) % WORD
  {
    var q := x / WORD;
    assert x == q * WORD + x % WORD;
    assert (q * WORD + (x % WORD + y)) % WORD == (x % WORD + y) % WORD by { ModShift(q, x % WORD + y); }
  }

  /** The counter shows one exactly at the rows where an extreme starts over. */
  lemma RestartStep(n: nat)
    ensures n > 0 && (n + 1) % WORD != 1 ==> Restart(n + 1) == Restart(n)
    ensures (n + 1) % WORD == 1 ==> Restart(n + 1) == n
  {
    var q, m := n / WORD, n % WORD;
    assert n == q * WORD + m;
    ModAdd(n, 1);
    if m > 0 {
      assert (n - 1) / WORD == q && (n - 1) % WORD == m - 1;
    }
  }

  lemma {:induction false} FoldedCount(rule: AggRule, G: seq<Row>)
    ensures Folded(rule, G).count == |G| % WORD
  {
    if G != [] {
      FoldedCount(rule, G[..|G| - 1]);
      ModAdd(|G| - 1, 1);
    }
  }

  lemma {:induction false} FoldedSum(rule: AggRule, G: seq<Row>)
    requires rule.op.Sum?
    ensures Folded(rule, G).sum == Total(rule, G) % WORD
  {
    if G != [] {
      FoldedSum(rule, G[..|G| - 1]);
      ModAdd(Total(rule, G[..|G| - 1]), Source(rule, G[|G| - 1]));
    }
  }

  lemma LeastMore(rule: AggRule, G: seq<Row>, from: nat, v: nat, r: Row)
    requires from <= |G| && (from < |G| ==> LeastFrom(rule, G, from, v))
    ensures var x := Source(rule, r);
            LeastFrom(rule, G + [r], from, if from == |G| || x < v then x else v)
  {
    var H := G + [r];
    assert H[|G|] == r;
    if from < |G| {
      var i :| from <= i < |G| && Source(rule, G[i]) == v;
      assert H[i] == G[i];
    }
  }

  lemma GreatestMore(rule: AggRule, G: seq<Row>, from: nat, v: nat, r: Row)
    requires from <= |G| && (from < |G| ==> GreatestFrom(rule, G, from, v))
    ensures var x := Source(rule, r);
            GreatestFrom(rule, G + [r], from, if from == |G| || x > v then x else v)
  {
    var H := G + [r];
    assert H[|G|] == r;
    if from < |G| {
      var i :| from <= i < |G| && Source(rule, G[i]) == v;
      assert H[i] == G[i];
    }
  }

  lemma {:induction false} FoldedLeast(rule: AggRule, G: seq<Row>)
    requires rule.op.Min? && G != []
    ensures LeastFrom(rule, G, Restart(|G|), Folded(rule, G).min)
  {
    hide LeastFrom, Restart;
    var n := |G| - 1;
    var F, r := G[..n], G[n];
    assert G == F + [r];
    FoldedCount(rule, G);
    RestartStep(n);
    if n > 0 && (n + 1) % WORD != 1 {
      FoldedLeast(rule, F);
      RestartBelow(n);
      LeastMore(rule, F, Restart(n), Folded(rule, F).min, r);
    } else {
      LeastMore(rule, F, n, 0, r);
    }
  }

  lemma {:induction false} FoldedGreatest(rule: AggRule, G: seq<Row>)
    requires rule.op.Max? && G != []
    ensures GreatestFrom(rule, G, Restart(|G|), Folded(rule, G).max)
  {
    hide GreatestFrom, Restart;
    var n := |G| - 1;
    var F, r := G[..n], G[n];
    assert G == F + [r];
    FoldedCount(rule, G);
    RestartStep(n);
    if n > 0 && (n + 1) % WORD != 1 {
      FoldedGreatest(rule, F);
      RestartBelow(n);
      GreatestMore(rule, F, Restart(n), Folded(rule, F).max, r);
    } else {
      GreatestMore(rule, F, n, 0, r);
    }
  }

  lemma RestartBelow(n: nat)
    requires n > 0
    ensures Restart(n) < n
    ensures n <= WORD <==> Restart(n) == 0
  {
    var q := (n - 1) / WORD;
    assert q * WORD + (n - 1) % WORD == n - 1;
    if q > 0 { assert q * WORD >= WORD; }
  }

  lemma FoldedValue(rule: AggRule, G: seq<Row>)
    requires G != []
    ensures IsValue(rule, G, Result(rule, Folded(rule, G)))
  {
    hide Folded, LeastFrom, GreatestFrom, Restart;
    match rule.op
    case Count => FoldedCount(rule, G);
    case Sum => FoldedSum(rule, G);
    case Min => FoldedLeast(rule, G);
    case Max => FoldedGreatest(rule, G);
  }

  /** A minimum is the minimum of the whole group if and only if no row from before the
      last restart is smaller; with at most 2^32 rows there is none. */
  lemma MinimumExactIff(rule: AggRule, G: seq<Row>)
    requires rule.op.Min? && G != []
    ensures LeastFrom(rule, G, 0, Result(rule, Folded(rule, G))) <==>
            forall i :: 0 <= i < Restart(|G|) ==> Result(rule, Folded(rule, G)) <= Source(rule, G[i])
    ensures |G| <= WORD ==> LeastFrom(rule, G, 0, Result(rule, Folded(rule, G)))
  {
    hide Folded, Restart;
    FoldedLeast(rule, G);
    RestartBelow(|G|);
  }

  /** The same for a maximum. */
  lemma MaximumExactIff(rule: AggRule, G: seq<Row>)
    requires rule.op.Max? && G != []
    ensures GreatestFrom(rule, G, 0, Result(rule, Folded(rule, G))) <==>
            forall i :: 0 <= i < Restart(|G|) ==> Source(rule, G[i]) <= Result(rule, Folded(rule, G))
    ensures |G| <= WORD ==> GreatestFrom(rule, G, 0, Result(rule, Folded(rule, G)))
  {
    hide Folded, Restart;
    FoldedGreatest(rule, G);
    RestartBelow(|G|);
  }

  lemma ValueUnique(rule: AggRule, G: seq<Row>, v: nat, w: nat)
    requires G != [] && IsValue(rule, G, v) && IsValue(rule, G, w)
    ensures v == w
  {
  }

  /* ---------- evaluation from scratch ---------- */

  /** The head rows of an evaluation from scratch: one for each non-empty group. */
  function Scratch(rule: AggRule, rows: seq<Row>): set<Row> {
    set key | key in Keys(rule, rows) :: key + [Result(rule, Folded(rule, Group(rule, rows, key)))]
  }

  ghost predicate RightRow(rule: AggRule, rows: seq<Row>, row: Row) {
    && |row| == rule.nKey + 1 && Group(rule, rows, row[..rule.nKey]) != []
    && IsValue(rule, Group(rule, rows, row[..rule.nKey]), row[rule.nKey])
  }

  lemma KeyHasRows(rule: AggRule, rows: seq<Row>, key: Row)
    requires |key| == rule.nKey
    ensures key in Keys(rule, rows) <==> Group(rule, rows, key) != []
  {
    var G := Group(rule, rows, key);
    if G != [] { assert G[0] in G; }
    if key in Keys(rule, rows) {
      var r :| r in rows && |r| >= rule.nKey && r[..rule.nKey] == key;
      assert InGroup(rule, r, key);
    }
  }

  /** An evaluation from scratch emits for every non-empty group its value and nothing
      else: no group is too large for a count or a sum modulo 2^32. */
  lemma ScratchMeaning(rule: AggRule, rows: seq<Row>, row: Row)
    ensures row in Scratch(rule, rows) <==> RightRow(rule, rows, row)
  {
    hide IsValue, Group, Folded;
    if row in Scratch(rule, rows) {
      var key :| key in Keys(rule, rows) && row == key + [Result(rule, Folded(rule, Group(rule, rows, key)))];
      KeyHasRows(rule, rows, key);
      FoldedValue(rule, Group(rule, rows, key));
      assert row[..rule.nKey] == key;
    }
    if RightRow(rule, rows, row) {
      var key := row[..rule.nKey];
      KeyHasRows(rule, rows, key);
      FoldedValue(rule, Group(rule, rows, key));
      ValueUnique(rule, Group(rule, rows, key), row[rule.nKey], Result(rule, Folded(rule, Group(rule, rows, key))));
      assert row == key + [row[rule.nKey]];
    }
  }

  ghost predicate BucketsHold(rule: AggRule, seen: seq<Row>, buckets: map<Row, Acc>) {
    && buckets.Keys == Keys(rule, seen)
    && forall key :: key in buckets ==> buckets[key] == Folded(rule, Group(rule, seen, key))
  }

  lemma BucketStep(rule: AggRule, seen: seq<Row>, buckets: map<Row, Acc>, r: Row)
    requires BucketsHold(rule, seen, buckets) && |r| >= rule.nKey
    ensures var key := r[..rule.nKey];
            var a := if key in buckets then buckets[key] else EMPTY;
            BucketsHold(rule, seen + [r], buckets[key := Accumulate(rule, a, r)])
  {
    hide Accumulate, Group, Keys, Folded;
    var key, now := r[..rule.nKey], seen + [r];
    KeysSnoc(rule, seen, r);
    forall k | k in Keys(rule, now)
      ensures k != key ==> Group(rule, now, k) == Group(rule, seen, k) && k in Keys(rule, seen)
    {
      GroupSnoc(rule, seen, r, k);
    }
    GroupSnoc(rule, seen, r, key);
    KeyHasRows(rule, seen, key);
    FoldedSnoc(rule, Group(rule, seen, key), r);
    assert key !in buckets ==> Folded(rule, Group(rule, seen, key)) == EMPTY by { FoldedNothing(rule); }
  }

  lemma GroupSnoc(rule: AggRule, seen: seq<Row>, r: Row, key: Row)
    ensures Group(rule, seen + [r], key) == if InGroup(rule, r, key) then Group(rule, seen, key) + [r] else Group(rule, seen, key)
  {
    assert (seen + [r])[..|seen|] == seen;
    assert Group(rule, seen, key) + [] == Group(rule, seen, key);
  }

  lemma KeysSnoc(rule: AggRule, seen: seq<Row>, r: Row)
    requires |r| >= rule.nKey
    ensures Keys(rule, seen + [r]) == Keys(rule, seen) + {r[..rule.nKey]}
  {
  }

  lemma FoldedSnoc(rule: AggRule, G: seq<Row>, r: Row)
    ensures Folded(rule, G + [r]) == Accumulate(rule, Folded(rule, G), r)
  {
    assert (G + [r])[..|G|] == G;
  }

  lemma FoldedNothing(rule: AggRule)
    ensures Folded(rule, []) == EMPTY
  {
  }

  /** One bucket per group, then one head row per bucket. */
  method EvaluateRule(rule: AggRule, rows: seq<Row>) returns (head: set<Row>)
    requires WellFormed(rule) && Typed(rule, rows)
    ensures head == Scratch(rule, rows)
  {
    hide Accumulate, Folded, Group;
    var buckets: map<Row, Acc> := map[];
    for i := 0 to |rows|
      invariant BucketsHold(rule, rows[..i], buckets)
    {
      BucketStep(rule, rows[..i], buckets, rows[i]);
      assert rows[..i + 1] == rows[..i] + [rows[i]];
      var key := rows[i][..rule.nKey];
      buckets := buckets[key := Accumulate(rule, if key in buckets then buckets[key] else EMPTY, rows[i])];
    }
    assert rows[..|rows|] == rows;
    head := set key | key in buckets :: key + [Result(rule, buckets[key])];
  }

  /* ---------- maintenance ---------- */

  /** Re-scan of one group. */
  method ScanGroup(rule: AggRule, rows: seq<Row>, key: Row) returns (a: Acc)
    ensures a == Folded(rule, Group(rule, rows, key))
  {
    hide Group, Accumulate;
    var G := Group(rule, rows, key);
    a := EMPTY;
    for i := 0 to |G|
      invariant a == Folded(rule, G[..i])
    {
      assert G[..i + 1][..i] == G[..i];
      a := Accumulate(rule, a, G[i]);
    }
    assert G[..|G|] == G;
  }

  /** At most one head row per group key. */
  ghost predicate OneRowPerGroup(rule: AggRule, head: set<Row>) {
    && (forall r :: r in head ==> |r| == rule.nKey + 1)
    && forall r, q :: r in head && q in head && r[..rule.nKey] == q[..rule.nKey] ==> r == q
  }

  function Without(rule: AggRule, head: set<Row>, keys: set<Row>): set<Row> {
    set r | r in head && |r| >= rule.nKey && r[..rule.nKey] !in keys
  }

  /** The row that maintenance gives a group: none when its counter shows zero. */
  function Repair(rule: AggRule, rows: seq<Row>, key: Row): set<Row> {
    var a := Folded(rule, Group(rule, rows, key));
    if a.count == 0 then {} else {key + [Result(rule, a)]}
  }

  /** The head after the groups `keys` were repaired. */
  function Repaired(rule: AggRule, rows: seq<Row>, keys: set<Row>, head: set<Row>): set<Row> {
    Without(rule, head, keys) + set key, r | key in keys && r in Repair(rule, rows, key) :: r
  }

  /** The groups that a change touches. */
  function Touched(rule: AggRule, inserts: seq<Row>, deletes: seq<Row>): set<Row> {
    Keys(rule, inserts) + Keys(rule, deletes)
  }

  class AggregateView {
    const rule: AggRule
    var head: set<Row>

    constructor (rule: AggRule)
      requires WellFormed(rule)
      ensures this.rule == rule && head == {} == Scratch(rule, [])
    {
      this.rule := rule;
      head := {};
    }

    /** A full evaluation: the head is cleared and filled from scratch. */
    method Evaluate(rows: seq<Row>)
      requires WellFormed(rule) && Typed(rule, rows)
      modifies this`head
      ensures head == Scratch(rule, rows) && OneRowPerGroup(rule, head)
    {
      head := EvaluateRule(rule, rows);
      ScratchOneRow(rule, rows);
    }

    /** Replace the row of one group by its new value, or remove it. */
    method UpdateGroup(rows: seq<Row>, key: Row)
      requires |key| == rule.nKey && OneRowPerGroup(rule, head)
      modifies this`head
      ensures OneRowPerGroup(rule, head) && head == Without(rule, old(head), {key}) + Repair(rule, rows, key)
    {
      hide Group, Folded;
      var a := ScanGroup(rule, rows, key);
      var oldRows := set r | r in head && r[..rule.nKey] == key;
      if a.count == 0 {
        if oldRows != {} {
          var r :| r in oldRows;
          head := head - {r};
        } else {
          assert forall q :: q in head && q[..rule.nKey] == key ==> q in oldRows;
        }
        return;
      }
      var row := key + [Result(rule, a)];
      assert row[..rule.nKey] == key;
      if row in head { return; }
      if oldRows != {} {
        var r :| r in oldRows;
        head := head - {r};
      } else {
        assert forall q :: q in head && q[..rule.nKey] == key ==> q in oldRows;
      }
      head := head + {row};
    }

    /** Bring the head up to date after pending inserts and deletes of the relation.  Over
        a head that was right, it is right again if and only if no group with an inserted
        or deleted row has a size that is a non-zero multiple of 2^32. */
    method Maintain(rows: seq<Row>, inserts: seq<Row>, deletes: seq<Row>, ghost was: seq<Row>)
      requires WellFormed(rule) && Typed(rule, inserts) && Typed(rule, deletes) && OneRowPerGroup(rule, head)
      modifies this`head
      ensures OneRowPerGroup(rule, head)
      ensures head == Repaired(rule, rows, Touched(rule, inserts, deletes), old(head))
      ensures Relation(rule, was) && Relation(rule, rows) && Recorded(was, rows, inserts, deletes) && old(head) == Scratch(rule, was) ==>
                (head == Scratch(rule, rows) <==> NoChangeWrapped(rule, rows, inserts, deletes))
    {
      Touch(rows, inserts, deletes);
      hide OneRowPerGroup, Repaired, Scratch;
      if Relation(rule, was) && Relation(rule, rows) && Recorded(was, rows, inserts, deletes) && old(head) == Scratch(rule, was) {
        ChangesExactIff(rule, was, rows, inserts, deletes);
      }
    }

    /** Repair the groups that a change touches, one by one. */
    method Touch(rows: seq<Row>, inserts: seq<Row>, deletes: seq<Row>)
      requires WellFormed(rule) && Typed(rule, inserts) && Typed(rule, deletes) && OneRowPerGroup(rule, head)
      modifies this`head
      ensures OneRowPerGroup(rule, head)
      ensures head == Repaired(rule, rows, Touched(rule, inserts, deletes), old(head))
    {
      hide Repair, Group, OneRowPerGroup;
      NothingRepaired(rule, rows, head);
      if rule.nKey == 0 {
        SingleGroup(rule, inserts);
        SingleGroup(rule, deletes);
        if inserts == [] && deletes == [] { return; }
        RepairedMore(rule, rows, {}, [], head);
        UpdateGroup(rows, []);
        return;
      }
      var keys := Touched(rule, inserts, deletes);
      var todo := keys;
      assert keys - todo == {};
      while todo != {}
        invariant todo <= keys && OneRowPerGroup(rule, head) && head == Repaired(rule, rows, keys - todo, old(head))
        decreases todo
      {
        var key :| key in todo;
        assert key in keys;
        RepairedMore(rule, rows, keys - todo, key, old(head));
        assert keys - (todo - {key}) == keys - todo + {key};
        UpdateGroup(rows, key);
        todo := todo - {key};
      }
      assert keys - todo == keys;
    }
  }

  /** Every row that came or went is among the pending changes. */
  ghost predicate Recorded(was: seq<Row>, rows: seq<Row>, inserts: seq<Row>, deletes: seq<Row>) {
    forall r :: (r in was) != (r in rows) ==> r in inserts || r in deletes
  }

  /** No row that came or went belongs to a group whose size the counter shows as zero. */
  ghost predicate NoChangeWrapped(rule: AggRule, rows: seq<Row>, inserts: seq<Row>, deletes: seq<Row>) {
    forall r :: (r in inserts || r in deletes) && |r| >= rule.nKey && Group(rule, rows, r[..rule.nKey]) != [] ==>
      |Group(rule, rows, r[..rule.nKey])| % WORD != 0
  }

  /** The groups that changes touch are those of all rows that came or went. */
  lemma TouchedCovers(rule: AggRule, was: seq<Row>, rows: seq<Row>, inserts: seq<Row>, deletes: seq<Row>)
    requires Recorded(was, rows, inserts, deletes) && Typed(rule, was) && Typed(rule, rows) && WellFormed(rule)
    ensures Covers(rule, was, rows, Touched(rule, inserts, deletes))
  {
    forall r | (r in was) != (r in rows) ensures |r| >= rule.nKey && r[..rule.nKey] in Touched(rule, inserts, deletes) {
      assert |r| == rule.arity by {
        if r in was { var i :| 0 <= i < |was| && was[i] == r; } else { var i :| 0 <= i < |rows| && rows[i] == r; }
      }
    }
  }

  /** Maintenance of recorded changes agrees with an evaluation from scratch exactly when
      none of them belongs to a group whose size wraps to zero. */
  lemma ChangesExactIff(rule: AggRule, was: seq<Row>, rows: seq<Row>, inserts: seq<Row>, deletes: seq<Row>)
    requires WellFormed(rule) && Relation(rule, was) && Relation(rule, rows) && Recorded(was, rows, inserts, deletes)
    ensures Repaired(rule, rows, Touched(rule, inserts, deletes), Scratch(rule, was)) == Scratch(rule, rows) <==>
            NoChangeWrapped(rule, rows, inserts, deletes)
  {
    var keys := Touched(rule, inserts, deletes);
    TouchedCovers(rule, was, rows, inserts, deletes);
    hide Scratch, Repaired, Relation, Covers, Group, Folded;
    MaintainExactIff(rule, was, rows, keys);
    if !NoneWrapped(rule, rows, keys) {
      var key :| key in keys && |key| == rule.nKey && Group(rule, rows, key) != [] && |Group(rule, rows, key)| % WORD == 0;
      var r :| (r in inserts || r in deletes) && |r| >= rule.nKey && r[..rule.nKey] == key;
    }
    if !NoChangeWrapped(rule, rows, inserts, deletes) {
      var r :| (r in inserts || r in deletes) && |r| >= rule.nKey && Group(rule, rows, r[..rule.nKey]) != [] &&
               |Group(rule, rows, r[..rule.nKey])| % WORD == 0;
      assert r[..rule.nKey] in keys;
    }
  }

  lemma NothingRepaired(rule: AggRule, rows: seq<Row>, head: set<Row>)
    requires OneRowPerGroup(rule, head)
    ensures Repaired(rule, rows, {}, head) == head
  {
  }

  lemma SingleGroup(rule: AggRule, rows: seq<Row>)
    requires rule.nKey == 0
    ensures Keys(rule, rows) == if rows == [] then {} else {[]}
  {
    if rows != [] { assert rows[0] in rows && rows[0][..0] == []; }
  }

  lemma RepairKey(rule: AggRule, rows: seq<Row>, key: Row)
    requires |key| == rule.nKey
    ensures forall r :: r in Repair(rule, rows, key) ==> |r| == rule.nKey + 1 && r[..rule.nKey] == key
  {
  }

  lemma RepairedMore(rule: AggRule, rows: seq<Row>, done: set<Row>, key: Row, head: set<Row>)
    requires key !in done && |key| == rule.nKey && forall k :: k in done ==> |k| == rule.nKey
    ensures Repaired(rule, rows, done + {key}, head) ==
            Without(rule, Repaired(rule, rows, done, head), {key}) + Repair(rule, rows, key)
  {
    hide Repair;
    forall k | k in done + {key} ensures forall r :: r in Repair(rule, rows, k) ==> |r| == rule.nKey + 1 && r[..rule.nKey] == k {
      RepairKey(rule, rows, k);
    }
  }

  /* ---------- maintenance against evaluation from scratch ---------- */

  ghost predicate Covers(rule: AggRule, was: seq<Row>, rows: seq<Row>, keys: set<Row>) {
    forall r :: (r in was) != (r in rows) ==> |r| >= rule.nKey && r[..rule.nKey] in keys
  }

  lemma {:induction false} GroupAscends(rule: AggRule, rows: seq<Row>, key: Row)
    requires TuplesAscend(rows)
    ensures TuplesAscend(Group(rule, rows, key))
  {
    hide TupleBelow;
    if rows != [] {
      var n := |rows| - 1;
      var F := Group(rule, rows[..n], key);
      GroupAscends(rule, rows[..n], key);
      forall i | 0 <= i < |F| ensures TupleBelow(F[i], rows[n]) {
        assert F[i] in rows[..n];
      }
    }
  }

  /** A group that no change touches is enumerated as before. */
  lemma UntouchedGroup(rule: AggRule, was: seq<Row>, rows: seq<Row>, keys: set<Row>, key: Row)
    requires Relation(rule, was) && Relation(rule, rows) && Covers(rule, was, rows, keys) && key !in keys
    ensures Group(rule, was, key) == Group(rule, rows, key)
  {
    GroupAscends(rule, was, key);
    GroupAscends(rule, rows, key);
    hide TuplesAscend;
    AscendingUnique(Group(rule, was, key), Group(rule, rows, key), rule.arity);
  }

  lemma ScratchRow(rule: AggRule, rows: seq<Row>, key: Row, r: Row)
    requires |key| == rule.nKey && |r| >= rule.nKey && r[..rule.nKey] == key
    ensures r in Scratch(rule, rows) <==>
            Group(rule, rows, key) != [] && r == key + [Result(rule, Folded(rule, Group(rule, rows, key)))]
  {
    hide Group, Folded;
    KeyHasRows(rule, rows, key);
    if r in Scratch(rule, rows) {
      var k :| k in Keys(rule, rows) && r == k + [Result(rule, Folded(rule, Group(rule, rows, k)))];
      assert r[..rule.nKey] == k;
    }
  }

  lemma ScratchRowShape(rule: AggRule, rows: seq<Row>, r: Row)
    requires r in Scratch(rule, rows)
    ensures |r| == rule.nKey + 1 && r[..rule.nKey] in Keys(rule, rows)
  {
    hide Group, Folded;
    var k :| k in Keys(rule, rows) && r == k + [Result(rule, Folded(rule, Group(rule, rows, k)))];
    assert r[..rule.nKey] == k;
  }

  lemma ScratchOneRow(rule: AggRule, rows: seq<Row>)
    ensures OneRowPerGroup(rule, Scratch(rule, rows))
  {
    hide Scratch, Group, Folded;
    var head := Scratch(rule, rows);
    forall r | r in head ensures |r| == rule.nKey + 1 { ScratchRowShape(rule, rows, r); }
    forall r, q | r in head && q in head && r[..rule.nKey] == q[..rule.nKey] ensures r == q {
      ScratchRow(rule, rows, r[..rule.nKey], r);
      ScratchRow(rule, rows, r[..rule.nKey], q);
    }
  }

  /** No touched group has a row count that the 32-bit counter shows as zero. */
  ghost predicate NoneWrapped(rule: AggRule, rows: seq<Row>, keys: set<Row>) {
    forall key :: key in keys && |key| == rule.nKey && Group(rule, rows, key) != [] ==> |Group(rule, rows, key)| % WORD != 0
  }

  /** Maintenance agrees with an evaluation from scratch, for all four aggregates, if and
      only if no touched group with rows has a size that is a multiple of 2^32. */
  lemma MaintainExactIff(rule: AggRule, was: seq<Row>, rows: seq<Row>, keys: set<Row>)
    requires Relation(rule, was) && Relation(rule, rows) && Covers(rule, was, rows, keys)
    requires forall key :: key in keys ==> |key| == rule.nKey
    ensures Repaired(rule, rows, keys, Scratch(rule, was)) == Scratch(rule, rows) <==> NoneWrapped(rule, rows, keys)
  {
    hide Scratch, Repaired, Relation, Covers, Group, Folded;
    var head := Repaired(rule, rows, keys, Scratch(rule, was));
    if NoneWrapped(rule, rows, keys) {
      forall r ensures r in head <==> r in Scratch(rule, rows) {
        if |r| >= rule.nKey {
          RowAgrees(rule, was, rows, keys, r);
          ScratchRow(rule, rows, r[..rule.nKey], r);
        } else {
          ShortRow(rule, was, rows, keys, r);
        }
      }
    } else {
      var key :| key in keys && |key| == rule.nKey && Group(rule, rows, key) != [] && |Group(rule, rows, key)| % WORD == 0;
      var r := key + [Result(rule, Folded(rule, Group(rule, rows, key)))];
      assert r[..rule.nKey] == key;
      RowAgrees(rule, was, rows, keys, r);
      ScratchRow(rule, rows, key, r);
      assert r in Scratch(rule, rows) && r !in head;
    }
  }

  lemma ShortRow(rule: AggRule, was: seq<Row>, rows: seq<Row>, keys: set<Row>, r: Row)
    requires |r| < rule.nKey && forall key :: key in keys ==> |key| == rule.nKey
    ensures r !in Repaired(rule, rows, keys, Scratch(rule, was)) && r !in Scratch(rule, rows)
  {
    hide Scratch, Group, Folded;
    if r in Scratch(rule, rows) { ScratchRowShape(rule, rows, r); }
    forall key | key in keys ensures r !in Repair(rule, rows, key) {}
  }

  /** One row of the maintained head against the evaluation from scratch. */
  lemma RowAgrees(rule: AggRule, was: seq<Row>, rows: seq<Row>, keys: set<Row>, r: Row)
    requires Relation(rule, was) && Relation(rule, rows) && Covers(rule, was, rows, keys)
    requires |r| >= rule.nKey && forall key :: key in keys ==> |key| == rule.nKey
    ensures var key := r[..rule.nKey];
            r in Repaired(rule, rows, keys, Scratch(rule, was)) <==>
              r in Scratch(rule, rows) && (key in keys ==> |Group(rule, rows, key)| % WORD != 0)
  {
    hide Scratch, Relation, Covers, Group, Folded, Repair;
    var key := r[..rule.nKey];
    ScratchRow(rule, rows, key, r);
    forall k | k in keys ensures forall q :: q in Repair(rule, rows, k) ==> |q| >= rule.nKey && q[..rule.nKey] == k {
      RepairKey(rule, rows, k);
    }
    if key in keys {
      RepairRow(rule, rows, key, r);
    } else {
      UntouchedGroup(rule, was, rows, keys, key);
      ScratchRow(rule, was, key, r);
    }
  }

  lemma RepairRow(rule: AggRule, rows: seq<Row>, key: Row, r: Row)
    requires |key| == rule.nKey
    ensures var G := Group(rule, rows, key);
            r in Repair(rule, rows, key) <==> |G| % WORD != 0 && r == key + [Result(rule, Folded(rule, G))]
  {
    FoldedCount(rule, Group(rule, rows, key));
  }

  /* ---------- a group that wraps ---------- */

  const COUNT_BY_FIRST := AggRule(1, 2, Count, 0)

  function Rows(n: nat): (rows: seq<Row>)
    ensures |rows| == n && forall i :: 0 <= i < n ==> rows[i] == [7, i]
  {
    seq(n, i requires 0 <= i < n => [7, i])
  }

  lemma RowsRelation(n: nat)
    requires n <= WORD
    ensures Relation(COUNT_BY_FIRST, Rows(n))
  {
    var rows := Rows(n);
    forall i, j | 0 <= i < j < n ensures TupleBelow(rows[i], rows[j]) {
      assert rows[i][1..] == [i] && rows[j][1..] == [j];
    }
  }

  lemma {:induction false} RowsGroup(n: nat)
    ensures Group(COUNT_BY_FIRST, Rows(n), [7]) == Rows(n)
  {
    if n > 0 {
      var rows := Rows(n);
      assert rows[..n - 1] == Rows(n - 1);
      assert [7, n - 1][..1] == [7];
      assert InGroup(COUNT_BY_FIRST, rows[n - 1], [7]);
      RowsGroup(n - 1);
      assert rows == Rows(n - 1) + [rows[n - 1]];
    }
  }

  lemma RowsKeys(n: nat)
    requires n > 0
    ensures Keys(COUNT_BY_FIRST, Rows(n)) == {[7]}
  {
    var rows := Rows(n);
    forall r | r in rows ensures r[..1] == [7] {
      var i :| 0 <= i < n && rows[i] == r;
    }
    assert rows[0] in rows;
  }

  lemma RowsScratch(n: nat)
    requires n > 0
    ensures Scratch(COUNT_BY_FIRST, Rows(n)) == {[7, n % WORD]}
  {
    hide Folded, Group, Keys;
    RowsKeys(n);
    RowsGroup(n);
    FoldedCount(COUNT_BY_FIRST, Rows(n));
    assert [7] + [n % WORD] == [7, n % WORD];
  }

  /** The rows `(7, 0)` to `(7, 2^32 - 2)` and then one more: the count row, right until
      then, disappears, while an evaluation from scratch keeps `(7, 0)`. */
  lemma WrappedGroupLost(was: seq<Row>, rows: seq<Row>, inserted: Row)
    requires was == Rows(WORD - 1) && rows == Rows(WORD) && inserted == [7, WORD - 1]
    ensures Relation(COUNT_BY_FIRST, was) && Relation(COUNT_BY_FIRST, rows) && rows == was + [inserted]
    ensures Scratch(COUNT_BY_FIRST, was) == {[7, WORD - 1]}
    ensures Repaired(COUNT_BY_FIRST, rows, Touched(COUNT_BY_FIRST, [inserted], []), Scratch(COUNT_BY_FIRST, was)) == {}
    ensures Scratch(COUNT_BY_FIRST, rows) == {[7, 0]}
  {
    hide Folded, Group;
    RowsRelation(WORD - 1);
    RowsRelation(WORD);
    RowsScratch(WORD - 1);
    RowsScratch(WORD);
    assert rows == was + [inserted];
    assert Touched(COUNT_BY_FIRST, [inserted], []) == {[7]} by {
      assert inserted[..1] == [7] && inserted in [inserted];
    }
    RowsGroup(WORD);
    FoldedCount(COUNT_BY_FIRST, rows);
    assert Repair(COUNT_BY_FIRST, rows, [7]) == {};
    assert [7, WORD - 1][..1] == [7];
    assert Without(COUNT_BY_FIRST, {[7, WORD - 1]}, {[7]}) == {};
  }
}
