/** Open-addressing hash tables: a slot holds zero when it is free, and a probe runs on
    to the next slot, around the end.
 */
module OpenAddressing {

  /** Slots between `idx` and `z`, around the end. */
  ghost function Ahead(idx: nat, z: nat, len: nat): nat
    requires idx < len && z < len
  {
    if idx <= z then z - idx else z + len - idx
  }

  lemma Wrap(idx: nat, len: nat)
    requires idx < len
    ensures (idx + 1) % len == if idx + 1 == len then 0 else idx + 1
  {
  }

  ghost function NonZero(s: seq<nat>): (n: nat)
    ensures n <= |s|
  {
    if s == [] then 0 else NonZero(s[1..]) + if s[0] != 0 then 1 else 0
  }

  lemma {:induction false} AllZero(s: seq<nat>)
    requires forall i :: 0 <= i < |s| ==> s[i] == 0
    ensures NonZero(s) == 0
  {
    if s != [] { AllZero(s[1..]); }
  }

  lemma {:induction false} NonZeroUpdate(s: seq<nat>, i: nat, v: nat)
    requires i < |s|
    ensures NonZero(s[i := v]) == NonZero(s) - (if s[i] != 0 then 1 else 0) + (if v != 0 then 1 else 0)
  {
    if i == 0 {
      assert s[0 := v][1..] == s[1..];
    } else {
      NonZeroUpdate(s[1..], i - 1, v);
      assert s[i := v][1..] == s[1..][i - 1 := v];
    }
  }

  lemma {:induction false} SomeZero(s: seq<nat>) returns (i: nat)
    requires NonZero(s) < |s|
    ensures i < |s| && s[i] == 0
  {
    if s[0] == 0 {
      i := 0;
    } else {
      i := SomeZero(s[1..]);
      i := i + 1;
    }
  }

  /** The slot a probe looks at after `k` steps. */
  function Step(start: nat, k: nat, len: nat): (idx: nat)
    requires start < len
    ensures idx < len
  {
    if k == 0 then start
    else
      var last := Step(start, k - 1, len);
      if last + 1 == len then 0 else last + 1
  }

  /** A probe that starts at `start` meets the value `v` before any free slot. */
  ghost predicate Reaches(slots: seq<nat>, start: nat, v: nat) {
    start < |slots| && exists k: nat :: ReachesIn(slots, start, v, k)
  }

  ghost predicate ReachesIn(slots: seq<nat>, start: nat, v: nat, k: nat)
    requires start < |slots|
  {
    slots[Step(start, k, |slots|)] == v && forall j: nat :: j < k ==> slots[Step(start, j, |slots|)] != 0
  }

  /** Filling a free slot hides nothing. */
  lemma ReachesKept(slots: seq<nat>, start: nat, v: nat, i: nat, w: nat)
    requires i < |slots| && slots[i] == 0 && v != 0 && w != 0 && Reaches(slots, start, v)
    ensures Reaches(slots[i := w], start, v)
  {
    hide Step;
    var k: nat :| ReachesIn(slots, start, v, k);
    assert ReachesIn(slots[i := w], start, v, k);
  }

  /* ---------- tables of numbered items ---------- */

  function Bucket<T(!new)>(hash: T -> nat, x: T, size: nat): (b: nat)
    requires size > 0
    ensures b < size
  {
    hash(x) % size
  }

  /** The table holds the number, index plus one, of every item from `first` on, where
      a probe from the item's bucket meets it, and nothing else. */
  ghost predicate Indexed<T(!new)>(slots: seq<nat>, items: seq<T>, hash: T -> nat, first: nat) {
    && |slots| > 0 && first <= |items| && NonZero(slots) == |items| - first
    && (forall k :: 0 <= k < |slots| && slots[k] != 0 ==> first < slots[k] <= |items|)
    && (forall i :: first <= i < |items| ==> Reaches(slots, Bucket(hash, items[i], |slots|), i + 1))
  }

  /** A probe that ran into a free slot without meeting the item: the item is new. */
  lemma ProbeMissed<T(!new)>(slots: seq<nat>, items: seq<T>, hash: T -> nat, first: nat, x: T, k: nat)
    requires Indexed(slots, items, hash, first)
    requires slots[Step(Bucket(hash, x, |slots|), k, |slots|)] == 0
    requires forall j: nat :: j < k ==>
               var v := slots[Step(Bucket(hash, x, |slots|), j, |slots|)]; 0 < v <= |items| && items[v - 1] != x
    ensures forall i :: first <= i < |items| ==> items[i] != x
  {
    forall i | first <= i < |items| ensures items[i] != x {
      var m: nat :| ReachesIn(slots, Bucket(hash, items[i], |slots|), i + 1, m);
    }
  }

  /** The slot of the item, or the free slot where its probe ended. */
  method Probe<T(==, !new)>(slots: array<nat>, items: seq<T>, hash: T -> nat, ghost first: nat, x: T)
      returns (idx: nat, ghost k: nat)
    requires Indexed(slots[..], items, hash, first) && |items| < slots.Length + first
    ensures idx < slots.Length && idx == Step(Bucket(hash, x, slots.Length), k, slots.Length)
    ensures slots[idx] != 0 ==> first < slots[idx] <= |items| && items[slots[idx] - 1] == x
    ensures slots[idx] == 0 ==> forall i :: first <= i < |items| ==> items[i] != x
    ensures forall j: nat :: j < k ==> slots[Step(Bucket(hash, x, slots.Length), j, slots.Length)] != 0
  {
    ghost var table := slots[..];
    ghost var z := SomeZero(table);
    ghost var start := Bucket(hash, x, slots.Length);
    idx, k := Bucket(hash, x, slots.Length), 0;
    hide Reaches, NonZero, Bucket;
    while slots[idx] != 0 && items[slots[idx] - 1] != x
      invariant idx < slots.Length && idx == Step(start, k, slots.Length)
      invariant forall j: nat :: j < k ==>
                  var v := table[Step(start, j, slots.Length)]; 0 < v <= |items| && items[v - 1] != x
      decreases Ahead(idx, z, slots.Length)
    {
      assert table[idx] == slots[idx];
      idx, k := if idx + 1 == slots.Length then 0 else idx + 1, k + 1;
    }
    assert table[idx] == slots[idx];
    if slots[idx] == 0 { ProbeMissed(table, items, hash, first, x, k); }
  }

  /** Writing the number of a new item where its probe ended keeps the index. */
  lemma InsertItem<T(!new)>(slots: seq<nat>, items: seq<T>, hash: T -> nat, first: nat, x: T, idx: nat, k: nat)
    requires Indexed(slots, items, hash, first)
    requires idx < |slots| && slots[idx] == 0 && idx == Step(Bucket(hash, x, |slots|), k, |slots|)
    requires forall j: nat :: j < k ==> slots[Step(Bucket(hash, x, |slots|), j, |slots|)] != 0
    ensures Indexed(slots[idx := |items| + 1], items + [x], hash, first)
  {
    var number: nat := |items| + 1;
    var more, all := slots[idx := number], items + [x];
    NonZeroUpdate(slots, idx, number);
    NewReached(slots, Bucket(hash, x, |slots|), idx, k, number);
    hide NonZero, Step, Reaches, Bucket;
    forall i | first <= i < |all| ensures Reaches(more, Bucket(hash, all[i], |more|), i + 1) {
      if i < |items| { ReachesKept(slots, Bucket(hash, items[i], |slots|), i + 1, idx, number); }
    }
  }

  lemma NewReached(slots: seq<nat>, start: nat, idx: nat, k: nat, number: nat)
    requires start < |slots| && idx == Step(start, k, |slots|) && slots[idx] == 0 && number != 0
    requires forall j: nat :: j < k ==> slots[Step(start, j, |slots|)] != 0
    ensures Reaches(slots[idx := number], start, number)
  {
    hide Step;
    assert ReachesIn(slots[idx := number], start, number, k);
  }

  predicate DistinctFrom<T(==)>(items: seq<T>, first: nat) {
    forall i, j :: first <= i < j < |items| ==> items[i] != items[j]
  }

  /** A table of the given size for the items. */
  method Rehash<T(==, !new)>(items: seq<T>, hash: T -> nat, first: nat, size: nat) returns (slots: array<nat>)
    requires first <= |items| <= size + first && size > 0 && DistinctFrom(items, first)
    ensures fresh(slots) && slots.Length == size && Indexed(slots[..], items, hash, first)
  {
    slots := new nat[size](_ => 0);
    AllZero(slots[..]);
    var i: nat := first;
    while i < |items|
      invariant first <= i <= |items| && Indexed(slots[..], items[..i], hash, first)
    {
      hide Indexed;
      var idx, k := Probe(slots, items[..i], hash, first, items[i]);
      ghost var table: seq<nat> := slots[..];
      assert slots[idx] == 0;
      InsertItem(table, items[..i], hash, first, items[i], idx, k);
      var number: nat := i + 1;
      slots[idx] := number;
      assert slots[..] == table[idx := number] && items[..i + 1] == items[..i] + [items[i]];
      i := i + 1;
    }
    assert items[..|items|] == items;
  }
}
