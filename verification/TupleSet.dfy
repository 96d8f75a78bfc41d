/** The tuple set of the fixpoint loops: rows in an array, a hash table over them, an
    in-place sort and a binary search for a prefix.
 */
module TupleSet {
  import opened OpenAddressing
  import opened Options
  import opened OrderStatistics
  import opened Tuples

  /* ---------- heap order ---------- */

  /** Row `t` does not come after row `u`. */
  predicate Leq(t: Tuple, u: Tuple) { !TupleBelow(u, t) }

  predicate AllOfArity(rows: seq<Tuple>, n: nat) {
    forall i :: 0 <= i < |rows| ==> |rows[i]| == n
  }

  lemma LeqTrans(t: Tuple, u: Tuple, v: Tuple)
    requires |t| == |u| == |v| && Leq(t, u) && Leq(u, v)
    ensures Leq(t, v)
  {
    TupleTotal(t, u, |t|);
    TupleTotal(u, v, |t|);
    if TupleBelow(v, t) && t != u { TupleTrans(v, t, u); }
  }

  lemma LeqTotal(t: Tuple, u: Tuple)
    requires |t| == |u|
    ensures Leq(t, u) || Leq(u, t)
    ensures Leq(t, t)
    ensures Leq(t, u) && Leq(u, t) ==> t == u
  {
    TupleTotal(t, u, |t|);
    if TupleBelow(t, u) && TupleBelow(u, t) { TupleTrans(t, u, t); }
  }

  function Parent(c: nat): nat
    requires c > 0
  {
    (c - 1) / 2
  }

  /** Child `c` and its parent are in order. */
  predicate InOrder(s: seq<Tuple>, c: nat)
    requires 0 < c < |s|
  {
    Leq(s[c], s[Parent(c)])
  }

  /** Rows `lo` to `end` form heaps, but for the children of `hole`. */
  ghost predicate HeapBut(s: seq<Tuple>, lo: nat, end: nat, hole: nat) {
    end <= |s| && forall c :: 0 < c < end && lo <= Parent(c) && Parent(c) != hole ==> InOrder(s, c)
  }

  ghost predicate Heap(s: seq<Tuple>, lo: nat, end: nat) {
    end <= |s| && forall c :: 0 < c < end && lo <= Parent(c) ==> InOrder(s, c)
  }

  /** The children of the hole are no larger than the hole's parent. */
  ghost predicate HoleFits(s: seq<Tuple>, lo: nat, end: nat, hole: nat) {
    end <= |s| && forall c :: 0 < c < end && Parent(c) == hole && hole > lo && lo <= Parent(hole) ==>
      Leq(s[c], s[Parent(hole)])
  }

  function Swapped(s: seq<Tuple>, i: nat, j: nat): (t: seq<Tuple>)
    requires i < |s| && j < |s|
    ensures |t| == |s| && t[i] == s[j] && t[j] == s[i] && forall k :: 0 <= k < |s| && k != i && k != j ==> t[k] == s[k]
  {
    s[i := s[j]][j := s[i]]
  }

  lemma SwapKeepsRows(s: seq<Tuple>, i: nat, j: nat, end: nat)
    requires i < end <= |s| && j < end
    ensures multiset(Swapped(s, i, j)[..end]) == multiset(s[..end])
    ensures Swapped(s, i, j)[end..] == s[end..]
    ensures multiset(Swapped(s, i, j)) == multiset(s)
  {
    assert Swapped(s, i, j)[..end] == s[..end][i := s[j]][j := s[i]];
  }

  /** Swapping the hole with its larger child moves the hole down. */
  lemma SiftStep(s: seq<Tuple>, lo: nat, end: nat, r: nat, child: nat, n: nat)
    requires AllOfArity(s, n) && lo <= r && HeapBut(s, lo, end, r) && HoleFits(s, lo, end, r)
    requires 0 < child < end && Parent(child) == r && Leq(s[r], s[child])
    requires forall c :: 0 < c < end && Parent(c) == r ==> Leq(s[c], s[child])
    ensures var t := Swapped(s, r, child); HeapBut(t, lo, end, child) && HoleFits(t, lo, end, child) && AllOfArity(t, n)
  {
    var t := Swapped(s, r, child);
    assert r < child;
    forall c | 0 < c < end && lo <= Parent(c) && Parent(c) != child ensures InOrder(t, c) {
      if Parent(c) == r {
        if c == child { assert t[c] == s[r]; } else { assert t[c] == s[c]; }
      } else if c == r {
        assert t[c] == s[child] && t[Parent(c)] == s[Parent(c)];
      } else {
        assert InOrder(s, c) && t[c] == s[c] && t[Parent(c)] == s[Parent(c)];
      }
    }
    forall c | 0 < c < end && Parent(c) == child ensures Leq(t[c], t[r]) {
      assert InOrder(s, c) && t[c] == s[c] && t[r] == s[child];
    }
  }

  /** No larger child: the hole is closed. */
  lemma SiftDone(s: seq<Tuple>, lo: nat, end: nat, r: nat)
    requires end <= |s| && HeapBut(s, lo, end, r) && forall c :: 0 < c < end && Parent(c) == r ==> Leq(s[c], s[r])
    ensures Heap(s, lo, end)
  {
  }

  method RowLess(t: Tuple, u: Tuple) returns (less: bool)
    requires |t| == |u|
    ensures less <==> TupleBelow(t, u)
  {
    var i := 0;
    while i < |t|
      invariant 0 <= i <= |t| && (TupleBelow(t, u) <==> TupleBelow(t[i..], u[i..]))
    {
      if t[i] < u[i] { return true; }
      if t[i] > u[i] { return false; }
      assert t[i..][1..] == t[i + 1..] && u[i..][1..] == u[i + 1..];
      i := i + 1;
    }
    return false;
  }

  method SiftDown(a: array<Tuple>, root: nat, end: nat, ghost n: nat)
    requires root < end <= a.Length && AllOfArity(a[..], n)
    requires HeapBut(a[..], root, end, root)
    modifies a
    ensures AllOfArity(a[..], n) && Heap(a[..], root, end)
    ensures multiset(a[..end]) == multiset(old(a[..end])) && a[end..] == old(a[end..]) && multiset(a[..]) == multiset(old(a[..]))
  {
    hide HeapBut, HoleFits, Heap, Leq, TupleBelow;
    StartsWithHole(a[..], root, end);
    var r := root;
    while true
      invariant root <= r < end && AllOfArity(a[..], n)
      invariant HeapBut(a[..], root, end, r) && HoleFits(a[..], root, end, r)
      invariant multiset(a[..end]) == multiset(old(a[..end])) && a[end..] == old(a[end..]) && multiset(a[..]) == multiset(old(a[..]))
      decreases end - r
    {
      ghost var s := a[..];
      var child := 2 * r + 1;
      if child >= end {
        SiftDone(s, root, end, r);
        return;
      }
      if child + 1 < end {
        var smaller := RowLess(a[child], a[child + 1]);
        if smaller { child := child + 1; }
      }
      LargerChild(s, end, r, child, n);
      var swap := RowLess(a[r], a[child]);
      if !swap {
        NotBelowIsLeq(s[r], s[child]);
        ClosedAt(s, end, r, child, n);
        SiftDone(s, root, end, r);
        return;
      }
      BelowIsLeq(s[r], s[child]);
      SiftStep(s, root, end, r, child, n);
      SwapKeepsRows(s, r, child, end);
      a[r], a[child] := a[child], a[r];
      assert a[..] == Swapped(s, r, child);
      assert a[..end] == a[..][..end] && a[end..] == a[..][end..];
      r := child;
    }
  }

  lemma StartsWithHole(s: seq<Tuple>, root: nat, end: nat)
    requires end <= |s|
    ensures HoleFits(s, root, end, root)
  {
  }

  lemma NotBelowIsLeq(t: Tuple, u: Tuple)
    requires !TupleBelow(t, u)
    ensures Leq(u, t)
  {
  }

  lemma BelowIsLeq(t: Tuple, u: Tuple)
    requires TupleBelow(t, u) && |t| == |u|
    ensures Leq(t, u)
  {
    LeqTotal(t, u);
  }

  lemma LargerChild(s: seq<Tuple>, end: nat, r: nat, child: nat, n: nat)
    requires AllOfArity(s, n) && end <= |s| && child < end
    requires child == 2 * r + 1 || child == 2 * r + 2
    requires child == 2 * r + 1 && child + 1 < end ==> !TupleBelow(s[child], s[child + 1])
    requires child == 2 * r + 2 ==> TupleBelow(s[child - 1], s[child])
    ensures child > 0 && Parent(child) == r && forall c :: 0 < c < end && Parent(c) == r ==> Leq(s[c], s[child])
  {
    forall c | 0 < c < end && Parent(c) == r ensures Leq(s[c], s[child]) {
      assert c == 2 * r + 1 || c == 2 * r + 2;
      LeqTotal(s[c], s[child]);
      if c != child && child == 2 * r + 2 { BelowIsLeq(s[c], s[child]); }
    }
  }

  lemma ClosedAt(s: seq<Tuple>, end: nat, r: nat, child: nat, n: nat)
    requires AllOfArity(s, n) && end <= |s| && r < end && child < end && Leq(s[child], s[r])
    requires forall c :: 0 < c < end && Parent(c) == r ==> Leq(s[c], s[child])
    ensures forall c :: 0 < c < end && Parent(c) == r ==> Leq(s[c], s[r])
  {
    forall c | 0 < c < end && Parent(c) == r ensures Leq(s[c], s[r]) { LeqTrans(s[c], s[child], s[r]); }
  }

  /** The first row of a heap is its largest. */
  lemma {:induction false} HeapTop(s: seq<Tuple>, end: nat, i: nat, n: nat)
    requires AllOfArity(s, n) && Heap(s, 0, end) && i < end
    ensures Leq(s[i], s[0])
  {
    if i == 0 {
      LeqTotal(s[0], s[0]);
    } else {
      assert InOrder(s, i);
      HeapTop(s, end, Parent(i), n);
      LeqTrans(s[i], s[Parent(i)], s[0]);
    }
  }

  ghost predicate Ordered(s: seq<Tuple>) {
    forall i, j :: 0 <= i < j < |s| ==> Leq(s[i], s[j])
  }

  /** Rows before `end` do not come after the rows from `end` on. */
  ghost predicate Separated(s: seq<Tuple>, end: nat) {
    end <= |s| && forall i, j :: 0 <= i < end <= j < |s| ==> Leq(s[i], s[j])
  }

  /** Heapsort, in place. */
  method SortRows(a: array<Tuple>, ghost n: nat)
    requires AllOfArity(a[..], n)
    modifies a
    ensures Ordered(a[..]) && multiset(a[..]) == multiset(old(a[..])) && AllOfArity(a[..], n)
  {
    if a.Length < 2 { return; }
    var i := a.Length / 2;
    while i > 0
      invariant 0 <= i <= a.Length / 2 && AllOfArity(a[..], n) && Heap(a[..], i, a.Length)
      invariant multiset(a[..]) == multiset(old(a[..]))
    {
      SiftDown(a, i - 1, a.Length, n);
      i := i - 1;
    }
    var end := a.Length;
    while end > 1
      invariant 0 < end <= a.Length && AllOfArity(a[..], n) && Heap(a[..], 0, end)
      invariant Ordered(a[end..]) && Separated(a[..], end)
      invariant multiset(a[..]) == multiset(old(a[..]))
    {
      end := end - 1;
      ghost var s := a[..];
      SwapKeepsRows(s, 0, end, end + 1);
      TopMovesBack(s, end, n);
      a[0], a[end] := a[end], a[0];
      ghost var t := a[..];
      assert t == Swapped(s, 0, end);
      SiftDown(a, 0, end, n);
      StaysSeparated(t, a[..], end);
    }
    LastRow(a[..], end);
  }

  lemma TopMovesBack(s: seq<Tuple>, end: nat, n: nat)
    requires AllOfArity(s, n) && end < |s| && Heap(s, 0, end + 1) && Separated(s, end + 1) && Ordered(s[end + 1..])
    ensures var t := Swapped(s, 0, end); HeapBut(t, 0, end, 0) && Separated(t, end) && Ordered(t[end..]) && AllOfArity(t, n)
  {
    var t := Swapped(s, 0, end);
    forall i | 0 <= i < end + 1 ensures Leq(s[i], s[0]) { HeapTop(s, end + 1, i, n); }
    forall i, j | 0 <= i < end <= j < |t| ensures Leq(t[i], t[j]) {
      if j == end { assert t[j] == s[0]; } else { assert t[j] == s[j]; }
    }
    forall i, j | 0 <= i < j < |t[end..]| ensures Leq(t[end..][i], t[end..][j]) {
      assert t[end + j] == s[end + j] == s[end + 1..][j - 1];
      if i > 0 { assert t[end + i] == s[end + i] == s[end + 1..][i - 1]; }
    }
    forall c | 0 < c < end && Parent(c) != 0 ensures InOrder(t, c) { assert InOrder(s, c); }
  }

  /** Reordering the rows before `end` keeps them before the others. */
  lemma StaysSeparated(t: seq<Tuple>, u: seq<Tuple>, end: nat)
    requires Separated(t, end) && |u| == |t| && u[end..] == t[end..] && multiset(u[..end]) == multiset(t[..end])
    ensures Separated(u, end)
  {
    forall i, j | 0 <= i < end <= j < |u| ensures Leq(u[i], u[j]) {
      assert u[i] in multiset(u[..end]);
      var k :| 0 <= k < end && t[..end][k] == u[i];
      assert u[j] == u[end..][j - end] == t[end..][j - end] == t[j];
    }
  }

  lemma LastRow(s: seq<Tuple>, end: nat)
    requires end <= 1 && end <= |s| && Separated(s, end) && Ordered(s[end..])
    ensures Ordered(s)
  {
    forall i, j | 0 <= i < j < |s| ensures Leq(s[i], s[j]) {
      if i >= end { assert s[i] == s[end..][i - end] && s[j] == s[end..][j - end]; }
    }
  }

  /* ---------- duplicates and prefixes ---------- */

  ghost predicate Ascends(s: seq<Tuple>) {
    forall i, j :: 0 <= i < j < |s| ==> TupleBelow(s[i], s[j])
  }

  /** Keep the first of equal neighbours, in place. */
  method Dedup(a: array<Tuple>, ghost n: nat) returns (w: nat)
    requires 0 < a.Length && AllOfArity(a[..], n) && Ordered(a[..])
    modifies a
    ensures 0 < w <= a.Length && AllOfArity(a[..w], n) && Ascends(a[..w])
    ensures forall t :: t in a[..w] <==> t in old(a[..])
  {
    ghost var s := a[..];
    w := 1;
    var i := 1;
    while i < a.Length
      invariant 1 <= w <= i <= a.Length && a[w - 1] == s[i - 1]
      invariant forall k :: i <= k < a.Length ==> a[k] == s[k]
      invariant AllOfArity(a[..w], n) && Ascends(a[..w])
      invariant forall t :: t in a[..w] <==> t in s[..i]
    {
      assert s[..i + 1] == s[..i] + [s[i]];
      if a[w - 1] != a[i] {
        NextAscends(s, a[..w], i, n);
        ghost var kept := a[..w];
        a[w] := a[i];
        assert a[..w + 1] == kept + [s[i]];
        w := w + 1;
      } else {
        assert a[w - 1] in a[..w];
      }
      i := i + 1;
    }
    assert s[..a.Length] == s;
  }

  lemma NextAscends(s: seq<Tuple>, kept: seq<Tuple>, i: nat, n: nat)
    requires AllOfArity(s, n) && Ordered(s) && 0 < i < |s| && kept != [] && AllOfArity(kept, n)
    requires Ascends(kept) && kept[|kept| - 1] == s[i - 1] != s[i]
    ensures Ascends(kept + [s[i]])
  {
    LeqTotal(s[i - 1], s[i]);
    TupleTotal(s[i - 1], s[i], n);
    forall j | 0 <= j < |kept| ensures TupleBelow(kept[j], s[i]) {
      if j < |kept| - 1 { TupleTrans(kept[j], s[i - 1], s[i]); }
    }
  }

  /** The rows that start with the first `k` columns of `p`: where they begin and how
      many they are. */
  method PrefixRange(s: seq<Tuple>, arity: nat, p: Tuple, k: nat) returns (first: nat, found: nat)
    requires AllOfArity(s, arity) && Ordered(s) && k <= |p|
    ensures first + found <= |s| && (found == 0 ==> first == 0)
    ensures k <= arity ==> forall i :: 0 <= i < |s| ==> (s[i][..k] == p[..k] <==> first <= i < first + found)
    ensures k > arity ==> found == 0
  {
    first, found := 0, 0;
    if |s| == 0 || k > arity { return; }
    var lo, hi := 0, |s|;
    while lo < hi
      invariant 0 <= lo <= hi <= |s|
      invariant forall i :: 0 <= i < lo ==> TupleBelow(s[i][..k], p[..k])
      invariant forall i :: hi <= i < |s| ==> !TupleBelow(s[i][..k], p[..k])
    {
      var mid := lo + (hi - lo) / 2;
      var cmp := CompareKeys(s[mid], p, k);
      if cmp < 0 {
        BelowBefore(s, mid, p, k, arity);
        lo := mid + 1;
      } else {
        NotBelowAfter(s, mid, p, k, arity);
        hi := mid;
      }
    }
    OutsideBelow(s, lo, p, k);
    if lo >= |s| || s[lo][..k] != p[..k] {
      if lo < |s| { MatchIsFirst(s, lo, p, k, arity); }
      return;
    }
    // the source also walks back from here, but `lo` is already the first match
    first := lo;
    var last := lo;
    while last < |s| && s[last][..k] == p[..k]
      invariant lo <= last <= |s| && forall i :: lo <= i < last ==> s[i][..k] == p[..k]
    {
      last := last + 1;
    }
    if last < |s| { AfterRun(s, lo, last, p, k, arity); }
    found := last - first;
  }

  lemma KeysOrdered(s: seq<Tuple>, i: nat, j: nat, k: nat, n: nat)
    requires AllOfArity(s, n) && Ordered(s) && i <= j < |s| && k <= n
    ensures !TupleBelow(s[j][..k], s[i][..k])
  {
    if TupleBelow(s[j][..k], s[i][..k]) {
      if i == j { TupleTotal(s[i][..k], s[i][..k], k); } else { PrefixBelow(s[j], s[i], k); }
    }
  }

  lemma BelowBefore(s: seq<Tuple>, mid: nat, p: Tuple, k: nat, n: nat)
    requires AllOfArity(s, n) && Ordered(s) && mid < |s| && k <= n && k <= |p| && TupleBelow(s[mid][..k], p[..k])
    ensures forall i :: 0 <= i <= mid ==> TupleBelow(s[i][..k], p[..k])
  {
    forall i | 0 <= i <= mid ensures TupleBelow(s[i][..k], p[..k]) {
      KeysOrdered(s, i, mid, k, n);
      TupleTotal(s[i][..k], s[mid][..k], k);
      if s[i][..k] != s[mid][..k] { TupleTrans(s[i][..k], s[mid][..k], p[..k]); }
    }
  }

  lemma NotBelowAfter(s: seq<Tuple>, mid: nat, p: Tuple, k: nat, n: nat)
    requires AllOfArity(s, n) && Ordered(s) && mid < |s| && k <= n && k <= |p| && !TupleBelow(s[mid][..k], p[..k])
    ensures forall i :: mid <= i < |s| ==> !TupleBelow(s[i][..k], p[..k])
  {
    forall i | mid <= i < |s| ensures !TupleBelow(s[i][..k], p[..k]) {
      KeysOrdered(s, mid, i, k, n);
      LeqTrans(p[..k], s[mid][..k], s[i][..k]);
    }
  }

  lemma OutsideBelow(s: seq<Tuple>, lo: nat, p: Tuple, k: nat)
    requires lo <= |s| && k <= |p| && forall i :: 0 <= i < lo ==> |s[i]| >= k && TupleBelow(s[i][..k], p[..k])
    ensures forall i :: 0 <= i < lo ==> s[i][..k] != p[..k]
  {
    TupleTotal(p[..k], p[..k], k);
  }

  /** The first row not below the key does not match it: no later row does. */
  lemma MatchIsFirst(s: seq<Tuple>, lo: nat, p: Tuple, k: nat, n: nat)
    requires AllOfArity(s, n) && Ordered(s) && lo < |s| && k <= n && k <= |p|
    requires s[lo][..k] != p[..k] && !TupleBelow(s[lo][..k], p[..k])
    ensures forall i :: lo <= i < |s| ==> s[i][..k] != p[..k]
  {
    TupleTotal(s[lo][..k], p[..k], k);
    forall i | lo <= i < |s| ensures s[i][..k] != p[..k] {
      KeysOrdered(s, lo, i, k, n);
      TupleTotal(p[..k], s[lo][..k], k);
    }
  }

  lemma AfterRun(s: seq<Tuple>, lo: nat, last: nat, p: Tuple, k: nat, n: nat)
    requires AllOfArity(s, n) && Ordered(s) && lo < last < |s| && k <= n && k <= |p|
    requires s[lo][..k] == p[..k] && s[last][..k] != p[..k]
    ensures forall i :: last <= i < |s| ==> s[i][..k] != p[..k]
  {
    KeysOrdered(s, lo, last, k, n);
    MatchIsFirst(s, last, p, k, n);
  }

  /* ---------- the set ---------- */

  const TABLE_LIMIT: nat := 0x4000_0000
  const MAX_ROWS: nat := TABLE_LIMIT - TABLE_LIMIT / 4

  function Pow2(e: nat): (n: nat)
    ensures n > 0
  {
    if e == 0 then 1 else 2 * Pow2(e - 1)
  }

  lemma {:induction false} Pow2Mono(e: nat, f: nat)
    requires e <= f
    ensures Pow2(e) <= Pow2(f)
  {
    if e < f { Pow2Mono(e, f - 1); }
  }

  lemma LimitIsPow2()
    ensures Pow2(30) == TABLE_LIMIT && Pow2(4) == 16
  {
    assert Pow2(5) == 32 && Pow2(10) == 1024;
    assert Pow2(15) == 32768;
    assert Pow2(20) == 0x10_0000;
    assert Pow2(25) == 0x200_0000;
  }

  /** The least power of two from 16 on that is at least `need`. */
  method TableSize(need: nat) returns (size: nat)
    ensures size >= 16 && size >= need
    ensures size > TABLE_LIMIT <==> need > TABLE_LIMIT
    ensures size <= TABLE_LIMIT ==> IsTableLength(size)
  {
    var e := 4;
    size := 16;
    LimitIsPow2();
    while size < need
      invariant e >= 4 && size == Pow2(e) && size >= 16
      invariant size > TABLE_LIMIT ==> need > TABLE_LIMIT
      decreases need - size
    {
      if e < 30 { Pow2Mono(e + 1, 30); } else { Pow2Mono(30, e); }
      size, e := size * 2, e + 1;
    }
    if size <= TABLE_LIMIT && e > 30 { Pow2Mono(31, e); }
  }

  ghost predicate IsTableLength(n: nat) {
    exists e: nat :: 4 <= e <= 30 && n == Pow2(e)
  }

  /** The table is doubled below the limit only, and is a multiple of sixteen long. */
  lemma TableLengths(n: nat)
    requires IsTableLength(n)
    ensures 16 <= n <= TABLE_LIMIT && n % 16 == 0 && (n < TABLE_LIMIT ==> 2 * n <= TABLE_LIMIT)
  {
    hide Pow2;
    var e: nat :| 4 <= e <= 30 && n == Pow2(e);
    LimitIsPow2();
    Pow2Mono(4, e);
    Pow2Mono(e, 30);
    if e < 30 { Pow2Mono(e + 1, 30); Pow2Next(e); }
    SixteenTimes(e - 4);
  }

  lemma Pow2Next(e: nat)
    ensures Pow2(e + 1) == 2 * Pow2(e)
  {
  }

  lemma {:induction false} SixteenTimes(e: nat)
    ensures Pow2(e + 4) == 16 * Pow2(e)
  {
    if e == 0 { LimitIsPow2(); } else { SixteenTimes(e - 1); }
  }

  class TupleSet {
    const arity: nat
    const hash: Tuple -> nat
    var rows: seq<Tuple>
    var slots: array<nat>

    /** Rows are distinct and the table finds every one; at most three quarters of it
        are in use. */
    ghost predicate Valid()
      reads this, slots
    {
      && AllOfArity(rows, arity) && DistinctFrom(rows, 0)
      && (slots.Length == 0 ==> rows == [])
      && (slots.Length > 0 ==>
            IsTableLength(slots.Length) && Indexed(slots[..], rows, hash, 0) && |rows| <= slots.Length - slots.Length / 4)
    }

    constructor (arity: nat, hash: Tuple -> nat)
      ensures Valid() && fresh(slots) && rows == [] && this.arity == arity && this.hash == hash
    {
      this.arity, this.hash, rows := arity, hash, [];
      slots := new nat[0];
    }

    method Contains(t: Tuple) returns (found: bool)
      requires Valid()
      ensures found <==> t in rows
    {
      if |rows| == 0 { return false; }
      TableLengths(slots.Length);
      var idx, k := Probe(slots, rows, hash, 0, t);
      return slots[idx] != 0;
    }

    /** Room for one more row: after growing at most seven tenths of the table are in
        use. */
    method MakeRoom() returns (ok: bool)
      requires Valid()
      modifies this`slots
      ensures Valid() && (slots == old(slots) || fresh(slots))
      ensures ok <==> |rows| < MAX_ROWS
      ensures ok ==> slots.Length > 0 && |rows| + 1 <= slots.Length - slots.Length / 4
    {
      hide Indexed;
      if slots.Length > 0 { TableLengths(slots.Length); }
      var count := |rows| + 1;
      ok := true;
      if slots.Length == 0 || count > slots.Length - slots.Length / 4 {
        var size := TableSize(count * 10 / 7);
        if size > TABLE_LIMIT { return false; }
        TableLengths(size);
        slots := Rehash(rows, hash, 0, size);
      }
    }

    /** Append a row that is not there yet. */
    method AppendRow(t: Tuple)
      requires Valid() && |t| == arity && t !in rows
      requires slots.Length > 0 && |rows| + 1 <= slots.Length - slots.Length / 4
      modifies this`rows, slots
      ensures Valid() && rows == old(rows) + [t]
    {
      hide Indexed;
      var idx, k := Probe(slots, rows, hash, 0, t);
      ghost var table: seq<nat> := slots[..];
      InsertItem(table, rows, hash, 0, t, idx, k);
      var count: nat := |rows| + 1;
      slots[idx] := count;
      assert slots[..] == table[idx := count];
      rows := rows + [t];
    }

    /** Add a row: it is there afterwards, once; a duplicate changes nothing.  A new row
        is refused exactly when the longest table is as full as it may be. */
    method Add(t: Tuple) returns (added: bool, ok: bool)
      requires Valid() && |t| == arity
      modifies this`rows, this`slots, slots
      ensures Valid() && (slots == old(slots) || fresh(slots))
      ensures added <==> ok && t !in old(rows)
      ensures rows == if added then old(rows) + [t] else old(rows)
      ensures ok <==> t in old(rows) || |old(rows)| < MAX_ROWS
    {
      hide Indexed;
      added, ok := false, true;
      var known := Contains(t);
      if !known {
        ok := MakeRoom();
        if ok {
          AppendRow(t);
          added := true;
        }
      }
    }

    /** Sort the rows and index them again: the same rows, in ascending order. */
    method Sort()
      requires Valid()
      modifies this`rows, this`slots
      ensures Valid() && (slots == old(slots) || fresh(slots)) && Ascends(rows)
      ensures forall t :: t in rows <==> t in old(rows)
    {
      if |rows| <= 1 { return; }
      var a := new Tuple[|rows|](i requires 0 <= i < |rows| reads this => rows[i]);
      assert a[..] == rows;
      SortRows(a, arity);
      ghost var sorted := a[..];
      assert forall t :: t in sorted <==> t in multiset(sorted);
      assert forall t :: t in rows <==> t in multiset(rows);
      var w := Dedup(a, arity);
      rows := a[..w];
      AscendsDistinct(rows, arity);
      slots := Rehash(rows, hash, 0, slots.Length);
    }

    /** The rows that start with the first `k` columns of `p`; the rows must be sorted. */
    method Prefix(p: Tuple, k: nat) returns (first: nat, found: nat)
      requires Valid() && Ordered(rows) && k <= |p|
      ensures first + found <= |rows| && (found == 0 ==> first == 0) && (k > arity ==> found == 0)
      ensures k <= arity ==> forall i :: 0 <= i < |rows| ==> (rows[i][..k] == p[..k] <==> first <= i < first + found)
    {
      first, found := PrefixRange(rows, arity, p, k);
    }

    /** Forget the rows, keep the table. */
    method Reset()
      requires Valid()
      modifies this`rows, slots
      ensures Valid() && rows == []
    {
      rows := [];
      forall i | 0 <= i < slots.Length { slots[i] := 0; }
      AllZero(slots[..]);
    }
  }

  lemma AscendsDistinct(s: seq<Tuple>, n: nat)
    requires AllOfArity(s, n) && Ascends(s)
    ensures DistinctFrom(s, 0) && Ordered(s)
  {
    forall i, j | 0 <= i < j < |s| ensures s[i] != s[j] && Leq(s[i], s[j]) {
      TupleTotal(s[i], s[j], n);
      BelowIsLeq(s[i], s[j]);
    }
  }
}
