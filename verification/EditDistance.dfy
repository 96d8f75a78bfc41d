/** Byte strings and their edit distance: the recurrence over last bytes, and what
    it means, the least number of single-byte edits.
 */
module EditDistance {
  import opened ByteStrings

  function Min(x: nat, y: nat): nat {
    if x < y then x else y
  }

  function Cost(x: Byte, y: Byte): nat {
    if x == y then 0 else 1
  }

  function Front(s: Bytes): Bytes
    requires s != []
  {
    s[..|s| - 1]
  }

  function Last(s: Bytes): Byte
    requires s != []
  {
    s[|s| - 1]
  }

  function Dist(a: Bytes, b: Bytes): nat
    decreases |a| + |b|
  {
    if a == [] then |b|
    else if b == [] then |a|
    else Min(Min(Dist(Front(a), b) + 1, Dist(a, Front(b)) + 1), Dist(Front(a), Front(b)) + Cost(Last(a), Last(b)))
  }

  /* ---------- a metric ---------- */

  lemma {:induction false} DistSymmetric(a: Bytes, b: Bytes)
    ensures Dist(a, b) == Dist(b, a)
    decreases |a| + |b|
  {
    if a != [] && b != [] {
      DistSymmetric(Front(a), b);
      DistSymmetric(a, Front(b));
      DistSymmetric(Front(a), Front(b));
    }
  }

  lemma {:induction false} DistItself(a: Bytes)
    ensures Dist(a, a) == 0
  {
    if a != [] { DistItself(Front(a)); }
  }

  lemma {:induction false} DistLengths(a: Bytes, b: Bytes)
    ensures Dist(a, b) <= |a| + |b| && |a| <= |b| + Dist(a, b) && |b| <= |a| + Dist(a, b)
    decreases |a| + |b|
  {
    if a != [] && b != [] {
      DistLengths(Front(a), b);
      DistLengths(a, Front(b));
      DistLengths(Front(a), Front(b));
    }
  }

  lemma {:induction false} Triangle(a: Bytes, b: Bytes, c: Bytes)
    ensures Dist(a, c) <= Dist(a, b) + Dist(b, c)
    decreases |a| + |b| + |c|
  {
    DistLengths(a, c);
    DistLengths(b, c);
    DistLengths(a, b);
    if a != [] && b != [] && c != [] {
      Triangle(Front(a), b, c);
      Triangle(a, b, Front(c));
      Triangle(a, Front(b), c);
      Triangle(a, Front(b), Front(c));
      Triangle(Front(a), Front(b), c);
      Triangle(Front(a), Front(b), Front(c));
    }
  }

  /* ---------- edits ---------- */

  predicate Deletes(a: Bytes, b: Bytes, i: nat) {
    i < |a| && b == a[..i] + a[i + 1..]
  }

  /** `b` is `a` with one byte deleted, inserted or replaced. */
  ghost predicate OneEdit(a: Bytes, b: Bytes) {
    || (exists i: nat :: Deletes(a, b, i))
    || (exists i: nat :: Deletes(b, a, i))
    || (exists i, x: Byte {:trigger a[i := x]} :: 0 <= i < |a| && b == a[i := x])
  }

  /** A chain of edits from its first string to its last. */
  ghost predicate Chain(path: seq<Bytes>) {
    |path| > 0 && forall i :: 0 <= i < |path| - 1 ==> OneEdit(path[i], path[i + 1])
  }

  ghost predicate Edits(a: Bytes, b: Bytes, n: nat) {
    exists path :: Chain(path) && |path| == n + 1 && path[0] == a && path[n] == b
  }

  lemma {:induction false} DeletionCostsOne(p: Bytes, x: Byte, s: Bytes)
    ensures Dist(p + [x] + s, p + s) <= 1
    decreases |s|
  {
    if s == [] {
      assert p + [x] + s == p + [x] && p + s == p && Front(p + [x]) == p;
      DistItself(p);
      DistLengths(p + [x], p);
      if p != [] { assert Dist(p + [x], p) <= Dist(Front(p + [x]), p) + 1; }
    } else {
      DeletionCostsOne(p, x, Front(s));
      var a, b := p + [x] + s, p + s;
      assert Front(a) == p + [x] + Front(s) && Front(b) == p + Front(s) && Last(a) == Last(s) == Last(b);
    }
  }

  lemma {:induction false} ReplacementCostsOne(p: Bytes, x: Byte, y: Byte, s: Bytes)
    ensures Dist(p + [x] + s, p + [y] + s) <= 1
    decreases |s|
  {
    var a, b := p + [x] + s, p + [y] + s;
    if s == [] {
      assert Front(a) == p && Front(b) == p;
      DistItself(p);
    } else {
      ReplacementCostsOne(p, x, y, Front(s));
      assert Front(a) == p + [x] + Front(s) && Front(b) == p + [y] + Front(s) && Last(a) == Last(s) == Last(b);
    }
  }

  lemma OneEditCostsOne(a: Bytes, b: Bytes)
    requires OneEdit(a, b)
    ensures Dist(a, b) <= 1
  {
    hide Dist;
    if i: nat :| Deletes(a, b, i) {
      DeletesCostsOne(a, b, i);
    } else if i: nat :| Deletes(b, a, i) {
      DeletesCostsOne(b, a, i);
      DistSymmetric(a, b);
    } else {
      var i, x: Byte :| 0 <= i < |a| && b == a[i := x];
      ReplacesCostsOne(a, i, x);
    }
  }

  lemma DeletesCostsOne(a: Bytes, b: Bytes, i: nat)
    requires Deletes(a, b, i)
    ensures Dist(a, b) <= 1
  {
    hide Dist;
    assert b == a[..i] + a[i + 1..];
    assert a == a[..i] + [a[i]] + a[i + 1..];
    DeletionCostsOne(a[..i], a[i], a[i + 1..]);
  }

  lemma ReplacesCostsOne(a: Bytes, i: nat, x: Byte)
    requires i < |a|
    ensures Dist(a, a[i := x]) <= 1
  {
    hide Dist;
    assert a == a[..i] + [a[i]] + a[i + 1..] && a[i := x] == a[..i] + [x] + a[i + 1..];
    ReplacementCostsOne(a[..i], a[i], x, a[i + 1..]);
  }

  lemma {:induction false} ChainBoundsDist(path: seq<Bytes>)
    requires Chain(path)
    ensures Dist(path[0], path[|path| - 1]) <= |path| - 1
    decreases |path|
  {
    if |path| == 1 {
      DistItself(path[0]);
    } else {
      var rest := path[1..];
      assert forall i :: 0 <= i < |rest| - 1 ==> rest[i] == path[i + 1] && OneEdit(path[i + 1], path[i + 2]);
      ChainBoundsDist(rest);
      OneEditCostsOne(path[0], path[1]);
      Triangle(path[0], path[1], path[|path| - 1]);
    }
  }

  /** Edits inside a string, before a last byte that stays. */
  lemma OneEditBefore(a: Bytes, b: Bytes, x: Byte)
    requires OneEdit(a, b)
    ensures OneEdit(a + [x], b + [x])
  {
    if i: nat :| Deletes(a, b, i) {
      assert b + [x] == (a + [x])[..i] + (a + [x])[i + 1..];
      assert Deletes(a + [x], b + [x], i);
    } else if i: nat :| Deletes(b, a, i) {
      assert a + [x] == (b + [x])[..i] + (b + [x])[i + 1..];
      assert Deletes(b + [x], a + [x], i);
    } else {
      var i, y: Byte :| 0 <= i < |a| && b == a[i := y];
      assert b + [x] == (a + [x])[i := y];
    }
  }

  lemma EditsBefore(a: Bytes, b: Bytes, n: nat, x: Byte)
    requires Edits(a, b, n)
    ensures Edits(a + [x], b + [x], n)
  {
    var path :| Chain(path) && |path| == n + 1 && path[0] == a && path[n] == b;
    var lifted := seq(n + 1, i requires 0 <= i <= n => path[i] + [x]);
    forall i | 0 <= i < n ensures OneEdit(lifted[i], lifted[i + 1]) { OneEditBefore(path[i], path[i + 1], x); }
    assert Chain(lifted);
  }

  lemma EditsThenOne(a: Bytes, b: Bytes, n: nat, c: Bytes)
    requires Edits(a, b, n) && OneEdit(b, c)
    ensures Edits(a, c, n + 1)
  {
    var path :| Chain(path) && |path| == n + 1 && path[0] == a && path[n] == b;
    var longer := path + [c];
    forall i | 0 <= i < n + 1 ensures OneEdit(longer[i], longer[i + 1]) {
      if i < n { assert OneEdit(path[i], path[i + 1]); }
    }
    assert Chain(longer);
  }

  lemma OneThenEdits(a: Bytes, b: Bytes, c: Bytes, n: nat)
    requires OneEdit(a, b) && Edits(b, c, n)
    ensures Edits(a, c, n + 1)
  {
    var path :| Chain(path) && |path| == n + 1 && path[0] == b && path[n] == c;
    var longer := [a] + path;
    forall i | 0 <= i < n + 1 ensures OneEdit(longer[i], longer[i + 1]) {
      if i > 0 { assert OneEdit(path[i - 1], path[i]); }
    }
    assert Chain(longer);
  }

  lemma DropLast(a: Bytes)
    requires a != []
    ensures OneEdit(a, Front(a)) && OneEdit(Front(a), a)
  {
    assert Deletes(a, Front(a), |a| - 1);
  }

  /** The distance is reached by a chain of that many edits. */
  lemma {:induction false} DistReached(a: Bytes, b: Bytes)
    ensures Edits(a, b, Dist(a, b))
    decreases |a| + |b|
  {
    hide Edits, OneEdit;
    if a == [] && b == [] {
      NoEdits(a);
    } else if b != [] && Dist(a, b) == Dist(a, Front(b)) + 1 {
      DistReached(a, Front(b));
      DropLast(b);
      EditsThenOne(a, Front(b), Dist(a, Front(b)), b);
    } else if a != [] && Dist(a, b) == Dist(Front(a), b) + 1 {
      DistReached(Front(a), b);
      DropLast(a);
      OneThenEdits(a, Front(a), b, Dist(Front(a), b));
    } else {
      DistReached(Front(a), Front(b));
      LastReplaced(a, b, Dist(Front(a), Front(b)));
    }
  }

  lemma NoEdits(a: Bytes)
    ensures Edits(a, a, 0)
  {
    assert Chain([a]);
  }

  lemma LastReplaced(a: Bytes, b: Bytes, n: nat)
    requires a != [] && b != [] && Edits(Front(a), Front(b), n)
    ensures Edits(a, b, n + Cost(Last(a), Last(b)))
  {
    hide Edits;
    EditsBefore(Front(a), Front(b), n, Last(b));
    assert Front(b) + [Last(b)] == b && Front(a) + [Last(a)] == a;
    if Last(a) != Last(b) {
      assert a[|a| - 1 := Last(b)] == Front(a) + [Last(b)];
      OneThenEdits(a, Front(a) + [Last(b)], b, n);
    }
  }

  /** The recurrence computes the least number of edits. */
  lemma DistIsLeastEdits(a: Bytes, b: Bytes, n: nat)
    ensures Edits(a, b, Dist(a, b))
    ensures Edits(a, b, n) ==> Dist(a, b) <= n
  {
    DistReached(a, b);
    if Edits(a, b, n) {
      var path :| Chain(path) && |path| == n + 1 && path[0] == a && path[n] == b;
      ChainBoundsDist(path);
    }
  }

  /* ---------- the capped distance, row by row in place ---------- */

  /** `row[j]` holds the distance of `a[..j]` to the bytes of `b` read so far. */
  ghost predicate RowOf(a: Bytes, t: Bytes, row: seq<nat>) {
    |row| == |a| + 1 && forall j :: 0 <= j <= |a| ==> row[j] == Dist(a[..j], t)
  }

  /** One entry of the next row, from the entry above, the one to the left and the
      diagonal one. */
  lemma Recurrence(a: Bytes, t: Bytes, ch: Byte, j: nat)
    requires j <= |a|
    ensures a[..0] == [] && Dist(a[..0], t) == |t| && Dist(a[..0], t + [ch]) == |t| + 1
    ensures j > 0 ==>
              Dist(a[..j], t + [ch]) ==
              Min(Min(Dist(a[..j], t) + 1, Dist(a[..j - 1], t + [ch]) + 1), Dist(a[..j - 1], t) + Cost(a[j - 1], ch))
  {
    hide Dist;
    var u := t + [ch];
    assert Front(u) == t && Last(u) == ch && a[..0] == [];
    DistLengths([], t);
    DistLengths([], u);
    if j > 0 {
      assert Front(a[..j]) == a[..j - 1] && Last(a[..j]) == a[j - 1];
      DistStep(a[..j], u);
    }
  }

  lemma {:induction false} DistStep(a: Bytes, b: Bytes)
    requires a != [] && b != []
    ensures Dist(a, b) == Min(Min(Dist(Front(a), b) + 1, Dist(a, Front(b)) + 1), Dist(Front(a), Front(b)) + Cost(Last(a), Last(b)))
  {
  }

  /** A row above the cap stays above it. */
  lemma {:induction false} RowStaysAbove(a: Bytes, t: Bytes, u: Bytes, cap: nat, j: nat)
    requires j <= |a| && forall i :: 0 <= i <= |a| ==> Dist(a[..i], t) > cap
    ensures Dist(a[..j], t + u) > cap
    decreases |u|, j
  {
    if u == [] {
      assert t + u == t;
    } else {
      var v := t + u;
      assert v != [] && Front(v) == t + Front(u);
      RowStaysAbove(a, t, Front(u), cap, j);
      if j > 0 {
        assert Front(a[..j]) == a[..j - 1];
        RowStaysAbove(a, t, u, cap, j - 1);
        RowStaysAbove(a, t, Front(u), cap, j - 1);
      } else {
        assert a[..0] == [];
        assert Dist(a[..0], t) == |t|;
      }
    }
  }

  method DistanceCap(a: Bytes, b: Bytes, cap: nat) returns (d: nat)
    ensures d == if Dist(a, b) <= cap then Dist(a, b) else cap + 1
    decreases |a| > |b|
  {
    hide Dist;
    DistLengths(a, b);
    if |a| > |b| {
      DistSymmetric(a, b);
      d := DistanceCap(b, a, cap);
      return;
    }
    if |b| - |a| > cap { return cap + 1; }
    var row := new nat[|a| + 1](j => j);
    assert b[..0] == [] && RowOf(a, b[..0], row[..]) by {
      forall j | 0 <= j <= |a| ensures row[..][j] == Dist(a[..j], b[..0]) { DistLengths(a[..j], b[..0]); }
    }
    for i := 1 to |b| + 1
      invariant RowOf(a, b[..i - 1], row[..])
    {
      var low := NextRow(a, b[..i - 1], b[i - 1], row);
      assert b[..i] == b[..i - 1] + [b[i - 1]];
      if low > cap {
        forall j | 0 <= j <= |a| ensures Dist(a[..j], b[..i]) > cap { assert row[..][j] >= low; }
        RowStaysAbove(a, b[..i], b[i..], cap, |a|);
        assert b[..i] + b[i..] == b && a[..|a|] == a;
        return cap + 1;
      }
    }
    assert b[..|b|] == b && a[..|a|] == a;
    assert row[..][|a|] == row[|a|];
    d := if row[|a|] > cap then cap + 1 else row[|a|];
  }

  /** One row in place: `diagonal` keeps the entry that was overwritten. */
  method NextRow(a: Bytes, ghost t: Bytes, ch: Byte, row: array<nat>) returns (low: nat)
    requires RowOf(a, t, row[..])
    modifies row
    ensures RowOf(a, t + [ch], row[..])
    ensures forall j :: 0 <= j < row.Length ==> low <= row[j]
  {
    hide Dist;
    ghost var u, was := t + [ch], row[..];
    Recurrence(a, t, ch, 0);
    var diagonal := row[0];
    row[0] := diagonal + 1;
    low := row[0];
    for j := 1 to |a| + 1
      invariant forall i :: 0 <= i < j ==> row[i] == Dist(a[..i], u) && low <= row[i]
      invariant forall i :: j <= i <= |a| ==> row[i] == was[i]
      invariant diagonal == was[j - 1]
    {
      Recurrence(a, t, ch, j);
      var keep := row[j];
      var v := row[j] + 1;
      if row[j - 1] + 1 < v { v := row[j - 1] + 1; }
      if diagonal + Cost(a[j - 1], ch) < v { v := diagonal + Cost(a[j - 1], ch); }
      row[j] := v;
      diagonal := keep;
      if v < low { low := v; }
    }
  }
}
