/** Rank, select and range counts over the automaton of a relation.

    A stored tuple is the word of its columns, four bytes each, most significant
    first, and a closing zero byte.  The number of words below each state is counted
    once and kept; a rank adds the counts of the edges to the left of the key's path,
    a select walks down by subtracting them.
 */
module OrderStatistics {
  import opened Automaton
  import opened ByteStrings
  import opened Options
  import opened Sets
  import opened Tuples

  /* ---------- words in order ---------- */

  /** Lexicographic order. */
  predicate Below(u: Bytes, v: Bytes) {
    v != [] && (u == [] || u[0] < v[0] || (u[0] == v[0] && Below(u[1..], v[1..])))
  }

  predicate EdgesSorted(d: Dafsa) {
    forall s, i, j :: 0 <= s < |d.edges| && 0 <= i < j < |d.edges[s]| ==> d.edges[s][i].sym < d.edges[s][j].sym
  }

  function Prefixed(c: Byte, ws: seq<Bytes>): (us: seq<Bytes>)
    ensures |us| == |ws| && forall i :: 0 <= i < |ws| ==> us[i] == [c] + ws[i]
  {
    seq(|ws|, i requires 0 <= i < |ws| => [c] + ws[i])
  }

  /** The words accepted from `s`, shortest prefix first, then edge by edge. */
  ghost function Words(d: Dafsa, rank: seq<nat>, s: nat): seq<Bytes>
    requires WellFormed(d, rank) && s < |d.edges|
    decreases rank[s], |d.edges[s]| + 1
  {
    (if d.final[s] then [[]] else []) + WordsFrom(d, rank, s, 0)
  }

  ghost function WordsFrom(d: Dafsa, rank: seq<nat>, s: nat, j: nat): seq<Bytes>
    requires WellFormed(d, rank) && s < |d.edges| && j <= |d.edges[s]|
    decreases rank[s], |d.edges[s]| - j
  {
    if j == |d.edges[s]| then []
    else
      assert EdgeDown(d, rank, s, j);
      Prefixed(d.edges[s][j].sym, Words(d, rank, d.edges[s][j].target)) + WordsFrom(d, rank, s, j + 1)
  }

  ghost predicate Ascending(ws: seq<Bytes>) {
    forall i, j :: 0 <= i < j < |ws| ==> Below(ws[i], ws[j])
  }

  lemma {:induction false} BelowTrans(u: Bytes, v: Bytes, w: Bytes)
    requires Below(u, v) && Below(v, w)
    ensures Below(u, w)
  {
    if u != [] && u[0] == v[0] == w[0] { BelowTrans(u[1..], v[1..], w[1..]); }
  }

  lemma {:induction false} BelowTotal(u: Bytes, v: Bytes)
    ensures u == v || Below(u, v) || Below(v, u)
    ensures !Below(u, u) && !(Below(u, v) && Below(v, u))
  {
    if u != [] && v != [] { BelowTotal(u[1..], v[1..]); }
    if u != [] && v == [] { BelowTotal(u[1..], []); }
  }

  /* ---------- words and acceptance ---------- */

  lemma {:induction false} WordsAccepted(d: Dafsa, rank: seq<nat>, s: nat, w: Bytes)
    requires WellFormed(d, rank) && s < |d.edges|
    ensures w in Words(d, rank, s) <==> AcceptsFrom(d, s, w)
    decreases rank[s], |d.edges[s]| + 1
  {
    WordsFromAccepted(d, rank, s, 0, w);
    if w == [] {
      assert Reads(d, s, [], s);
    } else {
      if AcceptsFrom(d, s, w) {
        var t: nat :| Reads(d, s, w, t) && t < |d.final| && d.final[t];
        var j: nat :| j < |d.edges[s]| && d.edges[s][j].sym == w[0] && Reads(d, d.edges[s][j].target, w[1..], t);
        assert AcceptsFrom(d, d.edges[s][j].target, w[1..]);
      }
      if j: nat :| j < |d.edges[s]| && d.edges[s][j].sym == w[0] && AcceptsFrom(d, d.edges[s][j].target, w[1..]) {
        var t: nat :| Reads(d, d.edges[s][j].target, w[1..], t) && t < |d.final| && d.final[t];
        assert Reads(d, s, w, t);
      }
    }
  }

  lemma InPrefixed(c: Byte, ws: seq<Bytes>, w: Bytes)
    ensures w in Prefixed(c, ws) <==> w != [] && w[0] == c && w[1..] in ws
  {
    if w in Prefixed(c, ws) {
      var i :| 0 <= i < |ws| && w == [c] + ws[i];
      assert w[1..] == ws[i];
    }
    if w != [] && w[0] == c && w[1..] in ws {
      var i :| 0 <= i < |ws| && ws[i] == w[1..];
      assert Prefixed(c, ws)[i] == w;
    }
  }

  lemma {:induction false} WordsFromAccepted(d: Dafsa, rank: seq<nat>, s: nat, j: nat, w: Bytes)
    requires WellFormed(d, rank) && s < |d.edges| && j <= |d.edges[s]|
    ensures w in WordsFrom(d, rank, s, j) <==>
            w != [] && exists i: nat :: j <= i < |d.edges[s]| && d.edges[s][i].sym == w[0] &&
                                        AcceptsFrom(d, d.edges[s][i].target, w[1..])
    decreases rank[s], |d.edges[s]| - j
  {
    if j < |d.edges[s]| {
      assert EdgeDown(d, rank, s, j);
      var c, t := d.edges[s][j].sym, d.edges[s][j].target;
      WordsFromAccepted(d, rank, s, j + 1, w);
      if w != [] { WordsAccepted(d, rank, t, w[1..]); }
      InPrefixed(c, Words(d, rank, t), w);
      assert w in WordsFrom(d, rank, s, j) <==> w in Prefixed(c, Words(d, rank, t)) || w in WordsFrom(d, rank, s, j + 1);
      hide Words, WordsFrom, AcceptsFrom, Prefixed;
    }
  }

  lemma {:induction false} WordsAscend(d: Dafsa, rank: seq<nat>, s: nat)
    requires WellFormed(d, rank) && EdgesSorted(d) && s < |d.edges|
    ensures Ascending(Words(d, rank, s))
    decreases rank[s], |d.edges[s]| + 1
  {
    WordsFromAscend(d, rank, s, 0);
  }

  lemma {:induction false} WordsFromAscend(d: Dafsa, rank: seq<nat>, s: nat, j: nat)
    requires WellFormed(d, rank) && EdgesSorted(d) && s < |d.edges| && j <= |d.edges[s]|
    ensures Ascending(WordsFrom(d, rank, s, j))
    ensures forall i :: 0 <= i < |WordsFrom(d, rank, s, j)| ==>
              WordsFrom(d, rank, s, j)[i] != [] && j < |d.edges[s]| && d.edges[s][j].sym <= WordsFrom(d, rank, s, j)[i][0]
    decreases rank[s], |d.edges[s]| - j
  {
    if j < |d.edges[s]| {
      assert EdgeDown(d, rank, s, j);
      var c, t := d.edges[s][j].sym, d.edges[s][j].target;
      WordsAscend(d, rank, t);
      WordsFromAscend(d, rank, s, j + 1);
      var first, rest := Prefixed(c, Words(d, rank, t)), WordsFrom(d, rank, s, j + 1);
      assert WordsFrom(d, rank, s, j) == first + rest;
      forall i, k | 0 <= i < k < |first + rest| ensures Below((first + rest)[i], (first + rest)[k]) {
        if k < |first| {
          assert first[i][1..] == Words(d, rank, t)[i] && first[k][1..] == Words(d, rank, t)[k];
        } else if i < |first| {
          assert rest[k - |first|][0] >= d.edges[s][j + 1].sym > c;
        }
      }
    }
  }

  /* ---------- counting ---------- */

  /** Words of the list that come before `key`. */
  ghost function CountBelow(ws: seq<Bytes>, key: Bytes): nat {
    if ws == [] then 0 else (if Below(ws[0], key) then 1 else 0) + CountBelow(ws[1..], key)
  }

  lemma {:induction false} CountJoined(xs: seq<Bytes>, ys: seq<Bytes>, key: Bytes)
    ensures CountBelow(xs + ys, key) == CountBelow(xs, key) + CountBelow(ys, key)
  {
    if xs == [] {
      assert xs + ys == ys;
    } else {
      assert (xs + ys)[0] == xs[0] && (xs + ys)[1..] == xs[1..] + ys;
      CountJoined(xs[1..], ys, key);
    }
  }

  lemma {:induction false} CountPrefixed(c: Byte, ws: seq<Bytes>, key: Bytes)
    ensures CountBelow(Prefixed(c, ws), key) ==
            if key == [] || key[0] < c then 0 else if c < key[0] then |ws| else CountBelow(ws, key[1..])
  {
    if ws != [] {
      var us := Prefixed(c, ws);
      assert us[0][0] == c && us[0][1..] == ws[0];
      assert us[1..] == Prefixed(c, ws[1..]);
      CountPrefixed(c, ws[1..], key);
    }
  }

  /** In ascending words, those below the k-th are the first k. */
  lemma {:induction false} CountAscending(ws: seq<Bytes>, key: Bytes, k: nat)
    requires Ascending(ws) && k <= |ws|
    requires (k < |ws| ==> !Below(ws[k], key)) && (k > 0 ==> Below(ws[k - 1], key))
    ensures CountBelow(ws, key) == k
  {
    if k == 0 {
      NoneBelow(ws, key);
    } else {
      assert ws[1..][k - 1..] == ws[k..];
      if k > 1 { BelowTrans(ws[0], ws[k - 1], key); }
      CountAscending(ws[1..], key, k - 1);
    }
  }

  lemma {:induction false} NoneBelow(ws: seq<Bytes>, key: Bytes)
    requires Ascending(ws) && (ws != [] ==> !Below(ws[0], key))
    ensures CountBelow(ws, key) == 0
  {
    if ws != [] {
      if |ws| > 1 && Below(ws[1], key) { BelowTrans(ws[0], ws[1], key); }
      NoneBelow(ws[1..], key);
    }
  }

  /** Select undoes rank and rank undoes select. */
  lemma RankOfSelected(ws: seq<Bytes>, k: nat)
    requires Ascending(ws) && k < |ws|
    ensures CountBelow(ws, ws[k]) == k
  {
    BelowTotal(ws[k], ws[k]);
    CountAscending(ws, ws[k], k);
  }

  /* ---------- the algorithms ---------- */

  ghost predicate CountsWords(d: Dafsa, rank: seq<nat>, counts: seq<int>)
    requires WellFormed(d, rank)
  {
    |counts| == |d.edges| && forall s :: 0 <= s < |d.edges| ==> counts[s] == |Words(d, rank, s)|
  }

  /** A counter that is set is right. */
  ghost predicate MemoOk(d: Dafsa, rank: seq<nat>, memo: seq<int>)
    requires WellFormed(d, rank)
  {
    |memo| == |d.edges| && forall s :: 0 <= s < |d.edges| ==> memo[s] == -1 || memo[s] == |Words(d, rank, s)|
  }

  /** Words below `s`; a state that several edges lead to is counted once. */
  method SubtreeCount(d: Dafsa, ghost rank: seq<nat>, s: nat, memo: array<int>) returns (n: nat)
    requires WellFormed(d, rank) && s < |d.edges| && MemoOk(d, rank, memo[..])
    modifies memo
    ensures n == |Words(d, rank, s)| && MemoOk(d, rank, memo[..]) && memo[s] == n
    ensures forall t :: 0 <= t < |d.edges| && old(memo[t]) != -1 ==> memo[t] == old(memo[t])
    decreases rank[s]
  {
    if memo[s] != -1 {
      return memo[s];
    }
    n := if d.final[s] then 1 else 0;
    var j := 0;
    while j < |d.edges[s]|
      invariant 0 <= j <= |d.edges[s]| && memo.Length == |d.edges|
      invariant n + |WordsFrom(d, rank, s, j)| == |Words(d, rank, s)|
      invariant MemoOk(d, rank, memo[..])
      invariant forall t :: 0 <= t < |d.edges| && old(memo[t]) != -1 ==> memo[t] == old(memo[t])
    {
      assert EdgeDown(d, rank, s, j);
      var below := SubtreeCount(d, rank, d.edges[s][j].target, memo);
      n := n + below;
      j := j + 1;
    }
    memo[s] := n;
  }

  method EnsureSubtree(d: Dafsa, ghost rank: seq<nat>) returns (counts: seq<int>)
    requires WellFormed(d, rank)
    ensures CountsWords(d, rank, counts)
  {
    var memo := new int[|d.edges|];
    forall i | 0 <= i < |d.edges| { memo[i] := -1; }
    var s := 0;
    while s < |d.edges|
      invariant 0 <= s <= |d.edges| && MemoOk(d, rank, memo[..])
      invariant forall t :: 0 <= t < s ==> memo[t] != -1
    {
      var n := SubtreeCount(d, rank, s, memo);
      s := s + 1;
    }
    counts := memo[..];
  }

  /** Words from `s` that come before `key`. */
  method RankFrom(d: Dafsa, ghost rank: seq<nat>, counts: seq<int>, s: nat, key: Bytes) returns (n: nat)
    requires WellFormed(d, rank) && s < |d.edges| && CountsWords(d, rank, counts)
    ensures n == CountBelow(Words(d, rank, s), key)
  {
    n := 0;
    var state: nat, i: nat := s, 0;
    while i < |key|
      invariant 0 <= i <= |key| && state < |d.edges|
      invariant n + CountBelow(Words(d, rank, state), key[i..]) == CountBelow(Words(d, rank, s), key)
    {
      var left, next := RankStep(d, rank, counts, state, key[i..]);
      n := n + left;
      assert key[i..][1..] == key[i + 1..];
      if next == |d.edges| { return; }
      state, i := next, i + 1;
    }
    NothingBelowEmpty(Words(d, rank, state));
  }

  lemma {:induction false} NothingBelowEmpty(ws: seq<Bytes>)
    ensures CountBelow(ws, []) == 0
  {
    if ws != [] { NothingBelowEmpty(ws[1..]); }
  }

  /** Words to the left of the path at one state, and the state the path goes on to
      (the number of states when there is none). */
  method RankStep(d: Dafsa, ghost rank: seq<nat>, counts: seq<int>, s: nat, key: Bytes) returns (left: nat, next: nat)
    requires WellFormed(d, rank) && s < |d.edges| && CountsWords(d, rank, counts) && key != []
    ensures next <= |d.edges|
    ensures CountBelow(Words(d, rank, s), key) ==
            left + if next < |d.edges| then CountBelow(Words(d, rank, next), key[1..]) else 0
  {
    left, next := if d.final[s] then 1 else 0, |d.edges|;
    CountJoined(if d.final[s] then [[]] else [], WordsFrom(d, rank, s, 0), key);
    var empty: seq<Bytes> := [[]];
    assert empty[1..] == [] && CountBelow(empty[1..], key) == 0 && CountBelow(empty, key) == 1;
    var j := 0;
    while j < |d.edges[s]|
      invariant 0 <= j <= |d.edges[s]| && next <= |d.edges|
      invariant next < |d.edges| ==> exists i :: 0 <= i < j && d.edges[s][i].sym == key[0]
      invariant CountBelow(Words(d, rank, s), key) ==
                left + (if next < |d.edges| then CountBelow(Words(d, rank, next), key[1..]) else 0) +
                CountBelow(WordsFrom(d, rank, s, j), key)
    {
      assert EdgeDown(d, rank, s, j);
      var e := d.edges[s][j];
      var ws := Words(d, rank, e.target);
      CountJoined(Prefixed(e.sym, ws), WordsFrom(d, rank, s, j + 1), key);
      CountPrefixed(e.sym, ws, key);
      if e.sym < key[0] { left := left + counts[e.target]; }
      else if e.sym == key[0] { next := e.target; }
      j := j + 1;
    }
  }

  /** The k-th word from `s`. */
  method SelectFrom(d: Dafsa, ghost rank: seq<nat>, counts: seq<int>, s: nat, k: nat) returns (word: Option<Bytes>)
    requires WellFormed(d, rank) && s < |d.edges| && CountsWords(d, rank, counts)
    ensures word.Some? <==> k < |Words(d, rank, s)|
    ensures word.Some? ==> word.value == Words(d, rank, s)[k]
  {
    hide Words;
    if k >= counts[s] { return None; }
    var state: nat, left: nat, path: Bytes := s, k, [];
    while left > 0 || !d.final[state]
      invariant state < |d.edges| && left < |Words(d, rank, state)|
      invariant path + Words(d, rank, state)[left] == Words(d, rank, s)[k]
      decreases rank[state]
    {
      var j, skip := SelectStep(d, rank, counts, state, left);
      assert EdgeDown(d, rank, state, j);
      var e := d.edges[state][j];
      assert path + ([e.sym] + Words(d, rank, e.target)[left - skip]) == (path + [e.sym]) + Words(d, rank, e.target)[left - skip];
      path, state, left := path + [e.sym], e.target, left - skip;
    }
    FirstWord(d, rank, state);
    assert path + [] == path;
    return Some(path);
  }

  /** A final state is where the shortest word ends. */
  lemma FirstWord(d: Dafsa, rank: seq<nat>, s: nat)
    requires WellFormed(d, rank) && s < |d.edges| && d.final[s] && Words(d, rank, s) != []
    ensures Words(d, rank, s)[0] == []
  {
  }

  /** The edge on which the k-th word lies and the number of words before it. */
  method SelectStep(d: Dafsa, ghost rank: seq<nat>, counts: seq<int>, s: nat, k: nat) returns (j: nat, skip: nat)
    requires WellFormed(d, rank) && s < |d.edges| && CountsWords(d, rank, counts)
    requires k < |Words(d, rank, s)| && (k > 0 || !d.final[s])
    ensures j < |d.edges[s]| && d.edges[s][j].target < |d.edges| && skip <= k
    ensures k - skip < |Words(d, rank, d.edges[s][j].target)|
    ensures Words(d, rank, s)[k] == [d.edges[s][j].sym] + Words(d, rank, d.edges[s][j].target)[k - skip]
  {
    j, skip := 0, if d.final[s] then 1 else 0;
    while true
      invariant j <= |d.edges[s]| && skip <= k
      invariant k - skip < |WordsFrom(d, rank, s, j)| && WordsFrom(d, rank, s, j)[k - skip] == Words(d, rank, s)[k]
      decreases |d.edges[s]| - j
    {
      assert EdgeDown(d, rank, s, j);
      var e := d.edges[s][j];
      if k - skip < counts[e.target] { return; }
      skip, j := skip + counts[e.target], j + 1;
    }
  }

  /* ---------- tuples ---------- */

  /** Compare keys column by column: negative, zero or positive. */
  method CompareKeys(l: Tuple, r: Tuple, j: nat) returns (cmp: int)
    requires j <= |l| && j <= |r|
    ensures cmp < 0 <==> TupleBelow(l[..j], r[..j])
    ensures cmp == 0 <==> l[..j] == r[..j]
    ensures cmp > 0 <==> TupleBelow(r[..j], l[..j])
  {
    var i := 0;
    while i < j
      invariant 0 <= i <= j && l[..i] == r[..i]
    {
      if l[i] != r[i] {
        assert l[..j][..i] == l[..i] && r[..j][..i] == r[..i];
        if l[i] < r[i] { KeyDiffers(l[..j], r[..j], i); return -1; }
        KeyDiffers(r[..j], l[..j], i);
        return 1;
      }
      i := i + 1;
    }
    TupleTotal(l[..j], r[..j], j);
    return 0;
  }

  lemma KeyDiffers(t: Tuple, u: Tuple, i: nat)
    requires |t| == |u| && i < |t| && t[..i] == u[..i] && t[i] < u[i]
    ensures TupleBelow(t, u) && !TupleBelow(u, t)
  {
    SharedPrefixOrder(t, u, i);
    SharedPrefixOrder(u, t, i);
  }

  function Columns(t: Tuple): Bytes {
    if t == [] then [] else WordOf(t[0]) + Columns(t[1..])
  }

  /** The stored key: the columns and a closing zero. */
  function Encode(t: Tuple): Bytes { Columns(t) + [0] }

  function Decode(key: Bytes, n: nat): Tuple {
    if n == 0 || |key| < WORD_BYTES then [] else [Word(key[..WORD_BYTES])] + Decode(key[WORD_BYTES..], n - 1)
  }

  lemma DigitOrder(x: nat, b: nat, y: nat, c: nat)
    requires b < 256 && c < 256
    ensures x * 256 + b < y * 256 + c <==> x < y || (x == y && b < c)
  {
  }

  /** Four bytes, most significant first, compare as the number does. */
  lemma WordOrder(p: Bytes, q: Bytes)
    requires |p| == |q| == WORD_BYTES
    ensures Below(p, q) <==> Word(p) < Word(q)
  {
    var x, y := At(p, 0) * 256 + At(p, 1), At(q, 0) * 256 + At(q, 1);
    DigitOrder(x * 256 + At(p, 2), At(p, 3), y * 256 + At(q, 2), At(q, 3));
    DigitOrder(x, At(p, 2), y, At(q, 2));
    DigitOrder(At(p, 0), At(p, 1), At(q, 0), At(q, 1));
    assert Below(p, q) <==> p[0] < q[0] || (p[0] == q[0] && Below(p[1..], q[1..]));
    assert Below(p[1..], q[1..]) <==> p[1] < q[1] || (p[1] == q[1] && Below(p[2..], q[2..])) by {
      assert p[1..][1..] == p[2..] && q[1..][1..] == q[2..];
    }
    assert Below(p[2..], q[2..]) <==> p[2] < q[2] || (p[2] == q[2] && Below(p[3..], q[3..])) by {
      assert p[2..][1..] == p[3..] && q[2..][1..] == q[3..];
    }
    assert Below(p[3..], q[3..]) <==> p[3] < q[3] by {
      assert p[3..][1..] == [] && q[3..][1..] == [];
    }
    if x == y { LastDigit(p[0], p[1], q[0], q[1]); }
    if x * 256 + At(p, 2) == y * 256 + At(q, 2) { LastDigit(x, p[2], y, q[2]); }
  }

  lemma {:induction false} BelowJoined(p: Bytes, q: Bytes, u: Bytes, v: Bytes)
    requires |p| == |q|
    ensures Below(p + u, q + v) <==> Below(p, q) || (p == q && Below(u, v))
  {
    if p == [] {
      assert p + u == u && q + v == v;
    } else {
      assert (p + u)[0] == p[0] && (p + u)[1..] == p[1..] + u && (q + v)[0] == q[0] && (q + v)[1..] == q[1..] + v;
      BelowJoined(p[1..], q[1..], u, v);
      assert p == [p[0]] + p[1..] && q == [q[0]] + q[1..];
    }
  }

  /** Keys compare as their tuples do. */
  lemma {:induction false} EncodeOrder(t: Tuple, u: Tuple, n: nat)
    requires IsTuple(t, n) && IsTuple(u, n)
    ensures Below(Encode(t), Encode(u)) <==> TupleBelow(t, u)
    ensures Encode(t) == Encode(u) <==> t == u
  {
    if n == 0 {
      assert [0][1..] == [];
    } else {
      var p, q := WordOf(t[0]), WordOf(u[0]);
      assert Encode(t) == p + Encode(t[1..]) && Encode(u) == q + Encode(u[1..]);
      EncodeOrder(t[1..], u[1..], n - 1);
      WordOfWord(t[0]);
      WordOfWord(u[0]);
      WordOrder(p, q);
      BelowJoined(p, q, Encode(t[1..]), Encode(u[1..]));
      if Encode(t) == Encode(u) {
        assert p == Encode(t)[..WORD_BYTES] && Encode(t[1..]) == Encode(t)[WORD_BYTES..];
        assert q == Encode(u)[..WORD_BYTES] && Encode(u[1..]) == Encode(u)[WORD_BYTES..];
        assert t == [t[0]] + t[1..] && u == [u[0]] + u[1..];
      }
    }
  }

  lemma {:induction false} DecodeEncoded(t: Tuple, n: nat)
    requires IsTuple(t, n)
    ensures Decode(Encode(t), n) == t
  {
    if n > 0 {
      assert Encode(t)[..WORD_BYTES] == WordOf(t[0]) && Encode(t)[WORD_BYTES..] == Encode(t[1..]);
      WordOfWord(t[0]);
      DecodeEncoded(t[1..], n - 1);
    }
  }

  lemma {:induction false} ColumnsJoined(t: Tuple, u: Tuple)
    ensures Columns(t + u) == Columns(t) + Columns(u) && |Columns(t)| == WORD_BYTES * |t|
  {
    if t == [] {
      assert t + u == u;
    } else {
      assert (t + u)[0] == t[0] && (t + u)[1..] == t[1..] + u;
      ColumnsJoined(t[1..], u);
    }
  }

  /** Four bytes for each column and a closing zero; the length gives the arity back. */
  lemma KeySize(t: Tuple)
    ensures |Encode(t)| == WORD_BYTES * |t| + 1 && Encode(t)[WORD_BYTES * |t|] == 0
    ensures (|Encode(t)| - 1) / WORD_BYTES == |t|
  {
    ColumnsJoined(t, []);
  }

  /* ---------- a stored relation ---------- */

  /** The automaton holds exactly the keys of the tuples. */
  ghost predicate Stores(d: Dafsa, R: set<Tuple>, n: nat) {
    (forall t :: t in R ==> IsTuple(t, n)) &&
    forall w :: AcceptsFrom(d, d.initial, w) <==> exists t :: t in R && w == Encode(t)
  }

  ghost function Bound(R: set<Tuple>, leading: Tuple): set<Tuple> {
    set t | t in R && leading <= t
  }

  ghost function BoundBelow(R: set<Tuple>, leading: Tuple, cols: Tuple): set<Tuple> {
    set t | t in R && leading <= t && TupleBelow(t, cols)
  }

  /** What follows the leading columns. */
  ghost function Rest(t: Tuple, k: nat): Bytes { if k <= |t| then Encode(t[k..]) else [] }

  /** The words from the state of `leading` are the rests of the tuples that start
      with it. */
  lemma BoundWords(d: Dafsa, rank: seq<nat>, R: set<Tuple>, n: nat, leading: Tuple, s: nat, w: Bytes)
    requires WellFormed(d, rank) && Stores(d, R, n) && IsTuple(leading, |leading|) && |leading| <= n
    requires Reads(d, d.initial, Columns(leading), s)
    ensures AcceptsFrom(d, s, w) <==> exists t :: t in Bound(R, leading) && w == Rest(t, |leading|)
  {
    var k, path := |leading|, Columns(leading);
    if AcceptsFrom(d, s, w) {
      var e: nat :| Reads(d, s, w, e) && e < |d.final| && d.final[e];
      ReadsConcat(d, d.initial, path, w, s, e);
      assert AcceptsFrom(d, d.initial, path + w);
      var t :| t in R && path + w == Encode(t);
      RestOfKey(t, n, leading, w);
      assert t in Bound(R, leading);
    }
    if t :| t in Bound(R, leading) && w == Rest(t, k) {
      assert t == leading + t[k..];
      ColumnsJoined(leading, t[k..]);
      assert Encode(t) == path + w;
      assert AcceptsFrom(d, d.initial, path + w);
      var e: nat :| Reads(d, d.initial, path + w, e) && e < |d.final| && d.final[e];
      var m := ReadsSplit(d, d.initial, path, w, e);
      ReadsUnique(d, rank, d.initial, path, m, s);
    }
  }

  lemma {:induction false} RestOfKey(t: Tuple, n: nat, leading: Tuple, w: Bytes)
    requires IsTuple(t, n) && IsTuple(leading, |leading|) && |leading| <= n && Columns(leading) + w == Encode(t)
    ensures leading <= t && w == Rest(t, |leading|)
  {
    var k := |leading|;
    assert t == t[..k] + t[k..];
    ColumnsJoined(t[..k], t[k..]);
    ColumnsJoined(leading, []);
    hide Columns;
    assert Encode(t) == Columns(t[..k]) + Encode(t[k..]);
    SplitEqual(Columns(leading), w, Columns(t[..k]), Encode(t[k..]));
    EncodeOrder(leading, t[..k], k);
  }

  lemma SplitEqual(p: Bytes, u: Bytes, q: Bytes, v: Bytes)
    requires p + u == q + v && |p| == |q|
    ensures p == q && u == v
  {
    assert p == (p + u)[..|p|] && q == (q + v)[..|p|] && u == (p + u)[|p|..] && v == (q + v)[|p|..];
  }

  /* ---------- counting words is counting tuples ---------- */

  ghost function Image<T, U>(S: set<T>, f: T -> U): set<U> {
    set x | x in S :: f(x)
  }

  lemma {:induction false} ImageSize<T, U>(S: set<T>, f: T -> U)
    requires forall x, y :: x in S && y in S && f(x) == f(y) ==> x == y
    ensures |Image(S, f)| == |S|
  {
    if S != {} {
      var z :| z in S;
      ImageSize(S - {z}, f);
      assert Image(S, f) == Image(S - {z}, f) + {f(z)};
    }
  }

  ghost function Before(ws: seq<Bytes>, key: Bytes): set<Bytes> {
    set w | w in ws && Below(w, key)
  }

  lemma FirstIsNew(ws: seq<Bytes>)
    requires Ascending(ws) && ws != []
    ensures Ascending(ws[1..]) && ws[0] !in ws[1..]
  {
    forall i | 0 <= i < |ws[1..]| ensures ws[1..][i] != ws[0] { BelowTotal(ws[0], ws[i + 1]); }
  }

  lemma {:induction false} CountIsSize(ws: seq<Bytes>, key: Bytes)
    requires Ascending(ws)
    ensures CountBelow(ws, key) == |Before(ws, key)|
  {
    hide Below, Ascending;
    if ws == [] {
      assert Before(ws, key) == {};
    } else {
      FirstIsNew(ws);
      CountIsSize(ws[1..], key);
      assert ws == [ws[0]] + ws[1..];
      if Below(ws[0], key) {
        assert Before(ws, key) == Before(ws[1..], key) + {ws[0]};
      } else {
        assert Before(ws, key) == Before(ws[1..], key);
      }
    }
  }

  /** Rank inside a bound: the words before the key's rest are as many as the tuples
      of the bound before the tuple. */
  lemma {:induction false} RankIsCount(d: Dafsa, rank: seq<nat>, R: set<Tuple>, n: nat, leading: Tuple, s: nat, cols: Tuple)
    requires WellFormed(d, rank) && EdgesSorted(d) && Stores(d, R, n) && IsTuple(leading, |leading|)
    requires IsTuple(cols, n) && leading <= cols && Reads(d, d.initial, Columns(leading), s) && s < |d.edges|
    ensures CountBelow(Words(d, rank, s), Rest(cols, |leading|)) == |BoundBelow(R, leading, cols)|
  {
    var k, ws, S, key := |leading|, Words(d, rank, s), BoundBelow(R, leading, cols), Rest(cols, |leading|);
    WordsAscend(d, rank, s);
    CountIsSize(ws, key);
    forall w ensures w in ws <==> exists t :: t in Bound(R, leading) && w == Rest(t, k) {
      WordsAccepted(d, rank, s, w);
      BoundWords(d, rank, R, n, leading, s, w);
    }
    forall t | t in Bound(R, leading) ensures Below(Rest(t, k), key) <==> TupleBelow(t, cols) { RestOrder(t, cols, n, k); }
    forall t, u | t in S && u in S && Rest(t, k) == Rest(u, k) ensures t == u { RestOrder(t, u, n, k); }
    var f := (t: Tuple) => Rest(t, k);
    ImageSize(S, f);
    hide Words, Rest, Stores, Below, TupleBelow, WellFormed;
    forall w | w in Before(ws, key) ensures w in Image(S, f) {
      var t :| t in Bound(R, leading) && w == Rest(t, k);
      assert t in S && w == f(t);
    }
    forall w | w in Image(S, f) ensures w in Before(ws, key) {
      var t :| t in S && w == f(t);
      assert t in Bound(R, leading);
    }
    assert Before(ws, key) == Image(S, f);
  }

  /** Tuples that share their leading columns compare as their rests do. */
  lemma RestOrder(t: Tuple, u: Tuple, n: nat, k: nat)
    requires IsTuple(t, n) && IsTuple(u, n) && k <= n && t[..k] == u[..k]
    ensures Below(Rest(t, k), Rest(u, k)) <==> TupleBelow(t, u)
    ensures Rest(t, k) == Rest(u, k) <==> t == u
  {
    EncodeOrder(t[k..], u[k..], n - k);
    SharedPrefixOrder(t, u, k);
    assert t == t[..k] + t[k..] && u == u[..k] + u[k..];
  }

  lemma {:induction false} SharedPrefixOrder(t: Tuple, u: Tuple, k: nat)
    requires k <= |t| == |u| && t[..k] == u[..k]
    ensures TupleBelow(t, u) <==> TupleBelow(t[k..], u[k..])
  {
    if k == 0 {
      assert t[0..] == t && u[0..] == u;
    } else {
      assert t[0] == t[..k][0] == u[..k][0] == u[0];
      assert t[1..][..k - 1] == t[..k][1..] && u[1..][..k - 1] == u[..k][1..];
      assert t[1..][k - 1..] == t[k..] && u[1..][k - 1..] == u[k..];
      SharedPrefixOrder(t[1..], u[1..], k - 1);
    }
  }

  /* ---------- the public operations ---------- */

  /** The state after the leading columns, byte by byte. */
  method PrefixState(d: Dafsa, ghost rank: seq<nat>, leading: Tuple) returns (state: Option<nat>)
    requires WellFormed(d, rank)
    ensures state.Some? ==> Reads(d, d.initial, Columns(leading), state.value) && state.value < |d.edges|
    ensures state.None? ==> forall s :: !Reads(d, d.initial, Columns(leading), s)
  {
    var path, current: nat, i := Columns(leading), d.initial, 0;
    assert path[..0] == [];
    while i < |path|
      invariant 0 <= i <= |path| && current < |d.edges| && Reads(d, d.initial, path[..i], current)
    {
      var j: nat := 0;
      while j < |d.edges[current]| && d.edges[current][j].sym != path[i]
        invariant j <= |d.edges[current]| && forall k :: 0 <= k < j ==> d.edges[current][k].sym != path[i]
      {
        j := j + 1;
      }
      if j == |d.edges[current]| {
        NoWayOn(d, rank, path, i, current);
        return None;
      }
      assert EdgeDown(d, rank, current, j);
      ReadsEdge(d, current, j);
      ReadsConcat(d, d.initial, path[..i], [path[i]], current, d.edges[current][j].target);
      assert path[..i] + [path[i]] == path[..i + 1];
      current, i := d.edges[current][j].target, i + 1;
    }
    assert path[..|path|] == path;
    return Some(current);
  }

  lemma FirstByte(d: Dafsa, s: nat, u: Bytes, t: nat)
    requires Reads(d, s, u, t) && u != []
    ensures exists k :: 0 <= k < |d.edges[s]| && d.edges[s][k].sym == u[0]
  {
    var k: nat :| k < |d.edges[s]| && d.edges[s][k].sym == u[0] && Reads(d, d.edges[s][k].target, u[1..], t);
  }

  lemma NoWayOn(d: Dafsa, rank: seq<nat>, path: Bytes, i: nat, current: nat)
    requires WellFormed(d, rank) && i < |path| && Reads(d, d.initial, path[..i], current) && current < |d.edges|
    requires forall k :: 0 <= k < |d.edges[current]| ==> d.edges[current][k].sym != path[i]
    ensures forall s :: !Reads(d, d.initial, path, s)
  {
    var done, rest := path[..i], path[i..];
    assert path == done + rest && rest != [] && rest[0] == path[i];
    forall s: nat ensures !Reads(d, d.initial, path, s) {
      if Reads(d, d.initial, path, s) {
        var m := ReadsSplit(d, d.initial, done, rest, s);
        ReadsUnique(d, rank, d.initial, done, m, current);
        FirstByte(d, m, rest, s);
      }
    }
  }

  /** A bound that no key has is empty. */
  lemma AbsentBound(d: Dafsa, R: set<Tuple>, n: nat, leading: Tuple)
    requires Stores(d, R, n) && forall s :: !Reads(d, d.initial, Columns(leading), s)
    ensures Bound(R, leading) == {}
  {
    if t :| t in Bound(R, leading) {
      assert t == leading + t[|leading|..];
      ColumnsJoined(leading, t[|leading|..]);
      assert Encode(t) == Columns(leading) + Encode(t[|leading|..]);
      assert AcceptsFrom(d, d.initial, Encode(t));
      var e: nat :| Reads(d, d.initial, Encode(t), e) && e < |d.final| && d.final[e];
      var m := ReadsSplit(d, d.initial, Columns(leading), Encode(t[|leading|..]), e);
    }
  }

  /** How many stored tuples that start with `leading` come before `cols`.  With no
      leading columns this is the plain rank. */
  method RankBound(d: Dafsa, ghost rank: seq<nat>, counts: seq<int>, leading: Tuple, cols: Tuple,
                   ghost R: set<Tuple>) returns (r: nat)
    requires WellFormed(d, rank) && EdgesSorted(d) && CountsWords(d, rank, counts) && Stores(d, R, |cols|)
    requires IsTuple(cols, |cols|) && leading <= cols
    ensures r == |BoundBelow(R, leading, cols)|
  {
    var state := PrefixState(d, rank, leading);
    if state.None? {
      AbsentBound(d, R, |cols|, leading);
      assert BoundBelow(R, leading, cols) <= Bound(R, leading);
      return 0;
    }
    RankIsCount(d, rank, R, |cols|, leading, state.value, cols);
    r := RankFrom(d, rank, counts, state.value, Encode(cols[|leading|..]));
  }

  /** Tuples of the bound in the half-open range from `lo` to `hi`. */
  method RangeCountBound(d: Dafsa, ghost rank: seq<nat>, counts: seq<int>, leading: Tuple, lo: Tuple, hi: Tuple,
                         ghost R: set<Tuple>) returns (r: nat)
    requires WellFormed(d, rank) && EdgesSorted(d) && CountsWords(d, rank, counts) && Stores(d, R, |lo|)
    requires IsTuple(lo, |lo|) && IsTuple(hi, |lo|) && leading <= lo && leading <= hi
    ensures r == |BoundRange(R, leading, lo, hi)|
  {
    var below := RankBound(d, rank, counts, leading, lo, R);
    var upto := RankBound(d, rank, counts, leading, hi, R);
    RangeSize(R, leading, lo, hi);
    r := if upto > below then upto - below else 0;
  }

  ghost function BoundRange(R: set<Tuple>, leading: Tuple, lo: Tuple, hi: Tuple): set<Tuple> {
    set t | t in R && leading <= t && TupleBelow(t, hi) && !TupleBelow(t, lo)
  }

  lemma RangeSize(R: set<Tuple>, leading: Tuple, lo: Tuple, hi: Tuple)
    requires (forall t :: t in R ==> IsTuple(t, |lo|)) && IsTuple(lo, |lo|) && IsTuple(hi, |lo|)
    ensures var below, upto := |BoundBelow(R, leading, lo)|, |BoundBelow(R, leading, hi)|;
            |BoundRange(R, leading, lo, hi)| == if upto > below then upto - below else 0
  {
    var L, H, inside := BoundBelow(R, leading, lo), BoundBelow(R, leading, hi), BoundRange(R, leading, lo, hi);
    forall t: Tuple ensures TupleBelow(lo, hi) && TupleBelow(t, lo) ==> TupleBelow(t, hi)
                            ensures |lo| == |hi| && !TupleBelow(lo, hi) && TupleBelow(t, hi) ==> TupleBelow(t, lo)
    {
      if TupleBelow(lo, hi) && TupleBelow(t, lo) { TupleTrans(t, lo, hi); }
      if |lo| == |hi| && !TupleBelow(lo, hi) && TupleBelow(t, hi) {
        TupleTotal(lo, hi, |lo|);
        if lo != hi { TupleTrans(t, hi, lo); }
      }
    }
    hide TupleBelow, IsTuple;
    assert H * inside == inside;
    if TupleBelow(lo, hi) {
      assert L <= H;
      assert H == L + inside && L * inside == {};
    } else {
      assert H <= L;
      assert inside == {};
      SubsetSize(H, L);
    }
  }

  /** The tuple with `k` tuples of the bound before it, if the bound has that many. */
  method SelectBound(d: Dafsa, ghost rank: seq<nat>, counts: seq<int>, leading: Tuple, n: nat, k: nat,
                     ghost R: set<Tuple>) returns (t: Option<Tuple>)
    requires WellFormed(d, rank) && EdgesSorted(d) && CountsWords(d, rank, counts) && Stores(d, R, n)
    requires IsTuple(leading, |leading|) && |leading| <= n
    ensures t.Some? <==> k < |Bound(R, leading)|
    ensures t.Some? ==> t.value in Bound(R, leading) && |BoundBelow(R, leading, t.value)| == k
  {
    var state := PrefixState(d, rank, leading);
    if state.None? {
      AbsentBound(d, R, n, leading);
      return None;
    }
    var word := SelectFrom(d, rank, counts, state.value, k);
    BoundSize(d, rank, R, n, leading, state.value);
    if word.None? { return None; }
    var cols := leading + Decode(word.value, n - |leading|);
    SelectedTuple(d, rank, R, n, leading, state.value, k);
    return Some(cols);
  }

  /** Two tuples of a bound with the same rank are one, so selecting the rank of a tuple
      gives the tuple back. */
  lemma RankDetermines(R: set<Tuple>, n: nat, leading: Tuple, t: Tuple, u: Tuple)
    requires (forall r :: r in R ==> |r| == n) && t in Bound(R, leading) && u in Bound(R, leading)
    requires |BoundBelow(R, leading, t)| == |BoundBelow(R, leading, u)|
    ensures t == u
  {
    TupleTotal(t, u, n);
    if TupleBelow(t, u) { RankRises(R, n, leading, t, u); }
    if TupleBelow(u, t) { RankRises(R, n, leading, u, t); }
  }

  lemma RankRises(R: set<Tuple>, n: nat, leading: Tuple, t: Tuple, u: Tuple)
    requires (forall r :: r in R ==> |r| == n) && t in Bound(R, leading) && TupleBelow(t, u)
    ensures |BoundBelow(R, leading, t)| < |BoundBelow(R, leading, u)|
  {
    var L, H := BoundBelow(R, leading, t), BoundBelow(R, leading, u);
    TupleTotal(t, t, n);
    forall r | r in L ensures r in H { TupleTrans(r, t, u); }
    hide TupleBelow;
    assert t in H && t !in L;
    SubsetSize(L + {t}, H);
  }

  lemma BoundSize(d: Dafsa, rank: seq<nat>, R: set<Tuple>, n: nat, leading: Tuple, s: nat)
    requires WellFormed(d, rank) && EdgesSorted(d) && Stores(d, R, n) && IsTuple(leading, |leading|) && |leading| <= n
    requires Reads(d, d.initial, Columns(leading), s) && s < |d.edges|
    ensures |Words(d, rank, s)| == |Bound(R, leading)|
  {
    var ws, S := Words(d, rank, s), Bound(R, leading);
    WordsAscend(d, rank, s);
    AscendingSize(ws);
    forall w ensures w in ws <==> exists t :: t in S && w == Rest(t, |leading|) {
      WordsAccepted(d, rank, s, w);
      BoundWords(d, rank, R, n, leading, s, w);
    }
    forall t, u | t in S && u in S && Rest(t, |leading|) == Rest(u, |leading|) ensures t == u { RestOrder(t, u, n, |leading|); }
    var f := (t: Tuple) => Rest(t, |leading|);
    ImageSize(S, f);
    hide Words, Rest, Stores, WellFormed, Ascending;
    assert Elements(ws) == Image(S, f);
  }

  ghost function Elements(ws: seq<Bytes>): set<Bytes> { set w | w in ws }

  lemma {:induction false} AscendingSize(ws: seq<Bytes>)
    requires Ascending(ws)
    ensures |Elements(ws)| == |ws|
  {
    hide Below, Ascending;
    if ws != [] {
      FirstIsNew(ws);
      AscendingSize(ws[1..]);
      assert ws == [ws[0]] + ws[1..];
      assert Elements(ws) == Elements(ws[1..]) + {ws[0]};
    }
  }

  /** Decoding the k-th word gives back a stored tuple with exactly k before it. */
  lemma SelectedTuple(d: Dafsa, rank: seq<nat>, R: set<Tuple>, n: nat, leading: Tuple, s: nat, k: nat)
    requires WellFormed(d, rank) && EdgesSorted(d) && Stores(d, R, n) && IsTuple(leading, |leading|) && |leading| <= n
    requires Reads(d, d.initial, Columns(leading), s) && s < |d.edges| && k < |Words(d, rank, s)|
    ensures var t := leading + Decode(Words(d, rank, s)[k], n - |leading|);
            t in Bound(R, leading) && |BoundBelow(R, leading, t)| == k
  {
    var ws := Words(d, rank, s);
    WordsAscend(d, rank, s);
    WordsAccepted(d, rank, s, ws[k]);
    BoundWords(d, rank, R, n, leading, s, ws[k]);
    var t :| t in Bound(R, leading) && ws[k] == Rest(t, |leading|);
    assert IsTuple(t, n) && leading <= t;
    hide Words, Reads, AcceptsFrom, Stores, EdgesSorted, WellFormed, CountBelow, TupleBelow, Columns, Below, Encode, Decode;
    DecodeEncoded(t[|leading|..], n - |leading|);
    assert t == leading + t[|leading|..];
    RankOfSelected(ws, k);
    RankIsCount(d, rank, R, n, leading, s, t);
  }

  /* ---------- a permuted index ---------- */

  /** Row of a permuted index: column `j` is column `perm[j]` of the tuple. */
  function Permuted(t: Tuple, perm: seq<nat>): Tuple {
    seq(|perm|, j requires 0 <= j < |perm| => if perm[j] < |t| then t[perm[j]] else 0)
  }

  predicate IsPermutation(perm: seq<nat>, n: nat) {
    |perm| == n && (forall j :: 0 <= j < n ==> perm[j] < n) && forall i :: 0 <= i < n ==> i in perm
  }

  function PermutedRows(R: set<Tuple>, perm: seq<nat>): set<Tuple> {
    set t | t in R :: Permuted(t, perm)
  }

  /** Tuples of the relation that come before `cols` in the permuted order. */
  ghost function PermutedBelow(R: set<Tuple>, perm: seq<nat>, cols: Tuple): set<Tuple> {
    set t | t in R && TupleBelow(Permuted(t, perm), Permuted(cols, perm))
  }

  /** Ranking in a permuted index counts the tuples of the relation in the permuted
      order. */
  lemma PermutedRank(R: set<Tuple>, n: nat, perm: seq<nat>, cols: Tuple)
    requires IsPermutation(perm, n) && forall t :: t in R ==> IsTuple(t, n)
    ensures |BoundBelow(PermutedRows(R, perm), [], Permuted(cols, perm))| ==
            |PermutedBelow(R, perm, cols)|
  {
    var S := PermutedBelow(R, perm, cols);
    var f := (t: Tuple) => Permuted(t, perm);
    forall t, u | t in S && u in S && f(t) == f(u) ensures t == u {
      forall i | 0 <= i < n ensures t[i] == u[i] {
        assert i in perm;
        var j :| 0 <= j < n && perm[j] == i;
        assert f(t)[j] == f(u)[j];
      }
    }
    ImageSize(S, f);
    hide Permuted, TupleBelow;
    var below := BoundBelow(PermutedRows(R, perm), [], Permuted(cols, perm));
    forall x | x in below ensures x in Image(S, f) {
      var t :| t in R && x == Permuted(t, perm);
      assert t in S;
    }
    forall x | x in Image(S, f) ensures x in below {
      var t :| t in S && x == f(t);
      assert Permuted(t, perm) in PermutedRows(R, perm) && [] <= x;
    }
    assert below == Image(S, f);
  }

  lemma PermutedInjective(t: Tuple, u: Tuple, n: nat, perm: seq<nat>)
    requires IsPermutation(perm, n) && |t| == |u| == n && Permuted(t, perm) == Permuted(u, perm)
    ensures t == u
  {
    forall i | 0 <= i < n ensures t[i] == u[i] {
      assert i in perm;
      var j :| 0 <= j < n && perm[j] == i;
      assert Permuted(t, perm)[j] == Permuted(u, perm)[j];
    }
  }

  /** Rank in the order of a permuted index: the key's columns are permuted first. */
  method RankPermuted(d: Dafsa, ghost rank: seq<nat>, counts: seq<int>, perm: seq<nat>, cols: Tuple, ghost R: set<Tuple>)
      returns (r: nat)
    requires WellFormed(d, rank) && EdgesSorted(d) && CountsWords(d, rank, counts)
    requires IsPermutation(perm, |cols|) && IsTuple(cols, |cols|) && forall t :: t in R ==> IsTuple(t, |cols|)
    requires Stores(d, PermutedRows(R, perm), |cols|)
    ensures r == |PermutedBelow(R, perm, cols)|
  {
    var pcols := ForwardMap(perm, cols);
    PermutedRank(R, |cols|, perm, cols);
    r := RankBound(d, rank, counts, [], pcols, PermutedRows(R, perm));
  }

  method ForwardMap(perm: seq<nat>, cols: Tuple) returns (pcols: Tuple)
    requires IsPermutation(perm, |cols|)
    ensures pcols == Permuted(cols, perm)
  {
    pcols := [];
    for j := 0 to |perm|
      invariant pcols == Permuted(cols, perm)[..j]
    {
      pcols := pcols + [cols[perm[j]]];
    }
  }

  /** Select in the order of a permuted index: the columns are put back in place. */
  method SelectPermuted(d: Dafsa, ghost rank: seq<nat>, counts: seq<int>, perm: seq<nat>, n: nat, k: nat, ghost R: set<Tuple>)
      returns (t: Option<Tuple>)
    requires WellFormed(d, rank) && EdgesSorted(d) && CountsWords(d, rank, counts)
    requires IsPermutation(perm, n) && (forall u :: u in R ==> IsTuple(u, n)) && Stores(d, PermutedRows(R, perm), n)
    ensures t.Some? <==> k < |R|
    ensures t.Some? ==> t.value in R && |PermutedBelow(R, perm, t.value)| == k
  {
    ghost var P := PermutedRows(R, perm);
    var word := SelectBound(d, rank, counts, [], n, k, P);
    assert Bound(P, []) == P;
    PermutedSize(R, n, perm);
    if word.None? { return None; }
    ghost var u :| u in R && Permuted(u, perm) == word.value;
    var cols := InverseMap(perm, word.value, u);
    PermutedRank(R, n, perm, cols);
    return Some(cols);
  }

  method InverseMap(perm: seq<nat>, pcols: Tuple, ghost t: Tuple) returns (cols: Tuple)
    requires IsPermutation(perm, |pcols|) && |t| == |pcols| && pcols == Permuted(t, perm)
    ensures cols == t
  {
    var out := new nat[|pcols|](_ => 0);
    for j := 0 to |perm|
      invariant forall i :: 0 <= i < j ==> out[perm[i]] == t[perm[i]]
    {
      out[perm[j]] := pcols[j];
    }
    forall i | 0 <= i < |t| ensures out[i] == t[i] {
      assert i in perm;
      var j :| 0 <= j < |perm| && perm[j] == i;
    }
    cols := out[..];
  }

  lemma PermutedSize(R: set<Tuple>, n: nat, perm: seq<nat>)
    requires IsPermutation(perm, n) && forall t :: t in R ==> IsTuple(t, n)
    ensures |PermutedRows(R, perm)| == |R|
  {
    var f := (t: Tuple) => Permuted(t, perm);
    forall t, u | t in R && u in R && f(t) == f(u) ensures t == u { PermutedInjective(t, u, n, perm); }
    ImageSize(R, f);
    assert PermutedRows(R, perm) == Image(R, f);
  }
}
