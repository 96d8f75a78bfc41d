/** The product walk of a byte matcher over the symbol automaton.

    The symbol automaton holds one word per symbol: the bytes of its string, a zero
    byte, and its id in four bytes.  It is minimal, so distinct prefixes may share a
    state in general; here they cannot, because what follows a prefix names ids.
 */
module SymbolWalk {
  import opened Automaton
  import opened ByteStrings
  import opened EditDistance
  import opened FuzzyAutomaton
  import opened OpenAddressing
  import opened Options

  const MAX_WORD_LEN: nat := 65536
  const ID_BYTES: nat := 4
  const WORD_LIMIT: nat := 0x1_0000_0000

  type Table = set<(Bytes, nat)>

  /* ---------- the words ---------- */

  predicate ZeroFree(s: Bytes) {
    forall i :: 0 <= i < |s| ==> s[i] != 0
  }

  /** Strings are free of zero bytes and short enough; one id per string, one string per id. */
  predicate IsTable(table: Table) {
    && (forall e :: e in table ==> ZeroFree(e.0) && |e.0| + 1 + ID_BYTES <= MAX_WORD_LEN && e.1 < WORD_LIMIT)
    && (forall e, f :: e in table && f in table && e.0 == f.0 ==> e == f)
    && (forall e, f :: e in table && f in table && e.1 == f.1 ==> e == f)
  }

  ghost predicate IsWord(table: Table, w: Bytes) {
    exists s, p: Bytes :: |p| == ID_BYTES && (s, Word(p)) in table && w == s + [0] + p
  }

  /** The automaton holds exactly the words of the table. */
  ghost predicate Holds(d: Dafsa, table: Table) {
    forall w :: AcceptsFrom(d, d.initial, w) <==> IsWord(table, w)
  }

  /** An accepted continuation of a zero-free prefix names the symbol. */
  lemma Continuation(d: Dafsa, table: Table, p: Bytes, s: nat, w: Bytes) returns (u: Bytes, id: Bytes)
    requires Holds(d, table) && IsTable(table) && ZeroFree(p) && Reads(d, d.initial, p, s) && AcceptsFrom(d, s, w)
    ensures |id| == ID_BYTES && (p + u, Word(id)) in table && ZeroFree(u) && w == u + [0] + id
  {
    var t: nat :| Reads(d, s, w, t) && t < |d.final| && d.final[t];
    ReadsConcat(d, d.initial, p, w, s, t);
    assert AcceptsFrom(d, d.initial, p + w);
    var name, q: Bytes :| |q| == ID_BYTES && (name, Word(q)) in table && p + w == name + [0] + q;
    assert (name + [0] + q)[|name|] == 0;
    assert forall i :: 0 <= i < |p| ==> (p + w)[i] == p[i] && p[i] != 0;
    assert |p| <= |name|;
    assert p == name[..|p|] by { assert (p + w)[..|p|] == p && (name + [0] + q)[..|p|] == name[..|p|]; }
    u, id := name[|p|..], q;
    assert w == (p + w)[|p|..] && (name + [0] + q)[|p|..] == u + [0] + q;
    assert name == p + u;
  }

  lemma FirstZero(u: Bytes, id: Bytes, u': Bytes, id': Bytes)
    requires ZeroFree(u) && ZeroFree(u') && u + [0] + id == u' + [0] + id'
    ensures u == u' && id == id'
  {
    var w, w' := u + [0] + id, u' + [0] + id';
    assert w[|u|] == 0 && w'[|u'|] == 0;
    assert forall i :: 0 <= i < |u| ==> w[i] == u[i];
    assert forall i :: 0 <= i < |u'| ==> w'[i] == u'[i];
    assert |u| == |u'|;
    assert w == w' && u == w[..|u|] && u' == w'[..|u'|];
    assert id == w[|u| + 1..] && id' == w'[|u| + 1..];
  }

  /** Two zero-free prefixes that reach one state are one prefix. */
  lemma PrefixesApart(d: Dafsa, table: Table, p: Bytes, q: Bytes, s: nat)
    requires Holds(d, table) && IsTable(table) && Trim(d) && ZeroFree(p) && ZeroFree(q)
    requires Reads(d, d.initial, p, s) && Reads(d, d.initial, q, s)
    ensures p == q
  {
    var w :| AcceptsFrom(d, s, w);
    var u, id := Continuation(d, table, p, s, w);
    var u', id' := Continuation(d, table, q, s, w);
    FirstZero(u, id, u', id');
    assert (p + u, Word(id)) in table && (q + u, Word(id)) in table;
    assert p + u == q + u;
    assert |p| == |q|;
    assert p == (p + u)[..|p|] && q == (q + u)[..|p|];
  }

  /* ---------- reading an id ---------- */

  /** Follow four single edges from the state after the zero byte. */
  method ReadSymId(d: Dafsa, ghost rank: seq<nat>, s: nat) returns (id: nat, bad: bool)
    requires WellFormed(d, rank) && s < |d.edges|
    ensures bad == IdAt(d, s).None? && (!bad ==> id == IdAt(d, s).value)
  {
    id, bad := 0, false;
    var cur: nat := s;
    for i := 0 to ID_BYTES
      invariant cur < |d.edges| && IdAt(d, s) == IdFrom(d, cur, ID_BYTES - i, id)
    {
      if |d.edges[cur]| != 1 { return 0, true; }
      id := id * 256 + d.edges[cur][0].sym;
      assert EdgeDown(d, rank, cur, 0);
      cur := d.edges[cur][0].target;
    }
  }

  function IdFrom(d: Dafsa, s: nat, left: nat, id: nat): Option<nat>
    decreases left
  {
    if left == 0 then Some(id)
    else if s >= |d.edges| || |d.edges[s]| != 1 then None
    else IdFrom(d, d.edges[s][0].target, left - 1, id * 256 + d.edges[s][0].sym)
  }

  function IdAt(d: Dafsa, s: nat): Option<nat> {
    IdFrom(d, s, ID_BYTES, 0)
  }

  function Value(p: Bytes, id: nat): nat
    decreases |p|
  {
    if p == [] then id else Value(p[1..], id * 256 + At(p, 0))
  }

  lemma ValueIsWord(p: Bytes)
    requires |p| == ID_BYTES
    ensures Value(p, 0) == Word(p)
  {
    var a, b, c, e := At(p, 0), At(p, 1), At(p, 2), At(p, 3);
    var p1, p2, p3 := p[1..], p[2..], p[3..];
    assert p1[1..] == p2 && p2[1..] == p3 && p3[1..] == [];
    assert At(p1, 0) == b && At(p2, 0) == c && At(p3, 0) == e;
    assert Value(p, 0) == Value(p1, a);
    assert Value(p1, a) == Value(p2, a * 256 + b);
    assert Value(p2, a * 256 + b) == Value(p3, (a * 256 + b) * 256 + c);
    assert Value(p3, (a * 256 + b) * 256 + c) == ((a * 256 + b) * 256 + c) * 256 + e;
  }

  ghost predicate LiveBelow(d: Dafsa, s: nat) {
    forall w, t: nat {:trigger Reads(d, s, w, t)} :: Reads(d, s, w, t) ==> exists u :: AcceptsFrom(d, t, u)
  }

  lemma LiveAfter(d: Dafsa, s: nat, w: Bytes, t: nat)
    requires LiveBelow(d, s) && Reads(d, s, w, t)
    ensures LiveBelow(d, t)
  {
    forall v, x: nat {:trigger Reads(d, t, v, x)} | Reads(d, t, v, x) ensures exists u :: AcceptsFrom(d, x, u) {
      ReadsConcat(d, s, w, v, t, x);
    }
  }

  lemma FirstEdge(d: Dafsa, s: nat, p: Bytes) returns (j: nat)
    requires AcceptsFrom(d, s, p) && p != []
    ensures s < |d.edges| && j < |d.edges[s]| && d.edges[s][j].sym == p[0] && AcceptsFrom(d, d.edges[s][j].target, p[1..])
  {
    var t: nat :| Reads(d, s, p, t) && t < |d.final| && d.final[t];
    var i: nat :| i < |d.edges[s]| && d.edges[s][i].sym == p[0] && Reads(d, d.edges[s][i].target, p[1..], t);
    j := i;
  }

  /** Where the only accepted word is `p`, the single edges spell it. */
  lemma {:induction false} SpelledOut(d: Dafsa, rank: seq<nat>, s: nat, p: Bytes, id: nat)
    requires WellFormed(d, rank) && AcceptsFrom(d, s, p) && LiveBelow(d, s)
    requires forall w :: AcceptsFrom(d, s, w) ==> w == p
    ensures IdFrom(d, s, |p|, id) == Some(Value(p, id))
    decreases |p|
  {
    hide Reads, AcceptsFrom;
    if p != [] {
      var j := FirstEdge(d, s, p);
      forall i: nat | i < |d.edges[s]| ensures d.edges[s][i].sym == p[0] && i == j {
        assert EdgeDown(d, rank, s, i);
        ReadsEdge(d, s, i);
        var u :| AcceptsFrom(d, d.edges[s][i].target, u);
        AcceptsByEdge(d, rank, s, i, u);
        assert ([d.edges[s][i].sym] + u)[0] == p[0];
      }
      assert d.edges[s][0].sym == p[0] && d.edges[s][|d.edges[s]| - 1].sym == p[0];
      assert j == 0 && |d.edges[s]| == 1;
      var m := d.edges[s][0].target;
      assert EdgeDown(d, rank, s, 0);
      ReadsEdge(d, s, 0);
      LiveAfter(d, s, [d.edges[s][0].sym], m);
      forall w | AcceptsFrom(d, m, w) ensures w == p[1..] {
        AcceptsByEdge(d, rank, s, 0, w);
        assert ([d.edges[s][0].sym] + w)[1..] == w;
      }
      SpelledOut(d, rank, m, p[1..], id * 256 + p[0]);
    }
  }

  lemma AcceptsByEdge(d: Dafsa, rank: seq<nat>, s: nat, j: nat, u: Bytes)
    requires WellFormed(d, rank) && s < |d.edges| && j < |d.edges[s]| && AcceptsFrom(d, d.edges[s][j].target, u)
    ensures AcceptsFrom(d, s, [d.edges[s][j].sym] + u)
  {
    var t: nat :| Reads(d, d.edges[s][j].target, u, t) && t < |d.final| && d.final[t];
    assert EdgeDown(d, rank, s, j);
    ReadsEdge(d, s, j);
    ReadsConcat(d, s, [d.edges[s][j].sym], u, d.edges[s][j].target, t);
  }

  /* ---------- what the walk emits ---------- */

  /** Ids of the symbols that end at state `s`, over its edges from `j` on. */
  function IdsFrom(d: Dafsa, s: nat, j: nat): seq<nat>
    requires s < |d.edges| && j <= |d.edges[s]|
    decreases |d.edges[s]| - j
  {
    if j == |d.edges[s]| then []
    else
      (if d.edges[s][j].sym == 0 && IdAt(d, d.edges[s][j].target).Some?
       then [IdAt(d, d.edges[s][j].target).value] else []) + IdsFrom(d, s, j + 1)
  }

  /** The walk below one pair of states, at a depth. */
  function Emit(d: Dafsa, rank: seq<nat>, a: Dfa, s: nat, r: nat, depth: nat): seq<nat>
    requires WellFormed(d, rank) && Runnable(a) && s < |d.edges| && r < |a.trans|
    decreases rank[s], |d.edges[s]| + 1
  {
    (if a.accept[r] then IdsFrom(d, s, 0) else []) + EmitFrom(d, rank, a, s, r, depth, 0)
  }

  function EmitFrom(d: Dafsa, rank: seq<nat>, a: Dfa, s: nat, r: nat, depth: nat, j: nat): seq<nat>
    requires WellFormed(d, rank) && Runnable(a) && s < |d.edges| && r < |a.trans| && j <= |d.edges[s]|
    decreases rank[s], |d.edges[s]| - j
  {
    if j == |d.edges[s]| then []
    else
      assert EdgeDown(d, rank, s, j);
      (if Descends(a, r, depth, d.edges[s][j].sym)
       then Emit(d, rank, a, d.edges[s][j].target, a.trans[r][d.edges[s][j].sym], depth + 1) else [])
      + EmitFrom(d, rank, a, s, r, depth, j + 1)
  }

  /** The walk follows an edge unless it is a zero byte, the matcher dies, or the
      word would be too long. */
  predicate Descends(a: Dfa, r: nat, depth: nat, sym: Byte)
    requires Runnable(a) && r < |a.trans|
  {
    sym != 0 && a.trans[r][sym] != DFA_DEAD && depth + 1 < MAX_WORD_LEN
  }

  /* ---------- the visited table ---------- */

  /** Open addressing without tombstones: removing a key can break the probe chain of
      another one, so membership is not reliable in either direction; only this much
      is: a key reported as present was inserted before. */
  class VisitedSet {
    var keys: array<nat>
    var used: nat
    ghost var inserted: set<nat>

    ghost predicate Valid()
      reads this, keys
    {
      && keys.Length >= 16 && NonZero(keys[..]) <= used && used * 4 < keys.Length * 3 + 4
      && forall i :: 0 <= i < keys.Length && keys[i] != 0 ==> keys[i] in inserted
    }

    constructor (size: nat)
      requires size >= 16
      ensures Valid() && inserted == {} && fresh(keys)
    {
      keys := new nat[size](_ => 0);
      used, inserted := 0, {};
      new;
      AllZero(keys[..]);
    }

    method TryInsert(key: nat, hash: nat -> nat) returns (present: bool)
      requires Valid()
      modifies this, keys
      ensures Valid() && inserted == old(inserted) + {key} && (keys == old(keys) || fresh(keys))
      ensures present ==> key in old(inserted)
    {
      if used * 4 >= keys.Length * 3 { Grow(hash); }
      var idx := ProbeKey(keys, key, hash(key) % keys.Length);
      inserted := inserted + {key};
      if keys[idx] != 0 { return true; }
      NonZeroUpdate(keys[..], idx, key);
      ghost var after := keys[..][idx := key];
      keys[idx] := key;
      assert keys[..] == after;
      used := used + 1;
      return false;
    }

    method Remove(key: nat, hash: nat -> nat)
      requires Valid()
      modifies this, keys
      ensures Valid() && inserted == old(inserted) && keys == old(keys)
    {
      var idx := ProbeKey(keys, key, hash(key) % keys.Length);
      if keys[idx] != 0 {
        NonZeroUpdate(keys[..], idx, 0);
        ghost var after := keys[..][idx := 0];
        keys[idx] := 0;
        assert keys[..] == after;
        used := used - 1;
      }
    }

    /** Twice the size, every remaining key hashed again. */
    method Grow(hash: nat -> nat)
      requires Valid()
      modifies this
      ensures Valid() && inserted == old(inserted) && fresh(keys) && used * 4 < keys.Length * 3
    {
      var wider := RehashKeys(keys, hash, inserted);
      keys := wider;
    }
  }

  method RehashKeys(narrow: array<nat>, hash: nat -> nat, ghost known: set<nat>) returns (wider: array<nat>)
    requires narrow.Length > 0 && forall k :: 0 <= k < narrow.Length && narrow[k] != 0 ==> narrow[k] in known
    ensures fresh(wider) && wider.Length == narrow.Length * 2 && NonZero(wider[..]) == NonZero(narrow[..])
    ensures forall k :: 0 <= k < wider.Length && wider[k] != 0 ==> wider[k] in known
  {
    wider := new nat[narrow.Length * 2](_ => 0);
    AllZero(wider[..]);
    assert narrow[0..] == narrow[..];
    for i := 0 to narrow.Length
      invariant NonZero(wider[..]) + NonZero(narrow[i..]) == NonZero(narrow[..])
      invariant forall k :: 0 <= k < wider.Length && wider[k] != 0 ==> wider[k] in known
    {
      assert narrow[i..][0] == narrow[i] && narrow[i..][1..] == narrow[i + 1..];
      if narrow[i] != 0 { Put(wider, narrow[i], hash(narrow[i]) % wider.Length); }
    }
  }

  /** Store a key in the first free slot from `start` on. */
  method Put(keys: array<nat>, key: nat, start: nat)
    requires key != 0 && start < keys.Length && NonZero(keys[..]) < keys.Length
    modifies keys
    ensures NonZero(keys[..]) == old(NonZero(keys[..])) + 1
    ensures forall k :: 0 <= k < keys.Length ==> keys[k] == key || keys[k] == old(keys[k])
  {
    var idx := ProbeKey(keys, 0, start);
    NonZeroUpdate(keys[..], idx, key);
    ghost var after := keys[..][idx := key];
    keys[idx] := key;
    assert keys[..] == after;
  }

  /** From `start` on, the first slot that holds `key` or is free. */
  method ProbeKey(keys: array<nat>, key: nat, start: nat) returns (idx: nat)
    requires start < keys.Length && NonZero(keys[..]) < keys.Length
    ensures idx < keys.Length && (keys[idx] == key || keys[idx] == 0)
  {
    ghost var z := SomeZero(keys[..]);
    idx := start;
    while keys[idx] != 0 && keys[idx] != key
      invariant idx < keys.Length
      decreases Ahead(idx, z, keys.Length)
    {
      Wrap(idx, keys.Length);
      idx := (idx + 1) % keys.Length;
    }
  }

  /* ---------- the walk ---------- */

  datatype Frame = Frame(dstate: nat, rstate: nat, depth: nat, j: nat, entered: bool)

  function Key(dstate: nat, rstate: nat): nat {
    dstate * WORD_LIMIT + rstate
  }

  lemma KeyInjective(s: nat, r: nat, s': nat, r': nat)
    requires r < WORD_LIMIT && r' < WORD_LIMIT && Key(s, r) == Key(s', r')
    ensures s == s' && r == r'
  {
  }

  ghost predicate FrameFits(d: Dafsa, a: Dfa, f: Frame) {
    f.dstate < |d.edges| && f.rstate < |a.trans| && f.j <= |d.edges[f.dstate]| && (!f.entered ==> f.j == 0)
  }

  /** What is still to come from one frame, and from a stack of them, top first. */
  ghost function FrameRest(d: Dafsa, rank: seq<nat>, a: Dfa, f: Frame): seq<nat>
    requires WellFormed(d, rank) && Runnable(a) && FrameFits(d, a, f)
  {
    if f.entered then EmitFrom(d, rank, a, f.dstate, f.rstate, f.depth, f.j)
    else Emit(d, rank, a, f.dstate, f.rstate, f.depth)
  }

  ghost predicate StackFits(d: Dafsa, a: Dfa, stack: seq<Frame>) {
    forall i :: 0 <= i < |stack| ==> FrameFits(d, a, stack[i])
  }

  ghost function Rest(d: Dafsa, rank: seq<nat>, a: Dfa, stack: seq<Frame>): seq<nat>
    requires WellFormed(d, rank) && Runnable(a) && StackFits(d, a, stack)
  {
    if stack == [] then []
    else FrameRest(d, rank, a, stack[|stack| - 1]) + Rest(d, rank, a, stack[..|stack| - 1])
  }

  ghost function Work(d: Dafsa, rank: seq<nat>, a: Dfa, stack: seq<Frame>): nat
    requires WellFormed(d, rank) && Runnable(a) && StackFits(d, a, stack)
  {
    if stack == [] then 0
    else
      var f := stack[|stack| - 1];
      (if f.entered then 1 + TreeFrom(d, rank, f.dstate, f.j) else TreeSize(d, rank, f.dstate)) + Work(d, rank, a, stack[..|stack| - 1])
  }

  lemma {:induction false} RestPush(d: Dafsa, rank: seq<nat>, a: Dfa, stack: seq<Frame>, f: Frame)
    requires WellFormed(d, rank) && Runnable(a) && StackFits(d, a, stack) && FrameFits(d, a, f)
    ensures StackFits(d, a, stack + [f])
    ensures Rest(d, rank, a, stack + [f]) == FrameRest(d, rank, a, f) + Rest(d, rank, a, stack)
    ensures Work(d, rank, a, stack + [f]) ==
            (if f.entered then 1 + TreeFrom(d, rank, f.dstate, f.j) else TreeSize(d, rank, f.dstate)) + Work(d, rank, a, stack)
  {
    assert (stack + [f])[..|stack|] == stack;
  }

  method CollectIds(d: Dafsa, ghost rank: seq<nat>, s: nat) returns (ids: seq<nat>)
    requires WellFormed(d, rank) && s < |d.edges|
    ensures ids == IdsFrom(d, s, 0)
  {
    ids := [];
    for j := 0 to |d.edges[s]|
      invariant ids + IdsFrom(d, s, j) == IdsFrom(d, s, 0)
    {
      assert EdgeDown(d, rank, s, j);
      if d.edges[s][j].sym == 0 {
        var id, bad := ReadSymId(d, rank, d.edges[s][j].target);
        if !bad { ids := ids + [id]; }
      }
    }
  }

  /** The next edge to follow from a frame, if there is one. */
  method NextChild(d: Dafsa, ghost rank: seq<nat>, a: Dfa, f0: Frame) returns (f: Frame, child: Option<Frame>)
    requires WellFormed(d, rank) && Runnable(a) && FrameFits(d, a, f0) && f0.entered
    ensures f == f0.(j := f.j) && f0.j <= f.j <= |d.edges[f.dstate]|
    ensures child.None? ==> f.j == |d.edges[f.dstate]| && FrameRest(d, rank, a, f0) == []
    ensures child.Some? ==>
              && f0.j < f.j && FrameFits(d, a, child.value) && ChildOf(d, a, f, child.value)
              && FrameRest(d, rank, a, f0) == FrameRest(d, rank, a, child.value) + FrameRest(d, rank, a, f)
              && TreeSize(d, rank, child.value.dstate) + TreeFrom(d, rank, f.dstate, f.j) < TreeFrom(d, rank, f.dstate, f0.j)
  {
    f := f0;
    while f.j < |d.edges[f.dstate]|
      invariant f == f0.(j := f.j) && f0.j <= f.j <= |d.edges[f.dstate]|
      invariant FrameRest(d, rank, a, f) == FrameRest(d, rank, a, f0)
      invariant TreeFrom(d, rank, f.dstate, f.j) <= TreeFrom(d, rank, f.dstate, f0.j)
      decreases |d.edges[f.dstate]| - f.j
    {
      var e := d.edges[f.dstate][f.j];
      assert EdgeDown(d, rank, f.dstate, f.j);
      f := f.(j := f.j + 1);
      if Descends(a, f.rstate, f.depth, e.sym) {
        return f, Some(Frame(e.target, a.trans[f.rstate][e.sym], f.depth + 1, 0, false));
      }
    }
    child := None;
  }

  ghost predicate ChildOf(d: Dafsa, a: Dfa, f: Frame, c: Frame)
    requires Runnable(a)
  {
    && 0 < f.j && f.dstate < |d.edges| && f.j <= |d.edges[f.dstate]| && f.rstate < |a.trans|
    && Descends(a, f.rstate, f.depth, d.edges[f.dstate][f.j - 1].sym)
    && c == Frame(d.edges[f.dstate][f.j - 1].target, a.trans[f.rstate][d.edges[f.dstate][f.j - 1].sym], f.depth + 1, 0, false)
  }

  /* ---------- no pair is entered twice ---------- */

  /** Frame `i` stands at the state of the first `i` bytes of `path`, and has already
      looked at the edge that `path` takes next. */
  ghost predicate OnPath(d: Dafsa, stack: seq<Frame>, path: Bytes) {
    && |stack| == |path| + 1 && ZeroFree(path)
    && (forall i :: 0 <= i < |stack| ==> Reads(d, d.initial, path[..i], stack[i].dstate))
    && (forall i :: 0 <= i < |path| ==> TookEdge(d, stack[i], path[i]))
  }

  ghost predicate TookEdge(d: Dafsa, f: Frame, c: Byte) {
    f.entered && f.dstate < |d.edges| && 0 < f.j <= |d.edges[f.dstate]| && d.edges[f.dstate][f.j - 1].sym == c
  }

  /** Prefixes seen below an entered frame go through edges it has looked at; none
      are below a frame not entered yet. */
  ghost predicate SeenBelow(d: Dafsa, stack: seq<Frame>, path: Bytes, seen: set<Bytes>) {
    && (forall i, q :: 0 <= i < |stack| && i <= |path| && stack[i].entered && q in seen && path[..i] < q ==> LookedAt(d, stack[i], q[i]))
    && (stack != [] && !stack[|stack| - 1].entered ==> forall q :: q in seen ==> !(path <= q))
  }

  ghost predicate LookedAt(d: Dafsa, f: Frame, c: Byte) {
    exists e: nat :: e < f.j && f.dstate < |d.edges| && e < |d.edges[f.dstate]| && d.edges[f.dstate][e].sym == c
  }

  /** Every inserted key belongs to the state of a seen prefix. */
  ghost predicate KeysSeen(d: Dafsa, seen: set<Bytes>, inserted: set<nat>) {
    && (forall q :: q in seen ==> ZeroFree(q))
    && forall key :: key in inserted ==> exists q, s: nat, r: nat {:trigger Reads(d, d.initial, q, s), Key(s, r)} ::
         q in seen && Reads(d, d.initial, q, s) && r < WORD_LIMIT && key == Key(s, r)
  }

  lemma KeyIsNew(d: Dafsa, rank: seq<nat>, table: Table, stack: seq<Frame>, path: Bytes, seen: set<Bytes>, inserted: set<nat>)
    requires WellFormed(d, rank) && Holds(d, table) && IsTable(table) && Trim(d)
    requires OnPath(d, stack, path) && SeenBelow(d, stack, path, seen) && KeysSeen(d, seen, inserted)
    requires !stack[|stack| - 1].entered && stack[|stack| - 1].rstate < WORD_LIMIT
    ensures Key(stack[|stack| - 1].dstate, stack[|stack| - 1].rstate) !in inserted
  {
    var f := stack[|stack| - 1];
    assert path[..|path|] == path;
    assert path <= path && path !in seen;
    if Key(f.dstate, f.rstate) in inserted {
      var q, s: nat, r: nat :| q in seen && Reads(d, d.initial, q, s) && r < WORD_LIMIT && Key(f.dstate, f.rstate) == Key(s, r);
      KeyInjective(f.dstate, f.rstate, s, r);
      PrefixesApart(d, table, path, q, s);
    }
  }

  lemma Entered(d: Dafsa, stack: seq<Frame>, path: Bytes, seen: set<Bytes>, inserted: set<nat>)
    requires OnPath(d, stack, path) && SeenBelow(d, stack, path, seen) && KeysSeen(d, seen, inserted)
    requires !stack[|stack| - 1].entered && stack[|stack| - 1].rstate < WORD_LIMIT
    ensures var f := stack[|stack| - 1];
            var stack' := stack[|stack| - 1 := f.(entered := true)];
            && OnPath(d, stack', path) && SeenBelow(d, stack', path, seen + {path})
            && KeysSeen(d, seen + {path}, inserted + {Key(f.dstate, f.rstate)})
  {
    hide Reads, LookedAt;
    var f := stack[|stack| - 1];
    assert path[..|path|] == path;
    EnteredSeen(d, stack, path, seen);
    EnteredKeys(d, f, path, seen, inserted);
  }

  lemma EnteredSeen(d: Dafsa, stack: seq<Frame>, path: Bytes, seen: set<Bytes>)
    requires OnPath(d, stack, path) && SeenBelow(d, stack, path, seen) && !stack[|stack| - 1].entered
    ensures SeenBelow(d, stack[|stack| - 1 := stack[|stack| - 1].(entered := true)], path, seen + {path})
  {
    hide Reads;
    var f := stack[|stack| - 1];
    var stack' := stack[|stack| - 1 := f.(entered := true)];
    assert path[..|path|] == path;
    forall i, q | 0 <= i < |stack'| && i <= |path| && stack'[i].entered && q in seen + {path} && path[..i] < q
      ensures LookedAt(d, stack'[i], q[i])
    {
      if i < |path| {
        if q == path { assert TookEdge(d, stack[i], path[i]); } else { assert LookedAt(d, stack[i], q[i]); }
      }
    }
  }

  lemma EnteredKeys(d: Dafsa, f: Frame, path: Bytes, seen: set<Bytes>, inserted: set<nat>)
    requires KeysSeen(d, seen, inserted) && ZeroFree(path) && Reads(d, d.initial, path, f.dstate) && f.rstate < WORD_LIMIT
    ensures KeysSeen(d, seen + {path}, inserted + {Key(f.dstate, f.rstate)})
  {
    hide Reads;
    forall key | key in inserted + {Key(f.dstate, f.rstate)}
      ensures exists q, s: nat, r: nat {:trigger Reads(d, d.initial, q, s), Key(s, r)} ::
        q in seen + {path} && Reads(d, d.initial, q, s) && r < WORD_LIMIT && key == Key(s, r)
    {
      if key in inserted {
        var q, s: nat, r: nat :| q in seen && Reads(d, d.initial, q, s) && r < WORD_LIMIT && key == Key(s, r);
        assert q in seen + {path};
      } else {
        assert path in seen + {path} && Reads(d, d.initial, path, f.dstate);
      }
    }
  }

  lemma Descended(d: Dafsa, rank: seq<nat>, a: Dfa, stack: seq<Frame>, path: Bytes, seen: set<Bytes>, f: Frame, c: Frame)
    requires WellFormed(d, rank) && Runnable(a) && OnPath(d, stack, path) && SeenBelow(d, stack, path, seen)
    requires stack[|stack| - 1].entered && f == stack[|stack| - 1].(j := f.j) && stack[|stack| - 1].j < f.j && ChildOf(d, a, f, c)
    ensures var sym := d.edges[f.dstate][f.j - 1].sym;
            var stack' := stack[|stack| - 1 := f] + [c];
            OnPath(d, stack', path + [sym]) && SeenBelow(d, stack', path + [sym], seen)
  {
    DescendedPath(d, rank, a, stack, path, f, c);
    DescendedSeen(d, rank, a, stack, path, seen, f, c);
  }

  lemma DescendedPath(d: Dafsa, rank: seq<nat>, a: Dfa, stack: seq<Frame>, path: Bytes, f: Frame, c: Frame)
    requires WellFormed(d, rank) && Runnable(a) && OnPath(d, stack, path)
    requires stack[|stack| - 1].entered && f == stack[|stack| - 1].(j := f.j) && ChildOf(d, a, f, c)
    ensures OnPath(d, stack[|stack| - 1 := f] + [c], path + [d.edges[f.dstate][f.j - 1].sym])
  {
    hide Reads;
    var top := |stack| - 1;
    var sym := d.edges[f.dstate][f.j - 1].sym;
    var stack', path' := stack[top := f] + [c], path + [sym];
    assert path[..|path|] == path && path'[..|path'|] == path';
    forall i | 0 <= i < |stack'| ensures Reads(d, d.initial, path'[..i], stack'[i].dstate) {
      if i <= top {
        assert path'[..i] == path[..i];
        assert Reads(d, d.initial, path[..i], stack[i].dstate);
      } else {
        assert EdgeDown(d, rank, f.dstate, f.j - 1);
        ReadsEdge(d, f.dstate, f.j - 1);
        ReadsConcat(d, d.initial, path, [sym], f.dstate, c.dstate);
      }
    }
    forall i | 0 <= i < |path'| ensures TookEdge(d, stack'[i], path'[i]) {
      if i < |path| { assert TookEdge(d, stack[i], path[i]); }
    }
  }

  lemma DescendedSeen(d: Dafsa, rank: seq<nat>, a: Dfa, stack: seq<Frame>, path: Bytes, seen: set<Bytes>, f: Frame, c: Frame)
    requires WellFormed(d, rank) && Runnable(a) && |stack| == |path| + 1 && SeenBelow(d, stack, path, seen)
    requires stack[|stack| - 1].entered && f == stack[|stack| - 1].(j := f.j) && stack[|stack| - 1].j < f.j && ChildOf(d, a, f, c)
    ensures SeenBelow(d, stack[|stack| - 1 := f] + [c], path + [d.edges[f.dstate][f.j - 1].sym], seen)
  {
    var top := |stack| - 1;
    var sym := d.edges[f.dstate][f.j - 1].sym;
    var stack', path' := stack[top := f] + [c], path + [sym];
    assert path[..|path|] == path && path'[..|path|] == path;
    forall i, q | 0 <= i < |stack'| && i <= |path'| && stack'[i].entered && q in seen && path'[..i] < q
      ensures LookedAt(d, stack'[i], q[i])
    {
      assert path'[..i] == path[..i];
      LookedLonger(d, stack[i], stack'[i], q[i]);
    }
    forall q | q in seen ensures !(path' <= q) { NotBelow(d, rank, stack[top], f, path, q); }
  }

  lemma LookedLonger(d: Dafsa, f: Frame, f': Frame, c: Byte)
    requires LookedAt(d, f, c) && f'.dstate == f.dstate && f.j <= f'.j
    ensures LookedAt(d, f', c)
  {
  }

  /** Edges carry distinct bytes, so what was seen before went another way. */
  lemma NotBelow(d: Dafsa, rank: seq<nat>, f: Frame, f': Frame, path: Bytes, q: Bytes)
    requires WellFormed(d, rank) && f'.dstate == f.dstate < |d.edges| && f.j < f'.j <= |d.edges[f.dstate]|
    requires path < q ==> LookedAt(d, f, q[|path|])
    ensures !(path + [d.edges[f.dstate][f'.j - 1].sym] <= q)
  {
    Extends(path, d.edges[f.dstate][f'.j - 1].sym, q);
    NotLookedAt(d, rank, f, f'.j - 1);
  }

  lemma Extends(path: Bytes, sym: Byte, q: Bytes)
    ensures path + [sym] <= q ==> path < q && q[|path|] == sym
  {
    var longer := path + [sym];
    if longer <= q {
      assert q[..|longer|] == longer && q[..|path|] == longer[..|path|] == path;
      assert q[|path|] == q[..|longer|][|path|];
    }
  }

  lemma NotLookedAt(d: Dafsa, rank: seq<nat>, f: Frame, e: nat)
    requires WellFormed(d, rank) && f.dstate < |d.edges| && f.j <= e < |d.edges[f.dstate]|
    ensures !LookedAt(d, f, d.edges[f.dstate][e].sym)
  {
  }

  lemma Ascended(d: Dafsa, stack: seq<Frame>, path: Bytes, seen: set<Bytes>)
    requires OnPath(d, stack, path) && SeenBelow(d, stack, path, seen) && path != []
    ensures OnPath(d, stack[..|stack| - 1], path[..|path| - 1]) && SeenBelow(d, stack[..|stack| - 1], path[..|path| - 1], seen)
  {
    var path' := path[..|path| - 1];
    assert forall i :: 0 <= i <= |path'| ==> path'[..i] == path[..i];
  }

  /** The state of the walk: what was emitted and what the stack still owes make up
      the whole emission. */
  ghost predicate Walking(d: Dafsa, rank: seq<nat>, a: Dfa, stack: seq<Frame>, path: Bytes, seen: set<Bytes>, inserted: set<nat>, out: seq<nat>) {
    && WellFormed(d, rank) && Runnable(a) && StackFits(d, a, stack)
    && out + Rest(d, rank, a, stack) == Emit(d, rank, a, d.initial, 0, 0)
    && (stack != [] ==> OnPath(d, stack, path) && SeenBelow(d, stack, path, seen) && KeysSeen(d, seen, inserted))
  }

  lemma WalkStarts(d: Dafsa, rank: seq<nat>, a: Dfa)
    requires WellFormed(d, rank) && Runnable(a)
    ensures Walking(d, rank, a, [Frame(d.initial, 0, 0, 0, false)], [], {}, {}, [])
  {
    RestPush(d, rank, a, [], Frame(d.initial, 0, 0, 0, false));
    assert [] + [Frame(d.initial, 0, 0, 0, false)] == [Frame(d.initial, 0, 0, 0, false)];
  }

  lemma EnterStep(d: Dafsa, rank: seq<nat>, a: Dfa, table: Table, stack: seq<Frame>, path: Bytes, seen: set<Bytes>, inserted: set<nat>,
                  out: seq<nat>, f: Frame, ids: seq<nat>)
    requires Walking(d, rank, a, stack, path, seen, inserted, out) && Holds(d, table) && IsTable(table) && Trim(d)
    requires stack != [] && f == stack[|stack| - 1] && !f.entered
    requires FrameRest(d, rank, a, f) == ids + FrameRest(d, rank, a, f.(entered := true))
    ensures Key(f.dstate, f.rstate) !in inserted
    ensures var stack' := stack[|stack| - 1 := f.(entered := true)];
            && Walking(d, rank, a, stack', path, seen + {path}, inserted + {Key(f.dstate, f.rstate)}, out + ids)
            && Work(d, rank, a, stack') < Work(d, rank, a, stack)
  {
    hide OnPath, SeenBelow, KeysSeen, Emit, EmitFrom;
    KeyIsNew(d, rank, table, stack, path, seen, inserted);
    Entered(d, stack, path, seen, inserted);
    var below, f' := stack[..|stack| - 1], f.(entered := true);
    assert stack == below + [f] && stack[|stack| - 1 := f'] == below + [f'];
    RestPush(d, rank, a, below, f);
    RestPush(d, rank, a, below, f');
    assert out + (ids + FrameRest(d, rank, a, f') + Rest(d, rank, a, below)) ==
           out + ids + (FrameRest(d, rank, a, f') + Rest(d, rank, a, below));
  }

  lemma DescendStep(d: Dafsa, rank: seq<nat>, a: Dfa, stack: seq<Frame>, path: Bytes, seen: set<Bytes>, inserted: set<nat>,
                    out: seq<nat>, f: Frame, f': Frame, c: Frame)
    requires Walking(d, rank, a, stack, path, seen, inserted, out)
    requires stack != [] && f == stack[|stack| - 1] && f.entered && f' == f.(j := f'.j) && f.j < f'.j
    requires FrameFits(d, a, f') && FrameFits(d, a, c) && ChildOf(d, a, f', c)
    requires FrameRest(d, rank, a, f) == FrameRest(d, rank, a, c) + FrameRest(d, rank, a, f')
    requires TreeSize(d, rank, c.dstate) + TreeFrom(d, rank, f.dstate, f'.j) < TreeFrom(d, rank, f.dstate, f.j)
    ensures var stack' := stack[|stack| - 1 := f'] + [c];
            && Walking(d, rank, a, stack', path + [d.edges[f.dstate][f'.j - 1].sym], seen, inserted, out)
            && Work(d, rank, a, stack') < Work(d, rank, a, stack)
  {
    hide OnPath, SeenBelow, KeysSeen, Emit, EmitFrom, FrameRest, Rest, Work, TreeSize, TreeFrom, Reads, Descends, WellFormed;
    Descended(d, rank, a, stack, path, seen, f', c);
    var below := stack[..|stack| - 1];
    assert stack == below + [f] && stack[|stack| - 1 := f'] == below + [f'];
    RestReplaced(d, rank, a, below, f, f', c);
  }

  lemma RestReplaced(d: Dafsa, rank: seq<nat>, a: Dfa, below: seq<Frame>, f: Frame, f': Frame, c: Frame)
    requires WellFormed(d, rank) && Runnable(a) && StackFits(d, a, below)
    requires FrameFits(d, a, f) && FrameFits(d, a, f') && FrameFits(d, a, c) && f.entered && f'.entered && !c.entered
    requires f.dstate == f'.dstate
    requires FrameRest(d, rank, a, f) == FrameRest(d, rank, a, c) + FrameRest(d, rank, a, f')
    requires TreeSize(d, rank, c.dstate) + TreeFrom(d, rank, f.dstate, f'.j) < TreeFrom(d, rank, f.dstate, f.j)
    ensures StackFits(d, a, below + [f]) && StackFits(d, a, below + [f'] + [c])
    ensures Rest(d, rank, a, below + [f'] + [c]) == Rest(d, rank, a, below + [f])
    ensures Work(d, rank, a, below + [f'] + [c]) < Work(d, rank, a, below + [f])
  {
    hide Emit, EmitFrom, FrameRest, Rest, Work, TreeSize, TreeFrom, WellFormed;
    RestPush(d, rank, a, below, f);
    RestPush(d, rank, a, below, f');
    RestPush(d, rank, a, below + [f'], c);
    assert FrameRest(d, rank, a, c) + FrameRest(d, rank, a, f') + Rest(d, rank, a, below) ==
           FrameRest(d, rank, a, c) + (FrameRest(d, rank, a, f') + Rest(d, rank, a, below));
  }

  lemma AscendStep(d: Dafsa, rank: seq<nat>, a: Dfa, stack: seq<Frame>, path: Bytes, seen: set<Bytes>, inserted: set<nat>, out: seq<nat>, f: Frame)
    requires Walking(d, rank, a, stack, path, seen, inserted, out)
    requires stack != [] && f == stack[|stack| - 1] && f.entered && FrameRest(d, rank, a, f) == []
    ensures var stack' := stack[..|stack| - 1];
            && Walking(d, rank, a, stack', if path == [] then [] else Front(path), seen, inserted, out)
            && Work(d, rank, a, stack') < Work(d, rank, a, stack)
  {
    hide SeenBelow, KeysSeen, Emit, EmitFrom, TreeSize, TreeFrom;
    var below := stack[..|stack| - 1];
    if path != [] { Ascended(d, stack, path, seen); }
    assert stack == below + [f];
    RestPush(d, rank, a, below, f);
    assert [] + Rest(d, rank, a, below) == Rest(d, rank, a, below);
  }

  /** The product walk from the initial pair.  The visited table never stops it. */
  method Walk(d: Dafsa, ghost rank: seq<nat>, a: Dfa, ghost table: Table, hash: nat -> nat) returns (out: seq<nat>)
    requires WellFormed(d, rank) && Holds(d, table) && IsTable(table) && Trim(d) && Runnable(a)
    ensures out == Emit(d, rank, a, d.initial, 0, 0)
  {
    hide OnPath, SeenBelow, KeysSeen, Emit, EmitFrom, FrameRest, Rest, Work, TreeSize, TreeFrom, Holds, IsTable, Trim, ChildOf, WellFormed;
    out := [];
    var visited := new VisitedSet(1024);
    var stack := [Frame(d.initial, 0, 0, 0, false)];
    ghost var path: Bytes, seen: set<Bytes> := [], {};
    WalkStarts(d, rank, a);
    while stack != []
      invariant visited.Valid() && fresh(visited) && fresh(visited.keys)
      invariant Walking(d, rank, a, stack, path, seen, visited.inserted, out)
      decreases Work(d, rank, a, stack)
    {
      var top := |stack| - 1;
      var f := stack[top];
      if !f.entered {
        var ids := EnterFrame(d, rank, a, f);
        EnterStep(d, rank, a, table, stack, path, seen, visited.inserted, out, f, ids);
        var others := stack[..top];
        var present := visited.TryInsert(Key(f.dstate, f.rstate), hash);
        out, f := out + ids, f.(entered := true);
        seen, stack := seen + {path}, stack[top := f];
        if present { stack := others; continue; }
      }
      var f', child := NextChild(d, rank, a, f);
      if child.Some? {
        DescendStep(d, rank, a, stack, path, seen, visited.inserted, out, f, f', child.value);
        path := path + [d.edges[f.dstate][f'.j - 1].sym];
        stack := stack[top := f'] + [child.value];
      } else {
        visited.Remove(Key(f.dstate, f.rstate), hash);
        AscendStep(d, rank, a, stack, path, seen, visited.inserted, out, f);
        path := if path == [] then [] else Front(path);
        stack := stack[..top];
      }
    }
    WalkEnds(d, rank, a, path, seen, visited.inserted, out);
  }

  lemma WalkEnds(d: Dafsa, rank: seq<nat>, a: Dfa, path: Bytes, seen: set<Bytes>, inserted: set<nat>, out: seq<nat>)
    requires Walking(d, rank, a, [], path, seen, inserted, out)
    ensures out == Emit(d, rank, a, d.initial, 0, 0)
  {
  }

  /** The ids of the symbols that end at the state of a frame, if the matcher accepts. */
  method EnterFrame(d: Dafsa, ghost rank: seq<nat>, a: Dfa, f: Frame) returns (ids: seq<nat>)
    requires WellFormed(d, rank) && Runnable(a) && FrameFits(d, a, f) && !f.entered
    ensures FrameRest(d, rank, a, f) == ids + FrameRest(d, rank, a, f.(entered := true))
  {
    ids := [];
    if a.accept[f.rstate] { ids := CollectIds(d, rank, f.dstate); }
  }

  /* ---------- the emission is exact ---------- */

  lemma SymbolAccepted(d: Dafsa, table: Table, name: Bytes, id: nat)
    requires Holds(d, table) && IsTable(table) && (name, id) in table
    ensures AcceptsFrom(d, d.initial, name + [0] + WordOf(id))
  {
    WordOfWord(id);
    assert IsWord(table, name + [0] + WordOf(id));
  }

  /** The zero edge of the state of a string leads to the spelling of its id. */
  lemma IdOfString(d: Dafsa, rank: seq<nat>, table: Table, p: Bytes, s: nat, j: nat)
    requires WellFormed(d, rank) && Holds(d, table) && IsTable(table) && Trim(d) && ZeroFree(p) && Reads(d, d.initial, p, s)
    requires s < |d.edges| && j < |d.edges[s]| && d.edges[s][j].sym == 0
    ensures IdAt(d, d.edges[s][j].target).Some? && (p, IdAt(d, d.edges[s][j].target).value) in table
  {
    hide Reads, AcceptsFrom;
    var t := d.edges[s][j].target;
    assert EdgeDown(d, rank, s, j);
    ReadsEdge(d, s, j);
    ReadsConcat(d, d.initial, p, [0], s, t);
    LiveAfter(d, d.initial, p + [0], t);
    var w :| AcceptsFrom(d, t, w);
    var id := AfterZero(d, rank, table, p, s, j, w);
    forall v | AcceptsFrom(d, t, v) ensures v == w {
      var other := AfterZero(d, rank, table, p, s, j, v);
      WordInjective(v, w);
    }
    SpelledOut(d, rank, t, w, 0);
    ValueIsWord(w);
  }

  lemma AfterZero(d: Dafsa, rank: seq<nat>, table: Table, p: Bytes, s: nat, j: nat, w: Bytes) returns (id: nat)
    requires WellFormed(d, rank) && Holds(d, table) && IsTable(table) && ZeroFree(p) && Reads(d, d.initial, p, s)
    requires s < |d.edges| && j < |d.edges[s]| && d.edges[s][j].sym == 0 && AcceptsFrom(d, d.edges[s][j].target, w)
    ensures |w| == ID_BYTES && id == Word(w) && (p, id) in table
    ensures forall other :: (p, other) in table ==> other == id
  {
    hide Reads, AcceptsFrom;
    AcceptsByEdge(d, rank, s, j, w);
    var u, q := Continuation(d, table, p, s, [0] + w);
    var none: Bytes := [];
    assert none + [0] + w == [0] + w;
    FirstZero(none, w, u, q);
    assert p + u == p;
    id := Word(w);
  }

  predicate Distinct(xs: seq<nat>) {
    forall i, j :: 0 <= i < j < |xs| ==> xs[i] != xs[j]
  }

  lemma {:induction false} IdsExact(d: Dafsa, rank: seq<nat>, table: Table, p: Bytes, s: nat, j: nat)
    requires WellFormed(d, rank) && Holds(d, table) && IsTable(table) && Trim(d) && ZeroFree(p) && Reads(d, d.initial, p, s)
    requires s < |d.edges| && j <= |d.edges[s]|
    ensures forall id :: id in IdsFrom(d, s, j) ==> (p, id) in table
    ensures (exists e :: j <= e < |d.edges[s]| && d.edges[s][e].sym == 0) ==> forall id :: (p, id) in table ==> id in IdsFrom(d, s, j)
    ensures |IdsFrom(d, s, j)| <= 1 && (|IdsFrom(d, s, j)| == 1 ==> exists e :: j <= e < |d.edges[s]| && d.edges[s][e].sym == 0)
    decreases |d.edges[s]| - j
  {
    hide Reads, Holds, Trim;
    if j < |d.edges[s]| {
      IdsExact(d, rank, table, p, s, j + 1);
      if d.edges[s][j].sym == 0 {
        IdOfString(d, rank, table, p, s, j);
        assert forall e :: j + 1 <= e < |d.edges[s]| ==> d.edges[s][e].sym != 0;
      }
    }
  }

  /** The symbols below a prefix that the matcher accepts. */
  ghost predicate Matches(table: Table, a: Dfa, p: Bytes, id: nat)
    requires Runnable(a)
  {
    exists name :: (name, id) in table && p <= name && Accepts(a, name)
  }

  ghost predicate MatchesFrom(d: Dafsa, table: Table, a: Dfa, p: Bytes, s: nat, j: nat, id: nat)
    requires Runnable(a) && s < |d.edges|
  {
    exists e: nat :: j <= e < |d.edges[s]| && d.edges[s][e].sym != 0 && Matches(table, a, p + [d.edges[s][e].sym], id)
  }

  ghost predicate Located(d: Dafsa, rank: seq<nat>, a: Dfa, table: Table, p: Bytes, s: nat, r: nat) {
    && WellFormed(d, rank) && Holds(d, table) && IsTable(table) && Trim(d) && Runnable(a)
    && ZeroFree(p) && Reads(d, d.initial, p, s) && s < |d.edges| && Run(a, 0, p) == r && r != DFA_DEAD
  }

  lemma {:induction false} DeadRun(a: Dfa, p: Bytes, name: Bytes)
    requires Runnable(a) && p <= name && Run(a, 0, p) == DFA_DEAD
    ensures Run(a, 0, name) == DFA_DEAD
    decreases |name|
  {
    if |p| < |name| { DeadRun(a, p, Front(name)); } else { assert p == name; }
  }

  lemma RunStep(a: Dfa, p: Bytes, c: Byte)
    requires Runnable(a) && Run(a, 0, p) != DFA_DEAD
    ensures Run(a, 0, p + [c]) == a.trans[Run(a, 0, p)][c]
  {
    assert Front(p + [c]) == p && Last(p + [c]) == c;
  }

  /** A symbol that continues the prefix does so through an edge. */
  lemma EdgeForSymbol(d: Dafsa, rank: seq<nat>, table: Table, p: Bytes, s: nat, name: Bytes, id: nat) returns (e: nat)
    requires WellFormed(d, rank) && Holds(d, table) && IsTable(table) && Reads(d, d.initial, p, s)
    requires (name, id) in table && p <= name
    ensures s < |d.edges| && e < |d.edges[s]| && d.edges[s][e].sym == if p == name then 0 else name[|p|]
  {
    SymbolAccepted(d, table, name, id);
    var w := name + [0] + WordOf(id);
    var rest := w[|p|..];
    assert w == p + rest by { assert w[..|p|] == name[..|p|]; }
    var t: nat :| Reads(d, d.initial, w, t) && t < |d.final| && d.final[t];
    var m := ReadsSplit(d, d.initial, p, rest, t);
    ReadsUnique(d, rank, d.initial, p, s, m);
    assert AcceptsFrom(d, s, rest);
    e := FirstEdge(d, s, rest);
  }

  /** A symbol below a prefix ends there or continues through an edge. */
  lemma SplitMatches(d: Dafsa, rank: seq<nat>, a: Dfa, table: Table, p: Bytes, s: nat, r: nat, id: nat)
    requires Located(d, rank, a, table, p, s, r)
    ensures Matches(table, a, p, id) <==> (a.accept[r] && id in IdsFrom(d, s, 0)) || MatchesFrom(d, table, a, p, s, 0, id)
  {
    hide Holds, Reads, Trim, IdsFrom;
    IdsExact(d, rank, table, p, s, 0);
    if name :| (name, id) in table && p <= name && Accepts(a, name) {
      var e := EdgeForSymbol(d, rank, table, p, s, name, id);
      if p != name {
        assert name[..|p| + 1] == p + [name[|p|]];
        assert p + [d.edges[s][e].sym] <= name;
        assert Matches(table, a, p + [d.edges[s][e].sym], id);
      }
    }
    if e: nat :| e < |d.edges[s]| && d.edges[s][e].sym != 0 && Matches(table, a, p + [d.edges[s][e].sym], id) {
      var name :| (name, id) in table && p + [d.edges[s][e].sym] <= name && Accepts(a, name);
      Extends(p, d.edges[s][e].sym, name);
    }
    if a.accept[r] && (p, id) in table { assert p <= p && Accepts(a, p); }
  }

  /** One id belongs to one string, so matches below different bytes differ. */
  lemma OneName(table: Table, a: Dfa, p: Bytes, c: Byte, id: nat)
    requires Runnable(a) && IsTable(table) && Matches(table, a, p + [c], id)
    ensures (p, id) !in table
    ensures forall c': Byte :: c' != c ==> !Matches(table, a, p + [c'], id)
  {
    hide Accepts;
    var name :| (name, id) in table && p + [c] <= name && Accepts(a, name);
    Extends(p, c, name);
    forall other | (other, id) in table ensures other == name { assert (other, id) == (name, id); }
    forall c': Byte | c' != c ensures !Matches(table, a, p + [c'], id) { Extends(p, c', name); }
    assert p != name;
  }

  /** Where the walk does not descend there is nothing to find. */
  lemma NotDescended(a: Dfa, table: Table, p: Bytes, r: nat, c: Byte, id: nat)
    requires Runnable(a) && IsTable(table) && Run(a, 0, p) == r && r != DFA_DEAD
    requires c != 0 && !Descends(a, r, |p|, c)
    ensures !Matches(table, a, p + [c], id)
  {
    if name :| (name, id) in table && p + [c] <= name && Accepts(a, name) {
      RunStep(a, p, c);
      if a.trans[r][c] == DFA_DEAD { DeadRun(a, p + [c], name); }
    }
  }

  lemma ChildLocated(d: Dafsa, rank: seq<nat>, a: Dfa, table: Table, p: Bytes, s: nat, r: nat, j: nat)
    requires Located(d, rank, a, table, p, s, r) && j < |d.edges[s]| && Descends(a, r, |p|, d.edges[s][j].sym)
    ensures Located(d, rank, a, table, p + [d.edges[s][j].sym], d.edges[s][j].target, a.trans[r][d.edges[s][j].sym])
  {
    hide Holds, Reads, Trim;
    assert EdgeDown(d, rank, s, j);
    ReadsEdge(d, s, j);
    ReadsConcat(d, d.initial, p, [d.edges[s][j].sym], s, d.edges[s][j].target);
    RunStep(a, p, d.edges[s][j].sym);
  }

  lemma DistinctConcat(xs: seq<nat>, ys: seq<nat>)
    requires Distinct(xs) && Distinct(ys) && forall x :: x in xs ==> x !in ys
    ensures Distinct(xs + ys) && forall x :: x in xs + ys <==> x in xs || x in ys
  {
    var zs := xs + ys;
    forall i, j | 0 <= i < j < |zs| ensures zs[i] != zs[j] {
      if i < |xs| && j >= |xs| { assert xs[i] in xs && ys[j - |xs|] in ys; }
    }
  }

  /** The walk emits every matching symbol below its prefix, each once, and no other. */
  lemma {:induction false} EmitExact(d: Dafsa, rank: seq<nat>, a: Dfa, table: Table, p: Bytes, s: nat, r: nat)
    requires Located(d, rank, a, table, p, s, r)
    ensures Distinct(Emit(d, rank, a, s, r, |p|))
    ensures forall id :: id in Emit(d, rank, a, s, r, |p|) <==> Matches(table, a, p, id)
    decreases rank[s], |d.edges[s]| + 1
  {
    hide Holds, Reads, Trim, Accepts, IdsFrom, EmitFrom, Matches, IsTable;
    EmitFromExact(d, rank, a, table, p, s, r, 0);
    IdsExact(d, rank, table, p, s, 0);
    var ids := if a.accept[r] then IdsFrom(d, s, 0) else [];
    var below := EmitFrom(d, rank, a, s, r, |p|, 0);
    forall id ensures id in ids || id in below <==> Matches(table, a, p, id) { SplitMatches(d, rank, a, table, p, s, r, id); }
    forall id | id in below ensures id !in ids {
      var e: nat :| e < |d.edges[s]| && d.edges[s][e].sym != 0 && Matches(table, a, p + [d.edges[s][e].sym], id);
      OneName(table, a, p, d.edges[s][e].sym, id);
    }
    DistinctConcat(ids, below);
  }

  lemma {:induction false} EmitFromExact(d: Dafsa, rank: seq<nat>, a: Dfa, table: Table, p: Bytes, s: nat, r: nat, j: nat)
    requires Located(d, rank, a, table, p, s, r) && j <= |d.edges[s]|
    ensures Distinct(EmitFrom(d, rank, a, s, r, |p|, j))
    ensures forall id :: id in EmitFrom(d, rank, a, s, r, |p|, j) <==> MatchesFrom(d, table, a, p, s, j, id)
    decreases rank[s], |d.edges[s]| - j
  {
    hide Holds, Reads, Trim, Accepts, Emit, Matches, IsTable;
    if j < |d.edges[s]| {
      assert EdgeDown(d, rank, s, j);
      var c := d.edges[s][j].sym;
      EmitFromExact(d, rank, a, table, p, s, r, j + 1);
      var rest := EmitFrom(d, rank, a, s, r, |p|, j + 1);
      var child := if Descends(a, r, |p|, c) then Emit(d, rank, a, d.edges[s][j].target, a.trans[r][c], |p| + 1) else [];
      if Descends(a, r, |p|, c) {
        ChildLocated(d, rank, a, table, p, s, r, j);
        EmitExact(d, rank, a, table, p + [c], d.edges[s][j].target, a.trans[r][c]);
      }
      forall id ensures id in child <==> c != 0 && Matches(table, a, p + [c], id) {
        if c != 0 && !Descends(a, r, |p|, c) { NotDescended(a, table, p, r, c, id); }
      }
      forall id | id in child ensures id !in rest {
        OneName(table, a, p, c, id);
        forall e: nat | j + 1 <= e < |d.edges[s]| ensures !Matches(table, a, p + [d.edges[s][e].sym], id) {}
      }
      DistinctConcat(child, rest);
      forall id ensures MatchesFrom(d, table, a, p, s, j, id) <==> (c != 0 && Matches(table, a, p + [c], id)) || MatchesFrom(d, table, a, p, s, j + 1, id) {
        FirstOrLater(d, table, a, p, s, j, id);
      }
    }
  }

  lemma FirstOrLater(d: Dafsa, table: Table, a: Dfa, p: Bytes, s: nat, j: nat, id: nat)
    requires Runnable(a) && s < |d.edges| && j < |d.edges[s]|
    ensures MatchesFrom(d, table, a, p, s, j, id) <==>
            (d.edges[s][j].sym != 0 && Matches(table, a, p + [d.edges[s][j].sym], id)) || MatchesFrom(d, table, a, p, s, j + 1, id)
  {
    hide Matches;
  }

  /** Every matching symbol of the table is emitted exactly once. */
  method WalkSymbols(d: Dafsa, ghost rank: seq<nat>, a: Dfa, ghost table: Table, hash: nat -> nat) returns (out: seq<nat>)
    requires WellFormed(d, rank) && Holds(d, table) && IsTable(table) && Trim(d) && Runnable(a)
    ensures Distinct(out)
    ensures forall id: nat :: id in out <==> exists name :: (name, id) in table && Accepts(a, name)
  {
    hide Holds, Reads, Trim, Accepts, Emit, EmitFrom;
    out := Walk(d, rank, a, table, hash);
    ReadsNothing(d);
    EmitExact(d, rank, a, table, [], d.initial, 0);
    forall id: nat ensures Matches(table, a, [], id) <==> exists name :: (name, id) in table && Accepts(a, name) {
      if name :| (name, id) in table && Accepts(a, name) { assert [] <= name; }
    }
  }

  lemma ReadsNothing(d: Dafsa)
    requires d.initial < |d.edges|
    ensures Reads(d, d.initial, [], d.initial)
  {
  }
}
