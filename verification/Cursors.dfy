/** Pull cursors over a stored relation, and the merge join of two of them.

    A cursor walks the automaton of the relation depth first with an explicit stack
    and hands out one tuple per call, in ascending order.  The join pulls from two of
    them.
 */
module Cursors {
  import opened Automaton
  import opened ByteStrings
  import opened Options
  import opened OrderStatistics
  import opened Sequences
  import opened Tuples

  /* ---------- what is left of a walk ---------- */

  /** A state of the walk and the first of its edges not yet followed. */
  datatype Frame = Frame(state: nat, next: nat)

  /** Keys of one relation have one length, so no key goes on where another ends. */
  ghost predicate FinalIsLeaf(d: Dafsa) {
    |d.final| == |d.edges| && forall s :: 0 <= s < |d.final| && d.final[s] ==> d.edges[s] == []
  }

  ghost predicate Stored(d: Dafsa, rank: seq<nat>) {
    WellFormed(d, rank) && EdgesSorted(d) && FinalIsLeaf(d)
  }

  ghost function PrefixAll(path: Bytes, ws: seq<Bytes>): (us: seq<Bytes>)
    ensures |us| == |ws| && forall i :: 0 <= i < |ws| ==> us[i] == path + ws[i]
  {
    seq(|ws|, i requires 0 <= i < |ws| => path + ws[i])
  }

  ghost predicate Fits(d: Dafsa, frames: seq<Frame>, buf: Bytes) {
    && (frames != [] ==> |buf| >= |frames| - 1)
    && forall i :: 0 <= i < |frames| ==> frames[i].state < |d.edges| && frames[i].next <= |d.edges[frames[i].state]|
  }

  /** Words below a frame that are still to come. */
  ghost function Pending(d: Dafsa, rank: seq<nat>, f: Frame): seq<Bytes>
    requires WellFormed(d, rank) && f.state < |d.edges| && f.next <= |d.edges[f.state]|
  {
    (if d.final[f.state] then [[]] else []) + WordsFrom(d, rank, f.state, f.next)
  }

  /** Words the walk has still to hand out: those of the top frame first. */
  ghost function ToCome(d: Dafsa, rank: seq<nat>, frames: seq<Frame>, buf: Bytes): seq<Bytes>
    requires WellFormed(d, rank) && Fits(d, frames, buf)
    decreases |frames|
  {
    if frames == [] then []
    else
      var m := |frames| - 1;
      PrefixAll(buf[..m], Pending(d, rank, frames[m])) + ToCome(d, rank, frames[..m], buf)
  }

  ghost function Work(d: Dafsa, rank: seq<nat>, frames: seq<Frame>, buf: Bytes): nat
    requires WellFormed(d, rank) && Fits(d, frames, buf)
    decreases |frames|
  {
    if frames == [] then 0
    else
      var top := frames[|frames| - 1];
      1 + TreeFrom(d, rank, top.state, top.next) + Work(d, rank, frames[..|frames| - 1], buf)
  }

  lemma {:induction false} ToComeOnPath(d: Dafsa, rank: seq<nat>, frames: seq<Frame>, buf: Bytes, buf': Bytes)
    requires WellFormed(d, rank) && Fits(d, frames, buf) && Fits(d, frames, buf')
    requires frames != [] ==> buf[..|frames| - 1] == buf'[..|frames| - 1]
    ensures ToCome(d, rank, frames, buf) == ToCome(d, rank, frames, buf')
    ensures Work(d, rank, frames, buf) == Work(d, rank, frames, buf')
    decreases |frames|
  {
    if |frames| > 1 {
      var m := |frames| - 1;
      assert buf[..m - 1] == buf[..m][..m - 1] && buf'[..m - 1] == buf'[..m][..m - 1];
      ToComeOnPath(d, rank, frames[..m], buf, buf');
    }
  }

  lemma PrefixSplit(path: Bytes, sym: Byte, ws: seq<Bytes>, more: seq<Bytes>)
    ensures PrefixAll(path, Prefixed(sym, ws) + more) == PrefixAll(path + [sym], ws) + PrefixAll(path, more)
  {
    forall i | 0 <= i < |ws| ensures path + ([sym] + ws[i]) == (path + [sym]) + ws[i] {}
  }

  lemma PendingSplit(d: Dafsa, rank: seq<nat>, s: nat, j: nat)
    requires Stored(d, rank) && s < |d.edges| && j < |d.edges[s]| && !d.final[s]
    ensures d.edges[s][j].target < |d.edges|
    ensures Pending(d, rank, Frame(s, j)) ==
            Prefixed(d.edges[s][j].sym, Pending(d, rank, Frame(d.edges[s][j].target, 0))) + Pending(d, rank, Frame(s, j + 1))
    ensures TreeFrom(d, rank, d.edges[s][j].target, 0) + TreeFrom(d, rank, s, j + 1) + 3 == TreeFrom(d, rank, s, j)
  {
    assert EdgeDown(d, rank, s, j);
    assert Pending(d, rank, Frame(d.edges[s][j].target, 0)) == Words(d, rank, d.edges[s][j].target);
  }

  /** Following one edge changes neither the words to come nor their order. */
  lemma Descend(d: Dafsa, rank: seq<nat>, below: seq<Frame>, s: nat, j: nat, buf: Bytes)
    requires Stored(d, rank) && Fits(d, below + [Frame(s, j)], buf) && s < |d.edges| && j < |d.edges[s]| && !d.final[s]
    ensures var e, path := d.edges[s][j], buf[..|below|];
            var frames, frames' := below + [Frame(s, j)], below + [Frame(s, j + 1)] + [Frame(e.target, 0)];
            && Fits(d, frames', path + [e.sym])
            && ToCome(d, rank, frames', path + [e.sym]) == ToCome(d, rank, frames, buf)
            && Work(d, rank, frames', path + [e.sym]) < Work(d, rank, frames, buf)
  {
    assert EdgeDown(d, rank, s, j);
    var e, path := d.edges[s][j], buf[..|below|];
    var buf', middle := path + [e.sym], below + [Frame(s, j + 1)];
    DescendFits(d, below, s, j, buf);
    PendingSplit(d, rank, s, j);
    DescendPaths(below, path, e.sym, buf);
    assert |middle| == |below| + 1;
    TopFirst(d, rank, below, Frame(s, j), buf);
    TopFirst(d, rank, below, Frame(s, j + 1), buf');
    TopFirst(d, rank, middle, Frame(e.target, 0), buf');
    hide *;
    ToComeOnPath(d, rank, below, buf, buf');
    var T := ToCome(d, rank, below, buf);
    var X, Y := PrefixAll(buf', Pending(d, rank, Frame(e.target, 0))), PrefixAll(path, Pending(d, rank, Frame(s, j + 1)));
    PrefixSplit(path, e.sym, Pending(d, rank, Frame(e.target, 0)), Pending(d, rank, Frame(s, j + 1)));
    assert ToCome(d, rank, below + [Frame(s, j)], buf) == (X + Y) + T;
    assert ToCome(d, rank, middle + [Frame(e.target, 0)], buf') == X + (Y + T);
    Regroup(X, Y, T);
  }

  lemma DescendPaths(below: seq<Frame>, path: Bytes, sym: Byte, buf: Bytes)
    requires |buf| >= |below| && path == buf[..|below|]
    ensures (path + [sym])[..|below|] == path && (path + [sym])[..|below| + 1] == path + [sym]
    ensures below != [] ==> (path + [sym])[..|below| - 1] == buf[..|below| - 1]
  {
  }

  lemma TopFirst(d: Dafsa, rank: seq<nat>, below: seq<Frame>, top: Frame, buf: Bytes)
    requires WellFormed(d, rank) && Fits(d, below + [top], buf)
    ensures Fits(d, below, buf) && |buf| >= |below|
    ensures top.state < |d.edges| && top.next <= |d.edges[top.state]|
    ensures ToCome(d, rank, below + [top], buf) ==
            PrefixAll(buf[..|below|], Pending(d, rank, top)) + ToCome(d, rank, below, buf)
    ensures Work(d, rank, below + [top], buf) == 1 + TreeFrom(d, rank, top.state, top.next) + Work(d, rank, below, buf)
  {
    var frames := below + [top];
    assert frames[|below|] == top && frames[..|below|] == below;
    assert forall i :: 0 <= i < |below| ==> frames[i] == below[i];
    ToComeUnfold(d, rank, frames, buf);
  }

  lemma DescendFits(d: Dafsa, below: seq<Frame>, s: nat, j: nat, buf: Bytes)
    requires Fits(d, below + [Frame(s, j)], buf) && s < |d.edges| && j < |d.edges[s]| && d.edges[s][j].target < |d.edges|
    ensures |buf| >= |below| && Fits(d, below, buf) && Fits(d, below, buf[..|below|] + [d.edges[s][j].sym])
    ensures var buf' := buf[..|below|] + [d.edges[s][j].sym];
            Fits(d, below + [Frame(s, j + 1)], buf') &&
            Fits(d, below + [Frame(s, j + 1)] + [Frame(d.edges[s][j].target, 0)], buf')
  {
    var frames := below + [Frame(s, j)];
    assert forall i :: 0 <= i < |below| ==> frames[i] == below[i];
  }

  lemma ToComeUnfold(d: Dafsa, rank: seq<nat>, frames: seq<Frame>, buf: Bytes)
    requires WellFormed(d, rank) && Fits(d, frames, buf) && frames != []
    ensures var m := |frames| - 1;
            ToCome(d, rank, frames, buf) == PrefixAll(buf[..m], Pending(d, rank, frames[m])) + ToCome(d, rank, frames[..m], buf)
    ensures var m := |frames| - 1;
            Work(d, rank, frames, buf) == 1 + TreeFrom(d, rank, frames[m].state, frames[m].next) + Work(d, rank, frames[..m], buf)
  {
  }

  /** Dropping a frame gives up only what it still had to hand out. */
  lemma Ascend(d: Dafsa, rank: seq<nat>, frames: seq<Frame>, buf: Bytes)
    requires Stored(d, rank) && Fits(d, frames, buf) && frames != []
    requires var top := frames[|frames| - 1]; top.next == |d.edges[top.state]|
    ensures var m := |frames| - 1;
            && Fits(d, frames[..m], buf) && Work(d, rank, frames[..m], buf) < Work(d, rank, frames, buf)
            && ToCome(d, rank, frames, buf) ==
               (if d.final[frames[m].state] then [buf[..m]] else []) + ToCome(d, rank, frames[..m], buf)
  {
    hide ToCome, Work, TreeFrom, WellFormed, EdgesSorted, Pending, PrefixAll, WordsFrom;
    var m := |frames| - 1;
    FitsBelow(d, frames, buf);
    ToComeUnfold(d, rank, frames, buf);
    SpentFrame(d, rank, frames[m], buf[..m]);
  }

  lemma FitsBelow(d: Dafsa, frames: seq<Frame>, buf: Bytes)
    requires Fits(d, frames, buf) && frames != []
    ensures Fits(d, frames[..|frames| - 1], buf) && |buf| >= |frames| - 1
  {
  }

  /** A frame past its last edge can only hand out its own path. */
  lemma SpentFrame(d: Dafsa, rank: seq<nat>, f: Frame, path: Bytes)
    requires WellFormed(d, rank) && f.state < |d.edges| && f.next == |d.edges[f.state]|
    ensures PrefixAll(path, Pending(d, rank, f)) == if d.final[f.state] then [path] else []
  {
    assert WordsFrom(d, rank, f.state, f.next) == [];
    assert path + [] == path;
  }

  /* ---------- the cursor ---------- */

  function TupleOf(word: Bytes, leading: Tuple, arity: nat): Tuple {
    if |leading| <= arity then leading + Decode(word, arity - |leading|) else leading
  }

  ghost function TuplesOf(ws: seq<Bytes>, leading: Tuple, arity: nat): (ts: seq<Tuple>)
    ensures |ts| == |ws| && forall i :: 0 <= i < |ws| ==> ts[i] == TupleOf(ws[i], leading, arity)
  {
    seq(|ws|, i requires 0 <= i < |ws| => TupleOf(ws[i], leading, arity))
  }

  lemma TuplesTail(ws: seq<Bytes>, leading: Tuple, arity: nat)
    ensures ws != [] ==> TuplesOf(ws[1..], leading, arity) == TuplesOf(ws, leading, arity)[1..]
  {
  }

  class Cursor {
    const d: Dafsa
    const arity: nat
    ghost const rank: seq<nat>
    var leading: Tuple
    var frames: seq<Frame>
    var buf: Bytes

    ghost predicate Valid()
      reads this
    {
      Stored(d, rank) && Fits(d, frames, buf) && |leading| <= arity
    }

    /** The tuples still to come. */
    ghost function Remaining(): seq<Tuple>
      reads this
      requires Valid()
    {
      TuplesOf(ToCome(d, rank, frames, buf), leading, arity)
    }

    /** Open at the first tuple that starts with `leading`; no such tuple is an empty
        cursor, not an error. */
    constructor (d: Dafsa, ghost rank: seq<nat>, arity: nat, leading: Tuple, ghost R: set<Tuple>)
      requires Stored(d, rank) && Stores(d, R, arity)
      requires |leading| <= arity && IsTuple(leading, |leading|)
      ensures Valid() && this.d == d && this.rank == rank && this.arity == arity && this.leading == leading
      ensures TuplesAscend(Remaining()) && forall t :: t in Remaining() <==> t in Bound(R, leading)
    {
      this.d := d;
      this.rank := rank;
      this.arity := arity;
      this.leading := leading;
      frames, buf := [], [];
      new;
      Rebind(leading, R);
    }

    method Rebind(bound: Tuple, ghost R: set<Tuple>)
      requires Stored(d, rank) && Stores(d, R, arity) && |bound| <= arity && IsTuple(bound, |bound|)
      modifies this
      ensures Valid() && leading == bound
      ensures TuplesAscend(Remaining()) && forall t :: t in Remaining() <==> t in Bound(R, bound)
    {
      leading := bound;
      var root := PrefixState(d, rank, bound);
      if root.None? {
        frames, buf := [], [];
        AbsentBound(d, R, arity, bound);
      } else {
        frames, buf := [Frame(root.value, 0)], [];
        ToComeOfRoot(d, rank, root.value);
        BoundTuples(d, rank, R, arity, bound, root.value);
      }
    }

    /** Re-bind the cursor; a bound longer than the tuples is refused. */
    method Seek(bound: Tuple, ghost R: set<Tuple>) returns (ok: bool)
      requires Valid() && Stores(d, R, arity) && IsTuple(bound, |bound|)
      modifies this
      ensures Valid() && (ok <==> |bound| <= arity)
      ensures !ok ==> Remaining() == old(Remaining())
      ensures ok ==> TuplesAscend(Remaining()) && forall t :: t in Remaining() <==> t in Bound(R, bound)
    {
      ok := |bound| <= arity;
      if ok { Rebind(bound, R); }
    }

    /** The next tuple in order, exactly once each; the end is reported for ever. */
    method Next() returns (t: Option<Tuple>)
      requires Valid()
      modifies this`frames, this`buf
      ensures Valid()
      ensures old(Remaining()) == [] ==> t.None? && Remaining() == []
      ensures old(Remaining()) != [] ==> t == Some(old(Remaining())[0]) && Remaining() == old(Remaining())[1..]
    {
      hide ToCome, TupleOf;
      var word: Option<Bytes>;
      TuplesTail(ToCome(d, rank, frames, buf), leading, arity);
      word, frames, buf := Advance(d, rank, frames, buf);
      t := if word.Some? then Some(TupleOf(word.value, leading, arity)) else None;
    }
  }

  /** Run the walk to its next word: emit at a final state and drop it, else follow the
      next edge, else drop the state. */
  method Advance(d: Dafsa, ghost rank: seq<nat>, frames0: seq<Frame>, buf0: Bytes)
      returns (word: Option<Bytes>, frames: seq<Frame>, buf: Bytes)
    requires Stored(d, rank) && Fits(d, frames0, buf0)
    ensures Fits(d, frames, buf)
    ensures var all, rest := ToCome(d, rank, frames0, buf0), ToCome(d, rank, frames, buf);
            if all == [] then word.None? && rest == [] else word == Some(all[0]) && rest == all[1..]
  {
    frames, buf := frames0, buf0;
    ghost var all := ToCome(d, rank, frames0, buf0);
    while frames != []
      invariant Fits(d, frames, buf) && ToCome(d, rank, frames, buf) == all
      decreases Work(d, rank, frames, buf)
    {
      var emitted;
      emitted, frames, buf := WalkStep(d, rank, frames, buf);
      if emitted.Some? { return emitted, frames, buf; }
    }
    word := None;
  }

  method WalkStep(d: Dafsa, ghost rank: seq<nat>, frames: seq<Frame>, buf: Bytes)
      returns (word: Option<Bytes>, frames': seq<Frame>, buf': Bytes)
    requires Stored(d, rank) && Fits(d, frames, buf) && frames != []
    ensures Fits(d, frames', buf') && Work(d, rank, frames', buf') < Work(d, rank, frames, buf)
    ensures var all, rest := ToCome(d, rank, frames, buf), ToCome(d, rank, frames', buf');
            if word.Some? then all != [] && word.value == all[0] && rest == all[1..] else rest == all
  {
    hide ToCome, Work;
    var m := |frames| - 1;
    var top := frames[m];
    assert frames == frames[..m] + [Frame(top.state, top.next)];
    word, frames', buf' := None, frames[..m], buf;
    if d.final[top.state] || top.next == |d.edges[top.state]| {
      Ascend(d, rank, frames, buf);
      ghost var rest := ToCome(d, rank, frames', buf);
      assert [] + rest == rest && ([buf[..m]] + rest)[1..] == rest;
      if d.final[top.state] { word := Some(buf[..m]); }
    } else {
      var e := d.edges[top.state][top.next];
      Descend(d, rank, frames[..m], top.state, top.next, buf);
      frames', buf' := frames[..m] + [Frame(top.state, top.next + 1)] + [Frame(e.target, 0)], buf[..m] + [e.sym];
    }
  }

  lemma ToComeOfRoot(d: Dafsa, rank: seq<nat>, s: nat)
    requires WellFormed(d, rank) && s < |d.edges|
    ensures Fits(d, [Frame(s, 0)], []) && ToCome(d, rank, [Frame(s, 0)], []) == Words(d, rank, s)
  {
    var frames := [Frame(s, 0)];
    assert frames[..0] == [];
    ToComeUnfold(d, rank, frames, []);
    assert PrefixAll([], Words(d, rank, s)) == Words(d, rank, s) by {
      forall i | 0 <= i < |Words(d, rank, s)| ensures [] + Words(d, rank, s)[i] == Words(d, rank, s)[i] {}
    }
  }

  /** The words from the state of a bound, as tuples: the tuples of the bound in
      ascending order. */
  lemma BoundTuples(d: Dafsa, rank: seq<nat>, R: set<Tuple>, n: nat, leading: Tuple, s: nat)
    requires Stored(d, rank) && Stores(d, R, n) && IsTuple(leading, |leading|) && |leading| <= n
    requires Reads(d, d.initial, Columns(leading), s) && s < |d.edges|
    ensures var ts := TuplesOf(Words(d, rank, s), leading, n);
            TuplesAscend(ts) && forall t :: t in ts <==> t in Bound(R, leading)
  {
    var ws, ts, k := Words(d, rank, s), TuplesOf(Words(d, rank, s), leading, n), |leading|;
    WordsAscend(d, rank, s);
    forall i | 0 <= i < |ws| ensures ts[i] in Bound(R, leading) && ws[i] == Rest(ts[i], k) {
      WordsAccepted(d, rank, s, ws[i]);
      BoundWords(d, rank, R, n, leading, s, ws[i]);
      var t :| t in Bound(R, leading) && ws[i] == Rest(t, k);
      TupleOfRest(t, n, leading);
    }
    forall t | t in Bound(R, leading) ensures t in ts {
      BoundWords(d, rank, R, n, leading, s, Rest(t, k));
      WordsAccepted(d, rank, s, Rest(t, k));
      var i :| 0 <= i < |ws| && ws[i] == Rest(t, k);
      TupleOfRest(t, n, leading);
      assert ts[i] == t;
    }
    forall i, j | 0 <= i < j < |ts| ensures TupleBelow(ts[i], ts[j]) {
      assert ts[i] in Bound(R, leading) && ts[j] in Bound(R, leading);
      RestOrder(ts[i], ts[j], n, k);
    }
  }

  lemma TupleOfRest(t: Tuple, n: nat, leading: Tuple)
    requires IsTuple(t, n) && leading <= t
    ensures TupleOf(Rest(t, |leading|), leading, n) == t
  {
    DecodeEncoded(t[|leading|..], n - |leading|);
    assert t == leading + t[|leading|..];
  }

  /* ---------- the merge join ---------- */

  type Pair = (Tuple, Tuple)

  predicate SameKey(l: Tuple, r: Tuple, j: nat) {
    j <= |l| && j <= |r| && l[..j] == r[..j]
  }

  /** Rows of `rs` with the key of `l`, paired with it, in order. */
  function Partners(l: Tuple, rs: seq<Tuple>, j: nat): seq<Pair> {
    if rs == [] then []
    else (if SameKey(l, rs[0], j) then [(l, rs[0])] else []) + Partners(l, rs[1..], j)
  }

  /** The nested-loop join. */
  function Pairs(ls: seq<Tuple>, rs: seq<Tuple>, j: nat): seq<Pair> {
    if ls == [] then [] else Partners(ls[0], rs, j) + Pairs(ls[1..], rs, j)
  }

  /** Rows whose first `j` columns never fall. */
  ghost predicate KeysRise(ts: seq<Tuple>, j: nat) {
    (forall i :: 0 <= i < |ts| ==> |ts[i]| >= j) &&
    forall i, k :: 0 <= i < k < |ts| ==> !TupleBelow(ts[k][..j], ts[i][..j])
  }

  lemma {:induction false} PartnersJoined(l: Tuple, xs: seq<Tuple>, ys: seq<Tuple>, j: nat)
    ensures Partners(l, xs + ys, j) == Partners(l, xs, j) + Partners(l, ys, j)
  {
    hide SameKey;
    if xs == [] {
      assert xs + ys == ys;
      assert Partners(l, [], j) == [];
    } else {
      PartnersJoined(l, xs[1..], ys, j);
      var first := if SameKey(l, xs[0], j) then [(l, xs[0])] else [];
      assert Partners(l, xs, j) == first + Partners(l, xs[1..], j);
      assert Partners(l, xs + ys, j) == first + Partners(l, xs[1..] + ys, j) by {
        assert (xs + ys)[0] == xs[0] && (xs + ys)[1..] == xs[1..] + ys;
      }
    }
  }

  lemma {:induction false} NoPartners(l: Tuple, rs: seq<Tuple>, j: nat)
    requires forall i :: 0 <= i < |rs| ==> !SameKey(l, rs[i], j)
    ensures Partners(l, rs, j) == []
  {
    if rs != [] { NoPartners(l, rs[1..], j); }
  }

  /** Pairs of one left row with a run of right rows. */
  function RunPairs(l: Tuple, run: seq<Tuple>): (ps: seq<Pair>)
    ensures |ps| == |run| && forall i :: 0 <= i < |run| ==> ps[i] == (l, run[i])
  {
    seq(|run|, i requires 0 <= i < |run| => (l, run[i]))
  }

  lemma {:induction false} PartnersOfRun(l: Tuple, run: seq<Tuple>, j: nat)
    requires forall i :: 0 <= i < |run| ==> SameKey(l, run[i], j)
    ensures Partners(l, run, j) == RunPairs(l, run)
  {
    if run != [] {
      PartnersOfRun(l, run[1..], j);
      assert RunPairs(l, run) == [(l, run[0])] + RunPairs(l, run[1..]);
    }
  }

  predicate Misses(l: Tuple, xs: seq<Tuple>, j: nat) {
    forall k :: 0 <= k < |xs| ==> !SameKey(l, xs[k], j)
  }

  /** Right rows that no left row meets may be dropped. */
  lemma {:induction false} PairsWithout(ls: seq<Tuple>, xs: seq<Tuple>, ys: seq<Tuple>, j: nat)
    requires forall i :: 0 <= i < |ls| ==> Misses(ls[i], xs, j)
    ensures Pairs(ls, xs + ys, j) == Pairs(ls, ys, j)
  {
    if ls != [] {
      PairsWithout(ls[1..], xs, ys, j);
      PartnersWithout(ls[0], xs, ys, j);
      hide Misses, Partners;
    }
  }

  lemma PartnersWithout(l: Tuple, xs: seq<Tuple>, ys: seq<Tuple>, j: nat)
    requires Misses(l, xs, j)
    ensures Partners(l, xs + ys, j) == Partners(l, ys, j)
  {
    NoPartners(l, xs, j);
    PartnersJoined(l, xs, ys, j);
  }

  lemma {:induction false} PairsOfNothing(ls: seq<Tuple>, j: nat)
    ensures Pairs(ls, [], j) == []
  {
    if ls != [] { PairsOfNothing(ls[1..], j); }
  }

  /** A row with a smaller key than the first row of a rising list meets none of it. */
  lemma BelowAll(t: Tuple, ts: seq<Tuple>, j: nat)
    requires KeysRise(ts, j) && ts != [] && |t| >= j && TupleBelow(t[..j], ts[0][..j])
    ensures forall i :: 0 <= i < |ts| ==> t[..j] != ts[i][..j]
  {
    forall i | 0 <= i < |ts| ensures t[..j] != ts[i][..j] {
      TupleTotal(t[..j], ts[0][..j], j);
      if i > 0 { assert !TupleBelow(ts[i][..j], ts[0][..j]); }
    }
  }

  lemma RiseTail(ts: seq<Tuple>, k: nat, j: nat)
    requires KeysRise(ts, j) && k <= |ts|
    ensures KeysRise(ts[k..], j)
  {
  }

  /** Ascending tuples have rising keys. */
  lemma AscendingKeys(ts: seq<Tuple>, n: nat, j: nat)
    requires TuplesAscend(ts) && j <= n && forall i :: 0 <= i < |ts| ==> |ts[i]| == n
    ensures KeysRise(ts, j)
  {
    forall i, k | 0 <= i < k < |ts| ensures !TupleBelow(ts[k][..j], ts[i][..j]) {
      if TupleBelow(ts[k][..j], ts[i][..j]) { PrefixBelow(ts[k], ts[i], j); TupleTotal(ts[i], ts[i], n); TupleTrans(ts[i], ts[k], ts[i]); }
    }
  }

  /** The callback never asked to stop. */
  ghost predicate Quiet(out: seq<Pair>, stop: seq<Pair> -> bool) {
    forall n :: 0 < n <= |out| ==> !stop(out[..n])
  }

  /** The join was stopped by the callback after `out`, the first pairs of `goal`. */
  ghost predicate Cut(goal: seq<Pair>, out: seq<Pair>, stop: seq<Pair> -> bool) {
    out != [] && out <= goal && stop(out) && Quiet(out[..|out| - 1], stop)
  }

  function LastPair(out: seq<Pair>): Pair
    requires out != []
  {
    out[|out| - 1]
  }

  /** Hand one left row with every row of the run to the callback. */
  method EmitRun(l: Tuple, run: seq<Tuple>, before: seq<Pair>, stop: seq<Pair> -> bool, ghost goal: seq<Pair>)
      returns (out: seq<Pair>, stopped: bool)
    requires Quiet(before, stop) && before + RunPairs(l, run) <= goal
    ensures stopped ==> Cut(goal, out, stop) && LastPair(out).0 == l && LastPair(out).1 in run
    ensures !stopped ==> out == before + RunPairs(l, run) && Quiet(out, stop)
  {
    out, stopped := before, false;
    var i := 0;
    assert RunPairs(l, run)[..0] == [];
    while i < |run|
      invariant 0 <= i <= |run| && out == before + RunPairs(l, run)[..i] && Quiet(out, stop)
    {
      ghost var last := out;
      out := out + [(l, run[i])];
      assert out == before + RunPairs(l, run)[..i + 1] && out[..|last|] == last;
      assert out <= before + RunPairs(l, run);
      if stop(out) {
        PrefixTrans(out, before + RunPairs(l, run), goal);
        return out, true;
      }
      QuietNext(last, out, stop);
      i := i + 1;
    }
    assert RunPairs(l, run)[..|run|] == RunPairs(l, run);
  }

  lemma PrefixTrans(x: seq<Pair>, y: seq<Pair>, z: seq<Pair>)
    requires x <= y <= z
    ensures x <= z
  {
  }

  lemma QuietNext(last: seq<Pair>, out: seq<Pair>, stop: seq<Pair> -> bool)
    requires Quiet(last, stop) && |out| == |last| + 1 && out[..|last|] == last && !stop(out)
    ensures Quiet(out, stop)
  {
    forall n | 0 < n <= |out| ensures !stop(out[..n]) {
      if n <= |last| { assert out[..n] == last[..n]; } else { assert out[..n] == out; }
    }
  }

  /** One left row against a right side that begins with its run. */
  lemma PairsOfFirst(l: Tuple, more: seq<Tuple>, run: seq<Tuple>, rest: seq<Tuple>, j: nat)
    requires forall i :: 0 <= i < |run| ==> SameKey(l, run[i], j)
    requires forall i :: 0 <= i < |rest| ==> !SameKey(l, rest[i], j)
    ensures Pairs([l] + more, run + rest, j) == RunPairs(l, run) + Pairs(more, run + rest, j)
  {
    assert ([l] + more)[1..] == more;
    PartnersJoined(l, run, rest, j);
    PartnersOfRun(l, run, j);
    NoPartners(l, rest, j);
  }

  /** A cursor over `ts` that has handed out `t`, row `i`, or has come to the end. */
  ghost predicate Stands(c: Cursor, ts: seq<Tuple>, i: nat, t: Option<Tuple>)
    reads c
  {
    c.Valid() && i <= |ts| &&
    if i < |ts| then t == Some(ts[i]) && c.Remaining() == ts[i + 1..] else t.None? && c.Remaining() == []
  }

  lemma StandsAt(c: Cursor, ts: seq<Tuple>, i: nat, t: Option<Tuple>)
    requires Stands(c, ts, i, t)
    ensures i <= |ts| && (if i < |ts| then t == Some(ts[i]) else t.None?) && c.Valid()
    ensures c.Remaining() == if i < |ts| then ts[i + 1..] else []
  {
  }

  /** The first row of a cursor. */
  method First(c: Cursor, ghost ts: seq<Tuple>) returns (t: Option<Tuple>)
    requires c.Valid() && c.Remaining() == ts
    modifies c`frames, c`buf
    ensures Stands(c, ts, 0, t)
  {
    t := c.Next();
  }

  /** The row behind row `i`. */
  method Fetch(c: Cursor, ghost ts: seq<Tuple>, ghost i: nat, ghost last: Option<Tuple>) returns (t: Option<Tuple>)
    requires Stands(c, ts, i, last) && i < |ts|
    modifies c`frames, c`buf
    ensures Stands(c, ts, i + 1, t)
  {
    hide ToCome, TuplesOf;
    t := c.Next();
  }

  /** Pull a cursor to its end. */
  method Drain(c: Cursor, ghost ts: seq<Tuple>, ghost i0: nat, t0: Option<Tuple>)
    requires Stands(c, ts, i0, t0)
    modifies c`frames, c`buf
    ensures c.Valid() && c.Remaining() == []
  {
    var t := t0;
    ghost var i := i0;
    StandsAt(c, ts, i, t);
    hide Stands, Stored, Fits, ToCome, TuplesOf;
    while t.Some?
      invariant Stands(c, ts, i, t) && i <= |ts| && (t.Some? <==> i < |ts|)
      decreases |ts| - i
    {
      t := Fetch(c, ts, i, t);
      i := i + 1;
      StandsAt(c, ts, i, t);
    }
    StandsAt(c, ts, i, t);
  }

  /** Rows `i` to `end` have the key of row `i`; so has row `end` when there is `more`,
      and otherwise the run ends before it. */
  ghost predicate Running(ts: seq<Tuple>, i: nat, end: nat, j: nat, more: bool) {
    && i <= end <= |ts| && (forall k :: i <= k < end ==> SameKey(ts[i], ts[k], j))
    && if more then end < |ts| && SameKey(ts[i], ts[end], j) else i < end && (end < |ts| ==> !SameKey(ts[i], ts[end], j))
  }

  lemma RunStarts(ts: seq<Tuple>, i: nat, j: nat)
    requires i < |ts| && j <= |ts[i]|
    ensures Running(ts, i, i, j, true) && Buffered(ts, i, i, true, [ts[i]])
    ensures SameKey(ts[i], ts[i], j)
  {
    assert SameKey(ts[i], ts[i], j);
  }

  lemma RunGrows(ts: seq<Tuple>, i: nat, end: nat, j: nat, more: bool)
    requires Running(ts, i, end, j, true) && (more <==> end + 1 < |ts| && SameKey(ts[i], ts[end + 1], j))
    ensures Running(ts, i, end + 1, j, more)
  {
    hide SameKey;
  }

  /** The rows fetched for a run, the current one included while there is more. */
  ghost predicate Buffered(ts: seq<Tuple>, i: nat, end: nat, more: bool, run: seq<Tuple>) {
    i <= end <= |ts| && if more then end < |ts| && run == ts[i..end + 1] else run == ts[i..end]
  }

  lemma BufferGrows(ts: seq<Tuple>, i: nat, end: nat, run: seq<Tuple>, more: bool)
    requires Buffered(ts, i, end, true, run) && (more ==> end + 1 < |ts|)
    ensures Buffered(ts, i, end + 1, more, if more then run + [ts[end + 1]] else run)
  {
  }

  lemma RunEnds(ts: seq<Tuple>, i: nat, end: nat, j: nat)
    requires Running(ts, i, end, j, false) && KeysRise(ts, j)
    ensures i < end <= |ts| && forall k :: end <= k < |ts| ==> TupleBelow(ts[i][..j], ts[k][..j])
    ensures forall k :: i <= k < end ==> SameKey(ts[i], ts[k], j)
  {
    hide TupleBelow;
    if end < |ts| { KeyGrows(ts, i, end, j); }
  }

  lemma KeyAlike(a: Tuple, b: Tuple, c: Tuple, j: nat)
    requires SameKey(a, c, j)
    ensures SameKey(b, c, j) <==> SameKey(a, b, j)
  {
  }

  /** Fetch the row behind row `end` and see whether it has the key of `key`. */
  method NextOfRun(c: Cursor, ghost ts: seq<Tuple>, ghost i: nat, ghost end: nat, ghost last: Option<Tuple>, key: Tuple, j: nat)
      returns (t: Option<Tuple>, more: bool)
    requires Stands(c, ts, end, last) && Running(ts, i, end, j, true) && SameKey(ts[i], key, j)
    modifies c`frames, c`buf
    ensures end < |ts| && Stands(c, ts, end + 1, t) && Running(ts, i, end + 1, j, more)
    ensures more ==> end + 1 < |ts| && t == Some(ts[end + 1]) && SameKey(ts[end + 1], key, j)
  {
    hide Stands, Stored, Fits, ToCome, TuplesOf;
    t := Fetch(c, ts, end, last);
    StandsAt(c, ts, end + 1, t);
    more := t.Some? && SameKey(t.value, key, j);
    if t.Some? { KeyAlike(ts[i], t.value, key, j); }
    RunGrows(ts, i, end, j, more);
  }

  /** Buffer the rows while the key stays that of `first`; one more row is fetched. */
  method BufferRun(r: Cursor, ghost rs: seq<Tuple>, ghost ri: nat, first: Tuple, j: nat)
      returns (run: seq<Tuple>, rt: Option<Tuple>, ghost rend: nat)
    requires ri < |rs| && first == rs[ri] && j <= |first| && Stands(r, rs, ri, Some(first))
    modifies r`frames, r`buf
    ensures Running(rs, ri, rend, j, false) && Buffered(rs, ri, rend, false, run) && Stands(r, rs, rend, rt)
  {
    RunStarts(rs, ri, j);
    hide SameKey, Running, Buffered, Stands;
    run, rt, rend := [first], Some(first), ri;
    var more := true;
    while more
      invariant Stands(r, rs, rend, rt) && Running(rs, ri, rend, j, more) && Buffered(rs, ri, rend, more, run)
      invariant more ==> rend < |rs|
      decreases |rs| - rend
    {
      rt, more := NextOfRun(r, rs, ri, rend, rt, first, j);
      BufferGrows(rs, ri, rend, run, more);
      rend := rend + 1;
      if more { run := run + [rt.value]; }
    }
  }

  lemma KeyGrows(ts: seq<Tuple>, i: nat, end: nat, j: nat)
    requires KeysRise(ts, j) && i < end < |ts| && !SameKey(ts[i], ts[end], j)
    ensures forall k :: end <= k < |ts| ==> TupleBelow(ts[i][..j], ts[k][..j])
  {
    forall k | end <= k < |ts| ensures TupleBelow(ts[i][..j], ts[k][..j]) {
      TupleTotal(ts[i][..j], ts[end][..j], j);
      TupleTotal(ts[end][..j], ts[k][..j], j);
      assert TupleBelow(ts[i][..j], ts[end][..j]);
      if ts[k][..j] != ts[end][..j] {
        assert k > end;
        TupleTrans(ts[i][..j], ts[end][..j], ts[k][..j]);
      }
    }
  }

  /** The buffered right rows have one key and the right rows behind them another. */
  ghost predicate RunBefore(run: seq<Tuple>, rest: seq<Tuple>, j: nat) {
    && run != [] && (forall k :: 0 <= k < |run| ==> SameKey(run[0], run[k], j))
    && forall k :: 0 <= k < |rest| ==> !SameKey(run[0], rest[k], j)
  }

  /** What is settled while left rows are crossed with a buffered run. */
  ghost predicate Crossing(ls: seq<Tuple>, i: nat, right: seq<Tuple>, j: nat, out: seq<Pair>, stop: seq<Pair> -> bool, goal: seq<Pair>) {
    i <= |ls| && Quiet(out, stop) && goal == out + Pairs(ls[i..], right, j)
  }

  /** Cross the left rows of one key, from row `li` on, with the buffered run of the
      right rows. */
  method CrossRun(l: Cursor, ghost ls: seq<Tuple>, ghost li: nat, first: Tuple, run: seq<Tuple>, ghost rest: seq<Tuple>,
                  j: nat, before: seq<Pair>, stop: seq<Pair> -> bool, ghost goal: seq<Pair>)
      returns (out: seq<Pair>, stopped: bool, lt: Option<Tuple>, ghost lend: nat)
    requires li < |ls| && first == ls[li] && Stands(l, ls, li, Some(first))
    requires RunBefore(run, rest, j) && run != [] && SameKey(first, run[0], j)
    requires Crossing(ls, li, run + rest, j, before, stop, goal)
    modifies l`frames, l`buf
    ensures Stands(l, ls, lend, lt)
    ensures stopped ==> Cut(goal, out, stop) && lt == Some(LastPair(out).0) && LastPair(out).1 in run
    ensures !stopped ==> Running(ls, li, lend, j, false) && Crossing(ls, lend, run + rest, j, out, stop, goal)
  {
    RunStarts(ls, li, j);
    hide SameKey, RunBefore, Running, Crossing, Stands, Cut;
    out, stopped, lt, lend := before, false, Some(first), li;
    var more := true;
    while more
      invariant Stands(l, ls, lend, lt) && Running(ls, li, lend, j, more) && Crossing(ls, lend, run + rest, j, out, stop, goal)
      invariant more ==> lend < |ls| && lt == Some(ls[lend]) && SameKey(ls[lend], run[0], j)
      decreases |ls| - lend
    {
      out, stopped := CrossRow(ls, lend, lt.value, run, rest, j, out, stop, goal);
      if stopped { return; }
      lt, more := NextOfRun(l, ls, li, lend, lt, run[0], j);
      lend := lend + 1;
    }
  }

  method CrossRow(ghost ls: seq<Tuple>, ghost i: nat, row: Tuple, run: seq<Tuple>, ghost rest: seq<Tuple>, j: nat,
                  before: seq<Pair>, stop: seq<Pair> -> bool, ghost goal: seq<Pair>)
      returns (out: seq<Pair>, stopped: bool)
    requires i < |ls| && row == ls[i] && RunBefore(run, rest, j) && run != [] && SameKey(row, run[0], j)
    requires Crossing(ls, i, run + rest, j, before, stop, goal)
    ensures stopped ==> Cut(goal, out, stop) && LastPair(out).0 == row && LastPair(out).1 in run
    ensures !stopped ==> Crossing(ls, i + 1, run + rest, j, out, stop, goal)
  {
    FirstRow(ls, i, run, rest, j);
    hide Pairs, RunPairs, Quiet, Cut, RunBefore, SameKey;
    assert goal == (before + RunPairs(row, run)) + Pairs(ls[i + 1..], run + rest, j);
    out, stopped := EmitRun(row, run, before, stop, goal);
  }

  lemma FirstRow(ls: seq<Tuple>, i: nat, run: seq<Tuple>, rest: seq<Tuple>, j: nat)
    requires i < |ls| && RunBefore(run, rest, j) && SameKey(ls[i], run[0], j)
    ensures Pairs(ls[i..], run + rest, j) == RunPairs(ls[i], run) + Pairs(ls[i + 1..], run + rest, j)
  {
    assert ls[i..] == [ls[i]] + ls[i + 1..];
    PairsOfFirst(ls[i], ls[i + 1..], run, rest, j);
  }

  /** Where a join that the callback stopped leaves its cursors: the left one behind the
      row of the last pair; the right one behind the first row with a larger key. */
  ghost predicate StoppedAt(ls: seq<Tuple>, rs: seq<Tuple>, j: nat, out: seq<Pair>, lrest: seq<Tuple>, rrest: seq<Tuple>) {
    && out != [] && j <= |LastPair(out).1|
    && (exists li: nat :: li < |ls| && ls[li] == LastPair(out).0 && lrest == ls[li + 1..])
    && (exists rend: nat :: rend <= |rs| && BehindKey(rs, rend, LastPair(out).1[..j]) &&
          rrest == if rend < |rs| then rs[rend + 1..] else [])
  }

  /** The rows from `rend` on are those with a larger key. */
  ghost predicate BehindKey(rs: seq<Tuple>, rend: nat, key: Tuple) {
    forall k :: 0 <= k < |rs| ==> |rs[k]| >= |key| && (k >= rend <==> TupleBelow(key, rs[k][..|key|]))
  }

  /** What is settled between two rounds of the join. */
  ghost predicate Joining(ls: seq<Tuple>, li: nat, rs: seq<Tuple>, ri: nat, j: nat, out: seq<Pair>,
                          stop: seq<Pair> -> bool, goal: seq<Pair>) {
    li <= |ls| && ri <= |rs| && Quiet(out, stop) && goal == out + Pairs(ls[li..], rs[ri..], j)
  }

  /** Join two cursors on their first columns.  `stop` is the callback, given all pairs so
      far.  If it never stops the join, the pairs are those of the nested loop and both
      cursors are used up; otherwise they are the pairs up to the stop. */
  method MergeJoin(l: Cursor, r: Cursor, jcols: nat, stop: seq<Pair> -> bool) returns (ok: bool, out: seq<Pair>)
    requires l != r && l.Valid() && r.Valid()
    requires TuplesAscend(l.Remaining()) && forall t :: t in l.Remaining() ==> IsTuple(t, l.arity)
    requires TuplesAscend(r.Remaining()) && forall t :: t in r.Remaining() ==> IsTuple(t, r.arity)
    modifies l`frames, l`buf, r`frames, r`buf
    ensures l.Valid() && r.Valid() && (ok <==> 0 < jcols <= l.arity && jcols <= r.arity)
    ensures !ok ==> out == [] && l.Remaining() == old(l.Remaining()) && r.Remaining() == old(r.Remaining())
    ensures var goal := Pairs(old(l.Remaining()), old(r.Remaining()), jcols);
            ok && Quiet(goal, stop) ==> out == goal && l.Remaining() == [] && r.Remaining() == []
    ensures var ls, rs := old(l.Remaining()), old(r.Remaining());
            ok && !Quiet(Pairs(ls, rs, jcols), stop) ==>
              Cut(Pairs(ls, rs, jcols), out, stop) && StoppedAt(ls, rs, jcols, out, l.Remaining(), r.Remaining())
  {
    ok, out := 0 < jcols <= l.arity && jcols <= r.arity, [];
    if !ok { return; }
    ghost var ls, rs := l.Remaining(), r.Remaining();
    assert forall i :: 0 <= i < |ls| ==> ls[i] in ls;
    assert forall i :: 0 <= i < |rs| ==> rs[i] in rs;
    AscendingKeys(ls, l.arity, jcols);
    AscendingKeys(rs, r.arity, jcols);
    hide Pairs, Quiet, Cut, KeysRise, StoppedAt, Stands;
    var lt := First(l, ls);
    var rt := First(r, rs);
    out := MergeRows(l, ls, lt, r, rs, rt, jcols, stop);
  }

  method MergeRows(l: Cursor, ghost ls: seq<Tuple>, lt0: Option<Tuple>, r: Cursor, ghost rs: seq<Tuple>, rt0: Option<Tuple>,
                   j: nat, stop: seq<Pair> -> bool)
      returns (out: seq<Pair>)
    requires l != r && KeysRise(ls, j) && KeysRise(rs, j) && Stands(l, ls, 0, lt0) && Stands(r, rs, 0, rt0)
    modifies l`frames, l`buf, r`frames, r`buf
    ensures l.Valid() && r.Valid()
    ensures if Quiet(Pairs(ls, rs, j), stop) then out == Pairs(ls, rs, j) && l.Remaining() == [] && r.Remaining() == []
            else Cut(Pairs(ls, rs, j), out, stop) && StoppedAt(ls, rs, j, out, l.Remaining(), r.Remaining())
  {
    var lt, rt := lt0, rt0;
    ghost var goal, li: nat, ri: nat := Pairs(ls, rs, j), 0, 0;
    out := [];
    JoinStarts(ls, rs, j, stop);
    StandsAt(l, ls, li, lt);
    StandsAt(r, rs, ri, rt);
    hide Pairs, Quiet, Cut, KeysRise, StoppedAt, Joining, Stands, Stored, Fits, ToCome, TuplesOf;
    while lt.Some? && rt.Some?
      invariant Stands(l, ls, li, lt) && Stands(r, rs, ri, rt) && Joining(ls, li, rs, ri, j, out, stop, goal)
      invariant li <= |ls| && ri <= |rs| && (lt.Some? <==> li < |ls|) && (rt.Some? <==> ri < |rs|)
      decreases |ls| - li + |rs| - ri
    {
      var stopped;
      out, stopped, lt, rt, li, ri := JoinRound(l, ls, li, lt, r, rs, ri, rt, j, out, stop, goal);
      if stopped {
        CutIsNotQuiet(goal, out, stop);
        return;
      }
      StandsAt(l, ls, li, lt);
      StandsAt(r, rs, ri, rt);
    }
    JoinEnds(ls, li, rs, ri, j, out, stop, goal);
    Drain(l, ls, li, lt);
    Drain(r, rs, ri, rt);
  }

  /** Pass over the smaller key, or join the runs of equal keys. */
  method JoinRound(l: Cursor, ghost ls: seq<Tuple>, ghost li: nat, lt0: Option<Tuple>, r: Cursor, ghost rs: seq<Tuple>,
                   ghost ri: nat, rt0: Option<Tuple>, j: nat, before: seq<Pair>, stop: seq<Pair> -> bool, ghost goal: seq<Pair>)
      returns (out: seq<Pair>, stopped: bool, lt: Option<Tuple>, rt: Option<Tuple>, ghost li': nat, ghost ri': nat)
    requires l != r && KeysRise(ls, j) && KeysRise(rs, j) && lt0.Some? && rt0.Some?
    requires Stands(l, ls, li, lt0) && Stands(r, rs, ri, rt0) && Joining(ls, li, rs, ri, j, before, stop, goal)
    modifies l`frames, l`buf, r`frames, r`buf
    ensures stopped ==>
              l.Valid() && r.Valid() && Cut(goal, out, stop) && StoppedAt(ls, rs, j, out, l.Remaining(), r.Remaining())
    ensures !stopped ==> Stands(l, ls, li', lt) && Stands(r, rs, ri', rt) && Joining(ls, li', rs, ri', j, out, stop, goal)
    ensures !stopped ==> li <= li' && ri <= ri' && li + ri < li' + ri'
  {
    out, stopped, lt, rt, li', ri' := before, false, lt0, rt0, li, ri;
    StandsAt(l, ls, li, lt);
    StandsAt(r, rs, ri, rt);
    RowKeys(ls, li, j);
    RowKeys(rs, ri, j);
    hide Quiet, Cut, KeysRise, TupleBelow, StoppedAt, Joining, Stands, Stored, Fits, ToCome, TuplesOf;
    var cmp := CompareKeys(lt.value, rt.value, j);
    if cmp < 0 {
      LeftPassed(ls, li, rs, ri, j, out, stop, goal);
      lt := Fetch(l, ls, li, lt);
      li' := li + 1;
    } else if cmp > 0 {
      RightPassed(ls, li, rs, ri, j, out, stop, goal);
      rt := Fetch(r, rs, ri, rt);
      ri' := ri + 1;
    } else {
      out, stopped, lt, rt, li', ri' := JoinRuns(l, ls, li, lt.value, r, rs, ri, rt.value, j, out, stop, goal);
    }
  }

  lemma RowKeys(ts: seq<Tuple>, i: nat, j: nat)
    requires KeysRise(ts, j) && i < |ts|
    ensures |ts[i]| >= j
  {
  }

  lemma JoinStarts(ls: seq<Tuple>, rs: seq<Tuple>, j: nat, stop: seq<Pair> -> bool)
    ensures Joining(ls, 0, rs, 0, j, [], stop, Pairs(ls, rs, j))
  {
    assert ls[0..] == ls && rs[0..] == rs;
  }

  lemma JoinEnds(ls: seq<Tuple>, li: nat, rs: seq<Tuple>, ri: nat, j: nat, out: seq<Pair>, stop: seq<Pair> -> bool, goal: seq<Pair>)
    requires Joining(ls, li, rs, ri, j, out, stop, goal) && (li == |ls| || ri == |rs|)
    ensures out == goal && Quiet(goal, stop)
  {
    PairsOfNothing(ls[li..], j);
  }

  lemma LeftPassed(ls: seq<Tuple>, li: nat, rs: seq<Tuple>, ri: nat, j: nat, out: seq<Pair>, stop: seq<Pair> -> bool, goal: seq<Pair>)
    requires li < |ls| && ri < |rs| && KeysRise(ls, j) && KeysRise(rs, j) && TupleBelow(ls[li][..j], rs[ri][..j])
    requires Joining(ls, li, rs, ri, j, out, stop, goal)
    ensures Joining(ls, li + 1, rs, ri, j, out, stop, goal)
  {
    SkipLeft(ls, li, rs, ri, j);
    hide Pairs, Quiet;
  }

  lemma RightPassed(ls: seq<Tuple>, li: nat, rs: seq<Tuple>, ri: nat, j: nat, out: seq<Pair>, stop: seq<Pair> -> bool, goal: seq<Pair>)
    requires li < |ls| && ri < |rs| && KeysRise(ls, j) && KeysRise(rs, j) && TupleBelow(rs[ri][..j], ls[li][..j])
    requires Joining(ls, li, rs, ri, j, out, stop, goal)
    ensures Joining(ls, li, rs, ri + 1, j, out, stop, goal)
  {
    SkipRight(ls, li, rs, ri, ri + 1, j);
    hide Pairs, Quiet;
  }

  /** Both rows have one key: buffer the right run, cross it with the left run. */
  method JoinRuns(l: Cursor, ghost ls: seq<Tuple>, ghost li: nat, lrow: Tuple, r: Cursor, ghost rs: seq<Tuple>, ghost ri: nat,
                  rrow: Tuple, j: nat, before: seq<Pair>, stop: seq<Pair> -> bool, ghost goal: seq<Pair>)
      returns (out: seq<Pair>, stopped: bool, lt: Option<Tuple>, rt: Option<Tuple>, ghost lend: nat, ghost rend: nat)
    requires l != r && KeysRise(ls, j) && KeysRise(rs, j) && SameKey(lrow, rrow, j)
    requires li < |ls| && ri < |rs| && lrow == ls[li] && rrow == rs[ri]
    requires Stands(l, ls, li, Some(lrow)) && Stands(r, rs, ri, Some(rrow))
    requires Joining(ls, li, rs, ri, j, before, stop, goal)
    modifies l`frames, l`buf, r`frames, r`buf
    ensures stopped ==>
              l.Valid() && r.Valid() && Cut(goal, out, stop) && StoppedAt(ls, rs, j, out, l.Remaining(), r.Remaining())
    ensures !stopped ==> Stands(l, ls, lend, lt) && Stands(r, rs, rend, rt)
    ensures !stopped ==> li < lend && ri < rend && Joining(ls, lend, rs, rend, j, out, stop, goal)
  {
    assert j <= |rrow|;
    hide Quiet, Cut, TupleBelow, KeysRise, SameKey, RunBefore, Running, Crossing, Joining, StoppedAt, Stands, Stored, Fits, ToCome;
    var run;
    run, rt, rend := BufferRun(r, rs, ri, rrow, j);
    RunStands(rs, ri, rend, j, run);
    CrossStarts(ls, li, rs, ri, rend, j, before, stop, goal);
    out, stopped, lt, lend := CrossRun(l, ls, li, lrow, run, rs[rend..], j, before, stop, goal);
    StandsAt(l, ls, lend, lt);
    StandsAt(r, rs, rend, rt);
    if stopped {
      StopsAt(ls, lend, rs, ri, rend, j, out, stop, goal);
    } else {
      RunPassed(ls, li, lend, rs, ri, rend, j, out, stop, goal);
    }
  }

  lemma CrossStarts(ls: seq<Tuple>, li: nat, rs: seq<Tuple>, ri: nat, rend: nat, j: nat, out: seq<Pair>,
                    stop: seq<Pair> -> bool, goal: seq<Pair>)
    requires Joining(ls, li, rs, ri, j, out, stop, goal) && ri <= rend <= |rs|
    ensures Crossing(ls, li, rs[ri..rend] + rs[rend..], j, out, stop, goal)
  {
    hide Pairs, Quiet;
    SplitAt(rs, ri, rend);
  }

  lemma StopsAt(ls: seq<Tuple>, li: nat, rs: seq<Tuple>, ri: nat, rend: nat, j: nat, out: seq<Pair>, stop: seq<Pair> -> bool,
                goal: seq<Pair>)
    requires Cut(goal, out, stop) && li < |ls| && ls[li] == LastPair(out).0
    requires ri < rend <= |rs| && LastPair(out).1 in rs[ri..rend] && forall t :: t in rs[ri..rend] ==> SameKey(rs[ri], t, j)
    requires j <= |rs[ri]| && BehindKey(rs, rend, rs[ri][..j])
    ensures StoppedAt(ls, rs, j, out, ls[li + 1..], if rend < |rs| then rs[rend + 1..] else [])
  {
    hide BehindKey;
    assert SameKey(rs[ri], LastPair(out).1, j);
  }

  lemma RunPassed(ls: seq<Tuple>, li: nat, lend: nat, rs: seq<Tuple>, ri: nat, rend: nat, j: nat, out: seq<Pair>,
                  stop: seq<Pair> -> bool, goal: seq<Pair>)
    requires li < |ls| && Running(ls, li, lend, j, false) && ri < |rs| && Running(rs, ri, rend, j, false)
    requires KeysRise(ls, j) && KeysRise(rs, j) && SameKey(ls[li], rs[ri], j)
    requires Crossing(ls, lend, rs[ri..rend] + rs[rend..], j, out, stop, goal)
    ensures Joining(ls, lend, rs, rend, j, out, stop, goal) && li < lend && ri < rend
  {
    RunEnds(ls, li, lend, j);
    RunEnds(rs, ri, rend, j);
    SplitAt(rs, ri, rend);
    LongRows(ls, j);
    hide Running, KeysRise, TupleBelow, Pairs, Quiet;
    SkipRight(ls, lend, rs, ri, rend, j);
  }

  lemma LongRows(ts: seq<Tuple>, j: nat)
    requires KeysRise(ts, j)
    ensures forall i :: 0 <= i < |ts| ==> |ts[i]| >= j
  {
  }

  /** The run of a key between the rows before it and those behind it. */
  lemma RunStands(rs: seq<Tuple>, ri: nat, rend: nat, j: nat, run: seq<Tuple>)
    requires KeysRise(rs, j) && ri < |rs| && Running(rs, ri, rend, j, false) && Buffered(rs, ri, rend, false, run)
    ensures ri < rend <= |rs| && run == rs[ri..rend] && RunBefore(run, rs[rend..], j) && run != [] && run[0] == rs[ri]
    ensures forall t :: t in run ==> SameKey(rs[ri], t, j)
    ensures j <= |rs[ri]| && BehindKey(rs, rend, rs[ri][..j])
  {
    RunEnds(rs, ri, rend, j);
    assert SameKey(rs[ri], rs[ri], j);
    TupleTotal(rs[ri][..j], rs[ri][..j], j);
    hide TupleBelow;
    forall k | 0 <= k < rend ensures !TupleBelow(rs[ri][..j], rs[k][..j]) {
      if k >= ri { assert SameKey(rs[ri], rs[k], j); }
    }
    forall k | 0 <= k < |rs| - rend ensures !SameKey(rs[ri], rs[rend..][k], j) {
      assert TupleBelow(rs[ri][..j], rs[rend + k][..j]);
    }
    forall k | 0 <= k < rend - ri ensures SameKey(rs[ri], rs[ri..rend][k], j) {
      assert SameKey(rs[ri], rs[ri + k], j);
    }
  }

  lemma SplitAt(ts: seq<Tuple>, i: nat, end: nat)
    requires i <= end <= |ts|
    ensures ts[i..] == ts[i..end] + ts[end..]
  {
  }

  lemma CutIsNotQuiet(goal: seq<Pair>, out: seq<Pair>, stop: seq<Pair> -> bool)
    requires Cut(goal, out, stop)
    ensures !Quiet(goal, stop)
  {
    assert goal[..|out|] == out;
  }

  /** The smaller left key meets no right row. */
  lemma SkipLeft(ls: seq<Tuple>, li: nat, rs: seq<Tuple>, ri: nat, j: nat)
    requires li < |ls| && ri < |rs| && KeysRise(ls, j) && KeysRise(rs, j) && TupleBelow(ls[li][..j], rs[ri][..j])
    ensures Pairs(ls[li..], rs[ri..], j) == Pairs(ls[li + 1..], rs[ri..], j)
  {
    RiseTail(rs, ri, j);
    BelowAll(ls[li], rs[ri..], j);
    NoPartners(ls[li], rs[ri..], j);
    assert ls[li..][1..] == ls[li + 1..];
  }

  /** Right rows with a key below that of every left row to come are passed over. */
  lemma SkipRight(ls: seq<Tuple>, li: nat, rs: seq<Tuple>, ri: nat, end: nat, j: nat)
    requires li <= |ls| && ri < end <= |rs| && KeysRise(ls, j) && KeysRise(rs, j)
    requires forall k :: ri <= k < end ==> SameKey(rs[ri], rs[k], j)
    requires forall i :: li <= i < |ls| ==> |ls[i]| >= j
    requires li < |ls| ==> TupleBelow(rs[ri][..j], ls[li][..j])
    ensures Pairs(ls[li..], rs[ri..], j) == Pairs(ls[li..], rs[end..], j)
  {
    var run := rs[ri..end];
    assert rs[ri..] == run + rs[end..];
    if li < |ls| {
      RiseTail(ls, li, j);
      BelowAll(rs[ri], ls[li..], j);
    }
    forall i | 0 <= i < |ls[li..]| ensures Misses(ls[li..][i], run, j) {
      forall k | 0 <= k < |run| ensures !SameKey(ls[li..][i], run[k], j) {
        assert run[k] == rs[ri + k] && SameKey(rs[ri], rs[ri + k], j);
      }
    }
    PairsWithout(ls[li..], run, rs[end..], j);
  }
}
