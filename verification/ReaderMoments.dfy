/** Which moments of a run the relations of a reader are of, and when these are one. */
module ReaderMoments {
  import opened LockProtocol

  /* ---------- the moment of each relation ---------- */

  function SeenBy(s: State, p: nat): map<nat, Seen> {
    var proc := Proc(s, p);
    if proc.Opening? || proc.Reading? then proc.seen else map[]
  }

  predicate Waits(s: State, p: nat, r: nat) { r in SeenBy(s, p) && SeenBy(s, p)[r].Deferred? }

  /** The state that reader `p` has of relation `r`: that of the capture of its log
      size, or, while its base waits for the first use, of the last replacement of
      the base. */
  function Moment(states: seq<State>, events: seq<Event>, i: nat, p: nat, r: nat): (m: nat)
    requires i <= |events| < |states|
    ensures m <= i
  {
    if i == 0 then 0
    else if events[i - 1] == (p, Capture(r)) || (events[i - 1].1 == SaveBase(r) && Waits(states[i - 1], p, r)) then i - 1
    else Moment(states, events, i - 1, p, r)
  }

  /** The state in which the current open of `p` began. */
  function OpenedAt(events: seq<Event>, i: nat, p: nat): (m: nat)
    requires i <= |events|
    ensures m <= i
  {
    if i == 0 then 0 else if events[i - 1] == (p, BeginRead) then i - 1 else OpenedAt(events, i - 1, p)
  }

  /** What a reader has of a relation is of the moment when `past` was its history. */
  ghost predicate SeenOf(rel: Rel, seen: Seen, past: seq<Op>) {
    && past <= rel.history
    && match seen
       case Captured(n) => rel.folded + n == |past|
       case Loaded(n, b) => rel.folded + n == |past| && b == rel.base
       case Viewed(v) => v == Content(past)
       case Deferred => rel.saved == |past|
  }

  ghost predicate Traced(states: seq<State>, events: seq<Event>, i: nat, p: nat, r: nat)
    requires i <= |events| < |states|
  {
    var m := Moment(states, events, i, p, r);
    r in states[i].rels && r in SeenBy(states[i], p) ==>
      OpenedAt(events, i, p) <= m && r in states[m].rels && SeenOf(states[i].rels[r], SeenBy(states[i], p)[r], states[m].rels[r].history)
  }

  /* ---------- steps ---------- */

  /** Only a writer's steps change relations. */
  lemma IdleStep(s: State, p: nat, a: Action)
    requires Enabled(s, p, a) && !WriterAction(a)
    ensures Do(s, p, a).rels == s.rels
  {
    hide Replay, Apply;
  }

  lemma BaseStep(s: State, p: nat, a: Action, r: nat)
    requires Enabled(s, p, a) && r in s.rels && r in Do(s, p, a).rels
    ensures a != SaveBase(r) ==> Do(s, p, a).rels[r].saved == s.rels[r].saved && Do(s, p, a).rels[r].base == s.rels[r].base
    ensures a == SaveBase(r) ==> Do(s, p, a).rels[r].saved == |s.rels[r].history|
  {
    hide Replay, Apply;
  }

  /** What a step does to one relation, as process `q` sees it. */
  lemma StepLater(s: State, p: nat, a: Action, q: nat, r: nat)
    requires Inv(s) && Enabled(s, p, a) && r in s.rels
    ensures r in Do(s, p, a).rels && Later(s.rels[r], Do(s, p, a).rels[r], Proc(s, q).Opening?)
  {
    hide Inv, Do, Enabled, RelValid;
    LaterRefl(s.rels[r]);
    if WriterAction(a) {
      WriterStepRel(s, p, a, Target(s, p, a));
      WriterStepFrame(s, p, a, Target(s, p, a));
      if Proc(s, q).Opening? { NoCompaction(s, p, a, q); }
    } else {
      IdleStep(s, p, a);
    }
  }

  /** A reader has nothing in the making once its open is over. */
  lemma SeenPhase(s: State, p: nat, r: nat)
    requires Inv(s) && r in s.rels && r in SeenBy(s, p) && (SeenBy(s, p)[r].Captured? || SeenBy(s, p)[r].Loaded?)
    ensures Proc(s, p).Opening?
  {
    hide RelValid, SeenValid, ViewAt;
    assert ProcValid(s, p);
  }

  lemma SeenOfLater(rel: Rel, rel': Rel, seen: Seen, past: seq<Op>)
    requires SeenOf(rel, seen, past)
    requires Later(rel, rel', seen.Captured? || seen.Loaded?) && (seen.Deferred? ==> rel'.saved == rel.saved)
    ensures SeenOf(rel', seen, past)
  {
    hide Replay;
    assert past == rel.history[..|past|] == rel'.history[..|rel.history|][..|past|] == rel'.history[..|past|];
  }

  /** A step that leaves what `p` has seen of `r` alone. */
  lemma SeenKept(s: State, q: nat, a: Action, p: nat, r: nat, past: seq<Op>)
    requires Inv(s) && Enabled(s, q, a) && r in s.rels && r in SeenBy(s, p) && SeenOf(s.rels[r], SeenBy(s, p)[r], past)
    requires !(a == SaveBase(r) && Waits(s, p, r))
    ensures r in Do(s, q, a).rels && SeenOf(Do(s, q, a).rels[r], SeenBy(s, p)[r], past)
  {
    StepLater(s, q, a, p, r);
    BaseStep(s, q, a, r);
    hide Do, Enabled, SeenOf;
    if SeenBy(s, p)[r].Captured? || SeenBy(s, p)[r].Loaded? { SeenPhase(s, p, r); }
    hide Inv;
    SeenOfLater(s.rels[r], Do(s, q, a).rels[r], SeenBy(s, p)[r], past);
  }

  /** The log up to the captured size over the loaded base is the moment of the capture. */
  lemma ReplayedIsPast(rel: Rel, seen: Seen, past: seq<Op>)
    requires RelValid(rel) && seen.Loaded? && SeenOf(rel, seen, past) && rel.saved <= |past|
    ensures seen.records <= |rel.wal| && Replay(rel.wal[..seen.records], seen.base) == Content(past)
  {
    assert past == rel.history[..|past|];
    ReplayOverNewer(rel.history, rel.folded, rel.saved, |past|);
    assert rel.wal[..seen.records] == rel.history[rel.folded..|past|];
  }

  lemma BaseIsPast(rel: Rel, past: seq<Op>)
    requires RelValid(rel) && SeenOf(rel, Deferred, past)
    ensures rel.base == Content(past)
  {
    assert past == rel.history[..|past|];
  }

  lemma SavedBefore(s: State, p: nat, r: nat, past: seq<Op>)
    requires Inv(s) && Proc(s, p).Opening? && r in s.rels && r in SeenBy(s, p) && SeenBy(s, p)[r].Loaded?
    requires SeenOf(s.rels[r], SeenBy(s, p)[r], past)
    ensures s.rels[r].saved <= |past|
  {
    hide ViewAt, Replay, RelValid;
    assert ProcValid(s, p);
    assert SeenValid(s.rels[r], SeenBy(s, p)[r], Proc(s, p).from[r]);
  }

  /** What a step of the reader itself makes of one relation. */
  lemma SeenMade(s: State, p: nat, a: Action, r: nat, past: seq<Op>)
    requires Inv(s) && Enabled(s, p, a) && r in s.rels && (a == LoadBase(r) || a == ReplayWal(r) || a == LazyLoad(r))
    requires SeenOf(s.rels[r], SeenBy(s, p)[r], past)
    ensures Do(s, p, a).rels == s.rels && r in SeenBy(Do(s, p, a), p)
    ensures SeenOf(s.rels[r], SeenBy(Do(s, p, a), p)[r], past)
  {
    var rel, seen := s.rels[r], SeenBy(s, p)[r];
    assert RelValid(rel);
    IdleStep(s, p, a);
    hide Inv, RelValid;
    if a.ReplayWal? {
      SavedBefore(s, p, r, past);
      ReplayedIsPast(rel, seen, past);
    } else if a.LazyLoad? {
      BaseIsPast(rel, past);
    }
    hide Replay, Apply, Content;
  }

  lemma SeenCaptured(s: State, p: nat, r: nat)
    requires Inv(s) && Enabled(s, p, Capture(r))
    ensures var t := Do(s, p, Capture(r)); t.rels == s.rels && r in SeenBy(t, p) && SeenOf(s.rels[r], SeenBy(t, p)[r], s.rels[r].history)
  {
    assert RelValid(s.rels[r]);
    hide Replay, Apply, Inv;
  }

  /** Which part of a reader's knowledge a step leaves alone. */
  lemma SeenFrame(s: State, q: nat, a: Action, p: nat, r: nat)
    requires Enabled(s, q, a) && r in SeenBy(Do(s, q, a), p)
    requires !(q == p && (a == Capture(r) || a == LoadBase(r) || a == ReplayWal(r) || a == LazyLoad(r)))
    ensures r in SeenBy(s, p) && SeenBy(Do(s, q, a), p)[r] == SeenBy(s, p)[r] && (q, a) != (p, BeginRead)
  {
    hide Replay, Apply;
    if q != p { StepIsLocal(s, q, a, p); }
  }

  /** One step, from what was seen of `past` to what is seen of `past'`. */
  lemma SeenStep(s: State, q: nat, a: Action, p: nat, r: nat, past: seq<Op>)
    requires Inv(s) && Enabled(s, q, a) && r in s.rels && r in SeenBy(Do(s, q, a), p)
    requires r in SeenBy(s, p) ==> SeenOf(s.rels[r], SeenBy(s, p)[r], past)
    ensures r in Do(s, q, a).rels
    ensures var past' := if (q, a) == (p, Capture(r)) || (a == SaveBase(r) && Waits(s, p, r)) then s.rels[r].history else past;
            SeenOf(Do(s, q, a).rels[r], SeenBy(Do(s, q, a), p)[r], past')
    ensures (q, a) != (p, BeginRead) && ((q, a) != (p, Capture(r)) ==> r in SeenBy(s, p))
  {
    if q == p && a == Capture(r) {
      SeenCaptured(s, p, r);
    } else if q == p && (a == LoadBase(r) || a == ReplayWal(r) || a == LazyLoad(r)) {
      ReaderOwns(s, p, a);
      SeenMade(s, p, a, r, past);
    } else {
      SeenFrame(s, q, a, p, r);
      if a == SaveBase(r) && Waits(s, p, r) {
        BaseSaved(s, q, r, SeenBy(s, p)[r]);
      } else {
        SeenKept(s, q, a, p, r, past);
      }
    }
    hide Inv, Do, Enabled, SeenOf, SeenBy;
  }

  lemma TracedStep(states: seq<State>, events: seq<Event>, i: nat, p: nat, r: nat)
    requires Run(states, events) && 0 < i <= |events| && Traced(states, events, i - 1, p, r)
    ensures Traced(states, events, i, p, r)
  {
    var s, q, a := states[i - 1], events[i - 1].0, events[i - 1].1;
    RunInv(states, events, i - 1);
    assert Follows(s, events[i - 1], states[i]);
    hide Inv, Do, Enabled, SeenOf, Run, SeenBy, Waits;
    KeysKept(s, q, a);
    if r in states[i].rels && r in SeenBy(states[i], p) {
      var m := Moment(states, events, i - 1, p, r);
      SeenStep(s, q, a, p, r, if r in SeenBy(s, p) then states[m].rels[r].history else []);
    }
  }

  lemma ReaderOwns(s: State, p: nat, a: Action)
    requires Enabled(s, p, a) && (a.LoadBase? || a.ReplayWal? || a.LazyLoad?)
    ensures a.r in SeenBy(s, p) && a.r in s.rels
  {
  }

  lemma KeysKept(s: State, p: nat, a: Action)
    requires Enabled(s, p, a)
    ensures Do(s, p, a).rels.Keys == s.rels.Keys
  {
    hide Replay, Apply;
  }

  /** A base that waits is replaced by the contents at the replacement. */
  lemma BaseSaved(s: State, q: nat, r: nat, seen: Seen)
    requires Inv(s) && Enabled(s, q, SaveBase(r)) && r in s.rels && seen.Deferred?
    ensures r in Do(s, q, SaveBase(r)).rels && SeenOf(Do(s, q, SaveBase(r)).rels[r], seen, s.rels[r].history)
  {
    hide Inv, Replay;
  }

  lemma {:induction false} RunTraced(states: seq<State>, events: seq<Event>, i: nat, p: nat, r: nat)
    requires Run(states, events) && i <= |events|
    ensures Traced(states, events, i, p, r)
  {
    if i > 0 {
      RunTraced(states, events, i - 1, p, r);
      TracedStep(states, events, i, p, r);
    }
  }

  /** Every view a reader has is the writer's contents in the one state `Moment` names,
      which lies after the begin of the reader's open. */
  lemma ViewIsOfMoment(states: seq<State>, events: seq<Event>, i: nat, p: nat, r: nat)
    requires Run(states, events) && i <= |events| && r in states[i].rels
    requires r in SeenBy(states[i], p) && SeenBy(states[i], p)[r].Viewed?
    ensures var m := Moment(states, events, i, p, r);
            OpenedAt(events, i, p) <= m <= i && r in states[m].rels && SeenBy(states[i], p)[r].view == Content(states[m].rels[r].history)
  {
    RunTraced(states, events, i, p, r);
  }

  /** The state in which the open of `p` ended. */
  function EndedAt(events: seq<Event>, i: nat, p: nat): (m: nat)
    requires i <= |events|
    ensures m <= i
  {
    if i == 0 then 0 else if events[i - 1] == (p, EndRead) then i - 1 else EndedAt(events, i - 1, p)
  }

  lemma PhaseFrom(s: State, q: nat, a: Action, p: nat)
    requires Enabled(s, q, a)
    ensures Proc(Do(s, q, a), p).Opening? ==> (q, a) != (p, EndRead) && ((q, a) == (p, BeginRead) || Proc(s, p).Opening?)
    ensures Proc(Do(s, q, a), p).Reading? ==>
              (q, a) != (p, BeginRead) && if (q, a) == (p, EndRead) then Proc(s, p).Opening? else Proc(s, p).Reading?
  {
    hide Replay, Apply;
    if q != p { StepIsLocal(s, q, a, p); }
  }

  lemma {:induction false} OpeningSince(states: seq<State>, events: seq<Event>, i: nat, p: nat)
    requires Run(states, events) && i <= |events| && Proc(states[i], p).Opening?
    ensures var m := OpenedAt(events, i, p);
            m < i && events[m] == (p, BeginRead) && forall k :: m < k <= i ==> Proc(states[k], p).Opening?
  {
    if i > 0 {
      assert Follows(states[i - 1], events[i - 1], states[i]);
      PhaseFrom(states[i - 1], events[i - 1].0, events[i - 1].1, p);
      hide Do, Enabled, Run;
      if events[i - 1] != (p, BeginRead) { OpeningSince(states, events, i - 1, p); }
    }
  }

  /** An open lasts from the event that begins it to the event that ends it. */
  lemma {:induction false} OpenSpan(states: seq<State>, events: seq<Event>, i: nat, p: nat)
    requires Run(states, events) && i <= |events| && Proc(states[i], p).Reading?
    ensures var from, to := OpenedAt(events, i, p), EndedAt(events, i, p);
            && from < to < i && events[from] == (p, BeginRead) && events[to] == (p, EndRead)
            && (forall k :: from < k <= to ==> Proc(states[k], p).Opening?)
            && forall k :: to < k <= i ==> Proc(states[k], p).Reading?
  {
    if i > 0 {
      assert Follows(states[i - 1], events[i - 1], states[i]);
      PhaseFrom(states[i - 1], events[i - 1].0, events[i - 1].1, p);
      hide Do, Enabled, Run;
      if events[i - 1] == (p, EndRead) { OpeningSince(states, events, i - 1, p); } else { OpenSpan(states, events, i - 1, p); }
    }
  }

  lemma ReadingBefore(s: State, q: nat, a: Action, p: nat, r: nat)
    requires Inv(s) && Enabled(s, q, a) && Proc(Do(s, q, a), p).Reading? && (q, a) != (p, EndRead)
    ensures Proc(s, p).Reading? && Proc(Do(s, q, a), p).late == Proc(s, p).late
    ensures (q, a) != (p, Capture(r)) && (q, a) != (p, BeginRead)
    ensures r in s.rels && r !in Proc(s, p).late ==> !Waits(s, p, r)
  {
    hide Replay, Apply, RelValid, ViewAt;
    if q != p { StepIsLocal(s, q, a, p); }
    assert ProcValid(s, p);
  }

  /** A base that does not wait for its first use is of a moment inside the open. */
  lemma {:induction false} MomentInOpen(states: seq<State>, events: seq<Event>, i: nat, p: nat, r: nat)
    requires Run(states, events) && i <= |events| && Proc(states[i], p).Reading?
    ensures OpenedAt(events, i, p) <= EndedAt(events, i, p)
    ensures r in states[i].rels && r !in Proc(states[i], p).late ==> Moment(states, events, i, p, r) <= EndedAt(events, i, p)
  {
    if i > 0 {
      var s, q, a := states[i - 1], events[i - 1].0, events[i - 1].1;
      RunInv(states, events, i - 1);
      assert Follows(s, events[i - 1], states[i]);
      hide Inv, Do, Enabled, Waits, Run;
      KeysKept(s, q, a);
      if (q, a) != (p, EndRead) {
        ReadingBefore(s, q, a, p, r);
        MomentInOpen(states, events, i - 1, p, r);
      }
    }
  }

  lemma PhaseBefore(s: State, q: nat, a: Action, p: nat, r: nat)
    requires Inv(s) && Enabled(s, q, a) && r in s.rels && (q, a) != (p, Capture(r))
    requires r in SeenBy(Do(s, q, a), p) && (Proc(Do(s, q, a), p).Reading? ==> r !in Proc(Do(s, q, a), p).late)
    ensures r in SeenBy(s, p) && (Proc(s, p).Reading? ==> r !in Proc(s, p).late)
    ensures !(a == SaveBase(r) && Waits(s, p, r))
  {
    hide Replay, Apply, RelValid, ViewAt;
    if q != p { StepIsLocal(s, q, a, p); }
    if Proc(s, p).Opening? { NoCompaction(s, q, a, p); }
    assert ProcValid(s, p);
  }

  /** Unless its base waits for the first use, the moment of a relation is that of the
      capture of its log size. */
  lemma {:induction false} MomentIsCapture(states: seq<State>, events: seq<Event>, i: nat, p: nat, r: nat)
    requires Run(states, events) && i <= |events| && r in states[i].rels && r in SeenBy(states[i], p)
    requires Proc(states[i], p).Reading? ==> r !in Proc(states[i], p).late
    ensures var m := Moment(states, events, i, p, r); m < i && events[m] == (p, Capture(r))
  {
    if i > 0 {
      var s, q, a := states[i - 1], events[i - 1].0, events[i - 1].1;
      RunInv(states, events, i - 1);
      assert Follows(s, events[i - 1], states[i]);
      hide Inv, Do, Enabled, Waits, Run, SeenBy;
      KeysKept(s, q, a);
      if (q, a) != (p, Capture(r)) {
        PhaseBefore(s, q, a, p, r);
        MomentIsCapture(states, events, i - 1, p, r);
      }
    }
  }

  /* ---------- one moment of all relations ---------- */

  predicate Logs(e: Event, r: nat) { e.1.Append? && e.1.r == r }

  /** Two records in the order in which one falls behind a reader's moment and the
      other before one: the reader misses the earlier and has the later. */
  predicate Crossing(events: seq<Event>, at: map<nat, nat>) {
    exists t1: nat, t2: nat, r1, r2 ::
      && t1 < t2 < |events| && r1 in at && r2 in at
      && at[r1] <= t1 && Logs(events[t1], r1) && t2 < at[r2] && Logs(events[t2], r2)
  }

  /** State `k` has of every relation the records its own moment has. */
  predicate SameRecords(states: seq<State>, at: map<nat, nat>, k: nat)
    requires k < |states|
  {
    forall r :: r in at && r in states[k].rels ==>
      at[r] < |states| && r in states[at[r]].rels && states[k].rels[r].history == states[at[r]].rels[r].history
  }

  lemma StepHistory(s: State, e: Event, r: nat)
    requires Enabled(s, e.0, e.1) && r in s.rels
    ensures r in Do(s, e.0, e.1).rels
    ensures if Logs(e, r) then Do(s, e.0, e.1).rels[r].history == s.rels[r].history + [e.1.op]
            else Do(s, e.0, e.1).rels[r].history == s.rels[r].history
  {
    hide Replay, Apply;
  }

  /** A history stays as it is between two states exactly when nothing is logged. */
  lemma {:induction false} HistoryGrows(states: seq<State>, events: seq<Event>, j: nat, k: nat, r: nat)
    requires Run(states, events) && j <= k <= |events| && r in states[j].rels
    ensures r in states[k].rels && states[j].rels[r].history <= states[k].rels[r].history
    ensures states[j].rels[r].history == states[k].rels[r].history <==> forall t :: j <= t < k ==> !Logs(events[t], r)
  {
    if j < k {
      HistoryGrows(states, events, j, k - 1, r);
      assert Follows(states[k - 1], events[k - 1], states[k]);
      StepHistory(states[k - 1], events[k - 1], r);
      hide Do, Enabled;
      if Logs(events[k - 1], r) {
        assert |states[k].rels[r].history| > |states[j].rels[r].history|;
      }
    }
  }

  /** The first state from `lo` on that has every record some relation of `at` has. */
  function Front(events: seq<Event>, at: map<nat, nat>, n: nat, lo: nat): (k: nat)
    requires n <= |events|
    ensures lo <= k && (k <= n || k == lo)
    ensures lo < k ==> exists r :: r in at && k <= at[r] && Logs(events[k - 1], r)
    ensures forall t, r :: k <= t < n && r in at && t < at[r] ==> !Logs(events[t], r)
  {
    if n <= lo then lo
    else if exists r :: r in at && n <= at[r] && Logs(events[n - 1], r) then n
    else Front(events, at, n - 1, lo)
  }

  /** No relation has fewer records than the front, unless records cross. */
  lemma NothingBefore(events: seq<Event>, at: map<nat, nat>, k: nat, r: nat, r': nat)
    requires 0 < k <= |events| && !Crossing(events, at)
    requires r in at && at[r] < k && r' in at && k <= at[r'] && Logs(events[k - 1], r')
    ensures forall t :: at[r] <= t < k ==> !Logs(events[t], r)
  {
    forall t | at[r] <= t < k ensures !Logs(events[t], r) {
      var last := k - 1;
      assert Logs(events[last], r');
      assert t == last ==> r != r';
      hide Logs;
    }
  }

  lemma FrontFits(states: seq<State>, events: seq<Event>, at: map<nat, nat>, lo: nat)
    requires Run(states, events) && lo <= |events| && at.Keys == states[0].rels.Keys
    requires (forall r :: r in at ==> lo <= at[r] <= |events|) && !Crossing(events, at)
    ensures SameRecords(states, at, Front(events, at, |events|, lo))
  {
    var k := Front(events, at, |events|, lo);
    hide Front, Run, Crossing, Logs;
    forall r | r in at && r in states[k].rels
      ensures r in states[at[r]].rels && states[k].rels[r].history == states[at[r]].rels[r].history
    {
      HistoryGrows(states, events, 0, at[r], r);
      if k <= at[r] {
        HistoryGrows(states, events, k, at[r], r);
      } else {
        var r' :| r' in at && k <= at[r'] && Logs(events[k - 1], r');
        NothingBefore(events, at, k, r, r');
        HistoryGrows(states, events, at[r], k, r);
      }
    }
  }

  /** Relations of the moments `at` are together of one moment exactly when no two
      records cross, and then of one between the first and the last of `at`. */
  lemma OneMomentIff(states: seq<State>, events: seq<Event>, at: map<nat, nat>, lo: nat, hi: nat)
    requires Run(states, events) && lo <= hi <= |events| && at.Keys == states[0].rels.Keys
    requires forall r :: r in at ==> lo <= at[r] <= hi
    ensures (exists k: nat :: lo <= k <= hi && SameRecords(states, at, k)) <==> !Crossing(events, at)
  {
    if !Crossing(events, at) {
      FrontFits(states, events, at, lo);
    }
    hide Run, Crossing, SameRecords;
    forall k: nat | lo <= k <= hi && SameRecords(states, at, k) ensures !Crossing(events, at) {
      NoneCross(states, events, at, k);
    }
  }

  lemma NoneCross(states: seq<State>, events: seq<Event>, at: map<nat, nat>, k: nat)
    requires Run(states, events) && k <= |events| && SameRecords(states, at, k) && at.Keys == states[0].rels.Keys
    requires forall r :: r in at ==> at[r] <= |events|
    ensures !Crossing(events, at)
  {
    forall t1: nat, t2: nat, r1, r2 | t1 < t2 < |events| && r1 in at && r2 in at && at[r1] <= t1 && t2 < at[r2] && Logs(events[t1], r1)
      ensures !Logs(events[t2], r2)
    {
      HistoryGrows(states, events, 0, k, r1);
      HistoryGrows(states, events, 0, k, r2);
      HistoryGrows(states, events, 0, at[r1], r1);
      HistoryGrows(states, events, 0, at[r2], r2);
      if k <= t2 {
        HistoryGrows(states, events, k, at[r2], r2);
      } else {
        HistoryGrows(states, events, at[r1], k, r1);
      }
    }
  }

  /* ---------- the views of a reader ---------- */

  /** The relations of a reader all of whose bases are loaded. */
  predicate AllViewed(s: State, p: nat) {
    Proc(s, p).Reading? && forall r :: r in s.rels ==> r in SeenBy(s, p) && SeenBy(s, p)[r].Viewed?
  }

  function Moments(states: seq<State>, events: seq<Event>, i: nat, p: nat): map<nat, nat>
    requires i <= |events| < |states|
  {
    map r | r in states[0].rels :: Moment(states, events, i, p, r)
  }

  /** What the reader returns are the contents of all relations in state `k`. */
  predicate Snapshot(s: State, p: nat, t: State) {
    forall r :: r in s.rels ==>
      r in SeenBy(s, p) && SeenBy(s, p)[r].Viewed? && r in t.rels && SeenBy(s, p)[r].view == Content(t.rels[r].history)
  }

  predicate SameContents(states: seq<State>, at: map<nat, nat>, k: nat)
    requires k < |states|
  {
    forall r :: r in at && r in states[k].rels ==>
      at[r] < |states| && r in states[at[r]].rels &&
      Content(states[k].rels[r].history) == Content(states[at[r]].rels[r].history)
  }

  lemma {:induction false} KeysFixed(states: seq<State>, events: seq<Event>, i: nat)
    requires Run(states, events) && i <= |events|
    ensures states[i].rels.Keys == states[0].rels.Keys
  {
    if i > 0 {
      KeysFixed(states, events, i - 1);
      assert Follows(states[i - 1], events[i - 1], states[i]);
      KeysKept(states[i - 1], events[i - 1].0, events[i - 1].1);
    }
  }

  /** A reader returns the contents of state `k` exactly when everything logged between
      `k` and the moment of a relation leaves the contents of that relation alone. */
  lemma SnapshotIff(states: seq<State>, events: seq<Event>, i: nat, p: nat, k: nat)
    requires Run(states, events) && i <= |events| && k <= |events| && AllViewed(states[i], p)
    ensures Snapshot(states[i], p, states[k]) <==> SameContents(states, Moments(states, events, i, p), k)
  {
    KeysFixed(states, events, i);
    KeysFixed(states, events, k);
    hide Run, Content, SeenBy;
    forall r | r in states[0].rels
      ensures r in states[Moment(states, events, i, p, r)].rels &&
              SeenBy(states[i], p)[r].view == Content(states[Moment(states, events, i, p, r)].rels[r].history)
    {
      ViewIsOfMoment(states, events, i, p, r);
    }
  }

  /** In no relation do the contents of one moment come back at a later one. */
  ghost predicate NoContentsTwice(s: State) {
    forall r, m: nat, n: nat :: r in s.rels && m < n <= |s.rels[r].history| ==>
      Content(s.rels[r].history[..m]) != Content(s.rels[r].history[..n])
  }

  /** The last state that is still a moment of the reader's open, lazy loads included. */
  function OpenEnd(states: seq<State>, events: seq<Event>, i: nat, p: nat): (m: nat)
    requires i <= |events| < |states|
    ensures m <= i
  {
    if Proc(states[i], p).Reading? && Proc(states[i], p).late == {} then EndedAt(events, i, p) else i
  }

  lemma MomentsInOpen(states: seq<State>, events: seq<Event>, i: nat, p: nat, r: nat)
    requires Run(states, events) && i <= |events| && AllViewed(states[i], p)
    ensures OpenedAt(events, i, p) <= OpenEnd(states, events, i, p)
    ensures r in states[i].rels ==> OpenedAt(events, i, p) <= Moment(states, events, i, p, r) <= OpenEnd(states, events, i, p)
  {
    MomentInOpen(states, events, i, p, r);
    if r in states[i].rels { ViewIsOfMoment(states, events, i, p, r); }
  }

  /** Without two records that cross, the reader returns one moment of its open.  When
      contents tell the moments of a relation apart, only then. */
  lemma OpenIsSnapshotIff(states: seq<State>, events: seq<Event>, i: nat, p: nat)
    requires Run(states, events) && i <= |events| && AllViewed(states[i], p)
    ensures !Crossing(events, Moments(states, events, i, p)) ==>
              exists k: nat ::
                OpenedAt(events, i, p) <= k <= OpenEnd(states, events, i, p) && Snapshot(states[i], p, states[k])
    ensures NoContentsTwice(states[|events|]) && Crossing(events, Moments(states, events, i, p)) ==>
              forall k: nat :: k <= |events| ==> !Snapshot(states[i], p, states[k])
  {
    var at, lo, hi := Moments(states, events, i, p), OpenedAt(events, i, p), OpenEnd(states, events, i, p);
    KeysFixed(states, events, i);
    MomentsInOpen(states, events, i, p, 0);
    forall r | r in at ensures lo <= at[r] <= hi {
      MomentsInOpen(states, events, i, p, r);
    }
    hide Run, Crossing, SeenBy, Content, Snapshot, AllViewed, SameRecords, NoContentsTwice, OpenedAt, OpenEnd;
    OneMomentIff(states, events, at, lo, hi);
    if !Crossing(events, at) {
      var k: nat :| lo <= k <= hi && SameRecords(states, at, k);
      SnapshotIff(states, events, i, p, k);
      RecordsTell(states, at, k);
    } else if NoContentsTwice(states[|events|]) {
      forall k: nat | k <= |events| ensures !Snapshot(states[i], p, states[k]) {
        SnapshotIff(states, events, i, p, k);
        if SameContents(states, at, k) {
          ContentsTell(states, events, at, k);
          NoneCross(states, events, at, k);
        }
      }
    }
  }

  lemma RecordsTell(states: seq<State>, at: map<nat, nat>, k: nat)
    requires k < |states| && SameRecords(states, at, k)
    ensures SameContents(states, at, k)
  {
    hide Content;
  }

  lemma ContentsTell(states: seq<State>, events: seq<Event>, at: map<nat, nat>, k: nat)
    requires Run(states, events) && k <= |events| && SameContents(states, at, k) && at.Keys == states[0].rels.Keys
    requires (forall r :: r in at ==> at[r] <= |events|) && NoContentsTwice(states[|events|])
    ensures SameRecords(states, at, k)
  {
    KeysFixed(states, events, k);
    hide Content;
    forall r | r in at ensures r in states[at[r]].rels && states[k].rels[r].history == states[at[r]].rels[r].history {
      var last := states[|events|].rels;
      HistoryGrows(states, events, 0, k, r);
      HistoryGrows(states, events, k, |events|, r);
      HistoryGrows(states, events, 0, at[r], r);
      HistoryGrows(states, events, at[r], |events|, r);
      var m, n := |states[k].rels[r].history|, |states[at[r]].rels[r].history|;
      assert last[r].history[..m] == states[k].rels[r].history && last[r].history[..n] == states[at[r]].rels[r].history;
    }
  }

  /** What a reader can rely on: it returns one moment of its open when nothing is
      logged between the first of its moments and the last. */
  lemma QuietOpenIsSnapshot(states: seq<State>, events: seq<Event>, i: nat, p: nat, first: nat, last: nat)
    requires Run(states, events) && i <= |events| && last <= |events| && AllViewed(states[i], p)
    requires forall r :: r in states[i].rels ==> first <= Moment(states, events, i, p, r) <= last
    requires forall t :: first <= t < last ==> !events[t].1.Append?
    ensures exists k: nat ::
              OpenedAt(events, i, p) <= k <= OpenEnd(states, events, i, p) && Snapshot(states[i], p, states[k])
  {
    KeysFixed(states, events, i);
    assert !Crossing(events, Moments(states, events, i, p));
    hide Crossing;
    OpenIsSnapshotIff(states, events, i, p);
  }
}
