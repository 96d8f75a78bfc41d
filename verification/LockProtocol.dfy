/** Writers, readers and crashes around one database directory.

    The LOCK file carries two byte-range record locks of fcntl(), chapter 3 of the
    System Interfaces volume of IEEE Std 1003.1-2017.  A writer holds byte 0
    exclusively while its handle lives.  Byte 1 is the mutation window: a writer
    holds it exclusively around the replacement of files, a reader shares it while
    it opens.  Log records are appended outside the window.  One handle per process.

    A relation on disk is a base file, replaced by renaming, and a log of whole
    records that may end in a torn one.  `history` is every operation ever logged,
    kept to say what a view means.
 */
module LockProtocol {
  import opened Options

  datatype Op = Add(key: nat) | Del(key: nat)

  function Apply(op: Op, S: set<nat>): set<nat> {
    if op.Add? then S + {op.key} else S - {op.key}
  }

  function Replay(ops: seq<Op>, S: set<nat>): set<nat> {
    if ops == [] then S else Apply(ops[|ops| - 1], Replay(ops[..|ops| - 1], S))
  }

  /** Contents after the operations `ops`. */
  function Content(ops: seq<Op>): set<nat> { Replay(ops, {}) }

  /** `folded` operations have left the log; `saved` operations are in the base. */
  datatype Rel = Rel(base: set<nat>, wal: seq<Op>, torn: bool, history: seq<Op>, folded: nat, saved: nat)

  /** What a reader knows of one relation while it opens: the log size, then the
      base, then the view.  With an empty log the base is left for the first use. */
  datatype Seen = Captured(records: nat) | Loaded(records: nat, base: set<nat>) | Viewed(view: set<nat>) | Deferred

  /** `from` and `to` are the lengths of the histories when an open began and ended;
      `late` are the relations whose base was left for the first use. */
  datatype Process =
    | Away
    | Writing(mem: map<nat, set<nat>>, compacting: Option<nat>)
    | Opening(seen: map<nat, Seen>, from: map<nat, nat>)
    | Reading(seen: map<nat, Seen>, from: map<nat, nat>, to: map<nat, nat>, late: set<nat>)

  datatype State = State(rels: map<nat, Rel>, procs: map<nat, Process>,
                         owner: set<nat>, windowWriter: set<nat>, windowReaders: set<nat>)

  function Proc(s: State, p: nat): Process { if p in s.procs then s.procs[p] else Away }

  function Lengths(s: State): map<nat, nat> { map r | r in s.rels :: |s.rels[r].history| }

  /* ---------- steps ---------- */

  /** fcntl: an exclusive lock is granted when no other process holds the byte. */
  predicate Grantable(holders: set<nat>, p: nat) { forall q :: q in holders ==> q == p }

  function WithProc(s: State, p: nat, proc: Process): State { s.(procs := s.procs[p := proc]) }

  function WithRel(s: State, r: nat, rel: Rel): State { s.(rels := s.rels[r := rel]) }

  /** The kernel drops the locks of a process that closes its handle or dies. */
  function Gone(s: State, p: nat): State {
    WithProc(s, p, Away).(owner := s.owner - {p}, windowWriter := s.windowWriter - {p},
                          windowReaders := s.windowReaders - {p})
  }

  datatype Action =
    | OpenWriter | Recover(r: nat) | Append(r: nat, op: Op) | TearAppend(r: nat)
    | EnterWindow | SaveBase(r: nat) | TruncateWal | AbandonCompact | LeaveWindow
    | BeginRead | Capture(r: nat) | LoadBase(r: nat) | ReplayWal(r: nat) | EndRead | LazyLoad(r: nat)
    | Leave

  predicate Enabled(s: State, p: nat, a: Action) {
    var proc := Proc(s, p);
    match a
    case OpenWriter => proc.Away? && Grantable(s.owner, p)
    case Recover(r) => proc.Writing? && r in s.rels && r !in proc.mem && proc.compacting.None?
    case Append(r, _) => proc.Writing? && r in s.rels && r in proc.mem && proc.compacting.None?
    case TearAppend(r) => proc.Writing? && r in s.rels && r in proc.mem && proc.compacting.None?
    case EnterWindow => proc.Writing? && Grantable(s.windowWriter + s.windowReaders, p)
    case SaveBase(r) => proc.Writing? && r in s.rels && r in proc.mem && proc.compacting.None? && p in s.windowWriter
    case TruncateWal => proc.Writing? && proc.compacting.Some? && proc.compacting.value in s.rels && p in s.windowWriter
    case AbandonCompact => proc.Writing? && proc.compacting.Some?
    case LeaveWindow => proc.Writing? && proc.compacting.None?
    case BeginRead => proc.Away? && Grantable(s.windowWriter, p)
    case Capture(r) => proc.Opening? && r in s.rels && r !in proc.seen
    case LoadBase(r) => proc.Opening? && r in s.rels && r in proc.seen && proc.seen[r].Captured?
    case ReplayWal(r) => proc.Opening? && r in s.rels && r in proc.seen && proc.seen[r].Loaded?
    case EndRead =>
      proc.Opening? && forall r :: r in s.rels ==> r in proc.seen && (proc.seen[r].Viewed? || proc.seen[r].Deferred?)
    case LazyLoad(r) => proc.Reading? && r in s.rels && r in proc.seen && proc.seen[r].Deferred?
    case Leave => !proc.Away?
  }

  function Do(s: State, p: nat, a: Action): State
    requires Enabled(s, p, a)
  {
    var proc := Proc(s, p);
    match a
    case OpenWriter => WithProc(s, p, Writing(map[], None)).(owner := s.owner + {p})
    case Recover(r) =>
      // a torn tail is cut off here, without the window
      var rel := s.rels[r];
      WithRel(WithProc(s, p, Writing(proc.mem[r := Replay(rel.wal, rel.base)], proc.compacting)), r, rel.(torn := false))
    case Append(r, op) =>
      var rel := s.rels[r];
      WithRel(WithProc(s, p, Writing(proc.mem[r := Apply(op, proc.mem[r])], proc.compacting)), r,
              rel.(wal := rel.wal + [op], history := rel.history + [op]))
    case TearAppend(r) => WithRel(Gone(s, p), r, s.rels[r].(torn := true))
    case EnterWindow => s.(windowWriter := s.windowWriter + {p})
    case SaveBase(r) =>
      var rel := s.rels[r];
      WithRel(WithProc(s, p, Writing(proc.mem, Some(r))), r, rel.(base := proc.mem[r], saved := |rel.history|))
    case TruncateWal =>
      var r := proc.compacting.value;
      var rel := s.rels[r];
      WithRel(WithProc(s, p, Writing(proc.mem, None)), r, rel.(wal := [], folded := |rel.history|))
    case AbandonCompact => WithProc(s, p, Writing(proc.mem, None))
    case LeaveWindow => s.(windowWriter := s.windowWriter - {p})
    case BeginRead => WithProc(s, p, Opening(map[], Lengths(s))).(windowReaders := s.windowReaders + {p})
    case Capture(r) =>
      var rel := s.rels[r];
      var seen := if rel.wal == [] && !rel.torn then Deferred else Captured(|rel.wal|);
      WithProc(s, p, Opening(proc.seen[r := seen], proc.from))
    case LoadBase(r) =>
      WithProc(s, p, Opening(proc.seen[r := Loaded(proc.seen[r].records, s.rels[r].base)], proc.from))
    case ReplayWal(r) =>
      // the log is read again, up to the size captured before
      var wal, n := s.rels[r].wal, proc.seen[r].records;
      var read := if n <= |wal| then wal[..n] else wal;
      WithProc(s, p, Opening(proc.seen[r := Viewed(Replay(read, proc.seen[r].base))], proc.from))
    case EndRead =>
      WithProc(s, p, Reading(proc.seen, proc.from, Lengths(s), set r | r in proc.seen && proc.seen[r].Deferred?)).(windowReaders := s.windowReaders - {p})
    case LazyLoad(r) => WithProc(s, p, Reading(proc.seen[r := Viewed(s.rels[r].base)], proc.from, proc.to, proc.late))
    case Leave => Gone(s, p)
  }

  /** A directory with empty relations and nobody in it. */
  predicate Fresh(s: State) {
    && s.procs == map[] && s.owner == {} && s.windowWriter == {} && s.windowReaders == {}
    && forall r :: r in s.rels ==> s.rels[r] == Rel({}, [], false, [], 0, 0)
  }

  type Event = (nat, Action)

  predicate Follows(s: State, e: Event, t: State) { Enabled(s, e.0, e.1) && t == Do(s, e.0, e.1) }

  /** A run: states with the events between them. */
  predicate Run(states: seq<State>, events: seq<Event>) {
    |states| == |events| + 1 && Fresh(states[0]) &&
    forall i :: 0 <= i < |events| ==> Follows(states[i], events[i], states[i + 1])
  }

  /* ---------- replaying a log over a newer base ---------- */

  /** The last operation on `key`, if there is one. */
  function LastOn(ops: seq<Op>, key: nat): Option<Op> {
    if ops == [] then None
    else if ops[|ops| - 1].key == key then Some(ops[|ops| - 1])
    else LastOn(ops[..|ops| - 1], key)
  }

  lemma {:induction false} ReplayByKey(ops: seq<Op>, S: set<nat>, key: nat)
    ensures key in Replay(ops, S) <==> if LastOn(ops, key).Some? then LastOn(ops, key).value.Add? else key in S
  {
    if ops != [] { ReplayByKey(ops[..|ops| - 1], S, key); }
  }

  lemma {:induction false} LastOnJoined(xs: seq<Op>, ys: seq<Op>, key: nat)
    ensures LastOn(xs + ys, key) == if LastOn(ys, key).Some? then LastOn(ys, key) else LastOn(xs, key)
  {
    if ys == [] {
      assert xs + ys == xs;
    } else {
      assert (xs + ys)[..|xs + ys| - 1] == xs + ys[..|ys| - 1];
      LastOnJoined(xs, ys[..|ys| - 1], key);
    }
  }

  lemma SplitPart(h: seq<Op>, a: nat, b: nat, c: nat)
    requires a <= b <= c <= |h|
    ensures h[a..c] == h[a..b] + h[b..c]
    ensures a == 0 ==> h[..b] == h[a..b] && h[..c] == h[a..c]
  {
  }

  /** Replaying operations `f` to `k` over a base that already holds the first `j` of
      the history, f <= j <= k, gives the contents after `k`: replay is idempotent. */
  lemma ReplayOverNewer(h: seq<Op>, f: nat, j: nat, k: nat)
    requires f <= j <= k <= |h|
    ensures Replay(h[f..k], Content(h[..j])) == Content(h[..k])
  {
    forall key ensures key in Replay(h[f..k], Content(h[..j])) <==> key in Content(h[..k]) {
      ReplayByKey(h[f..k], Content(h[..j]), key);
      ReplayByKey(h[..j], {}, key);
      ReplayByKey(h[..k], {}, key);
      SplitPart(h, 0, f, k);
      SplitPart(h, 0, f, j);
      SplitPart(h, f, j, k);
      LastOnJoined(h[..f], h[f..k], key);
      LastOnJoined(h[..f], h[f..j], key);
      LastOnJoined(h[f..j], h[j..k], key);
    }
  }

  /* ---------- the invariant ---------- */

  predicate RelValid(rel: Rel) {
    && rel.folded <= rel.saved <= |rel.history|
    && rel.wal == rel.history[rel.folded..]
    && rel.base == Content(rel.history[..rel.saved])
  }

  /** `view` is the contents at a moment when the history had between `lo` and `hi`
      operations. */
  ghost predicate ViewAt(rel: Rel, view: set<nat>, lo: nat, hi: nat) {
    exists m: nat :: lo <= m <= hi && m <= |rel.history| && view == Content(rel.history[..m])
  }

  /** A relation as a reader in the middle of its open has it. */
  ghost predicate SeenValid(rel: Rel, seen: Seen, from: nat) {
    match seen
    case Captured(n) => from <= rel.folded + n <= |rel.history|
    case Loaded(n, b) => from <= rel.folded + n <= |rel.history| && b == rel.base
    case Viewed(v) => ViewAt(rel, v, from, |rel.history|)
    case Deferred => from <= rel.saved
  }

  ghost predicate ProcValid(s: State, p: nat) {
    match Proc(s, p)
    case Away => p !in s.owner && p !in s.windowWriter && p !in s.windowReaders
    case Writing(mem, compacting) =>
      && p in s.owner && p !in s.windowReaders
      && (forall r :: r in mem && r in s.rels ==> mem[r] == Content(s.rels[r].history) && !s.rels[r].torn)
      && (compacting.Some? ==> compacting.value in s.rels && s.rels[compacting.value].saved == |s.rels[compacting.value].history|)
    case Opening(seen, from) =>
      && p !in s.owner && p !in s.windowWriter && p in s.windowReaders
      && from.Keys == s.rels.Keys
      && (forall r :: r in s.rels ==> s.rels[r].saved <= from[r] <= |s.rels[r].history|)
      && (forall r :: r in seen && r in s.rels ==> SeenValid(s.rels[r], seen[r], from[r]))
    case Reading(seen, from, to, late) =>
      && p !in s.owner && p !in s.windowWriter && p !in s.windowReaders
      && from.Keys == s.rels.Keys == to.Keys && (forall r :: r in s.rels ==> r in seen)
      && (forall r :: r in s.rels ==> ReadValid(s.rels[r], seen[r], from[r], to[r], r in late))
  }

  /** A relation as an opened reader has it.  A view made during the open is of a
      moment of the open; one made later, of a moment after the open began. */
  ghost predicate ReadValid(rel: Rel, seen: Seen, from: nat, to: nat, late: bool) {
    && from <= to <= |rel.history|
    && (seen.Viewed? || seen.Deferred?)
    && (seen.Viewed? ==> ViewAt(rel, seen.view, from, if late then |rel.history| else to))
    && (seen.Deferred? ==> late && from <= rel.saved)
  }

  ghost predicate Inv(s: State) {
    && (forall r :: r in s.rels ==> RelValid(s.rels[r]))
    && (forall p :: ProcValid(s, p))
    && (forall p, q :: p in s.owner && q in s.owner ==> p == q)
    && (forall p :: p in s.windowWriter ==> s.windowWriter == {p} && s.windowReaders == {} && p in s.owner)
  }

  /* ---------- every step keeps it ---------- */

  /** What the steps of other processes may do to a relation, as a process that is in
      `Opening` (when `fixed`) or in any other phase sees it. */
  ghost predicate Later(rel: Rel, rel': Rel, fixed: bool) {
    && |rel.history| <= |rel'.history| && rel'.history[..|rel.history|] == rel.history
    && rel.saved <= rel'.saved && rel.folded <= rel'.folded
    && (fixed ==> rel'.base == rel.base && rel'.saved == rel.saved && rel'.folded == rel.folded)
  }

  lemma ViewLater(rel: Rel, rel': Rel, view: set<nat>, lo: nat, hi: nat, hi': nat)
    requires ViewAt(rel, view, lo, hi) && Later(rel, rel', false) && hi <= hi'
    ensures ViewAt(rel', view, lo, hi')
  {
    var m: nat :| lo <= m <= hi && m <= |rel.history| && view == Content(rel.history[..m]);
    assert rel'.history[..m] == rel'.history[..|rel.history|][..m] == rel.history[..m];
  }

  lemma SeenLater(rel: Rel, rel': Rel, seen: Seen, from: nat)
    requires SeenValid(rel, seen, from) && Later(rel, rel', true)
    ensures SeenValid(rel', seen, from)
  {
    if seen.Viewed? { ViewLater(rel, rel', seen.view, from, |rel.history|, |rel'.history|); }
  }

  lemma ReadLater(rel: Rel, rel': Rel, seen: Seen, from: nat, to: nat, late: bool)
    requires ReadValid(rel, seen, from, to, late) && Later(rel, rel', false)
    ensures ReadValid(rel', seen, from, to, late)
  {
    if seen.Viewed? {
      ViewLater(rel, rel', seen.view, from, if late then |rel.history| else to, if late then |rel'.history| else to);
    }
  }

  predicate SameLocks(s: State, t: State, q: nat) {
    && (q in s.owner <==> q in t.owner)
    && (q in s.windowWriter <==> q in t.windowWriter)
    && (q in s.windowReaders <==> q in t.windowReaders)
  }

  /** A process that does not take the step keeps its part of the invariant. */
  lemma OthersKeep(s: State, t: State, q: nat)
    requires ProcValid(s, q) && Proc(t, q) == Proc(s, q) && SameLocks(s, t, q) && t.rels.Keys == s.rels.Keys
    requires forall r :: r in s.rels ==> Later(s.rels[r], t.rels[r], Proc(s, q).Opening?)
    requires Proc(s, q).Writing? ==> t.rels == s.rels
    ensures ProcValid(t, q)
  {
    hide RelValid, ViewAt;
    match Proc(s, q)
    case Away =>
    case Writing(mem, compacting) =>
    case Opening(seen, from) =>
      forall r | r in seen && r in s.rels ensures SeenValid(t.rels[r], seen[r], from[r]) {
        SeenLater(s.rels[r], t.rels[r], seen[r], from[r]);
      }
    case Reading(seen, from, to, late) =>
      forall r | r in s.rels ensures ReadValid(t.rels[r], seen[r], from[r], to[r], r in late) {
        ReadLater(s.rels[r], t.rels[r], seen[r], from[r], to[r], r in late);
      }
  }

  lemma LaterRefl(rel: Rel)
    ensures Later(rel, rel, true)
  {
    assert rel.history[..|rel.history|] == rel.history;
  }

  /* Steps that take or drop locks. */
  lemma LockStepKeeps(s: State, p: nat, a: Action)
    requires Inv(s) && Enabled(s, p, a)
    requires a.OpenWriter? || a.EnterWindow? || a.LeaveWindow? || a.BeginRead? || a.Leave? || a.AbandonCompact?
    ensures Inv(Do(s, p, a))
  {
    var t := Do(s, p, a);
    assert ProcValid(s, p);
    forall q ensures ProcValid(t, q) {
      if q != p {
        assert ProcValid(s, q);
        forall r | r in s.rels ensures Later(s.rels[r], t.rels[r], true) { LaterRefl(s.rels[r]); }
        OthersKeep(s, t, q);
      } else if a.BeginRead? {
        assert forall r :: r in s.rels ==> RelValid(s.rels[r]);
      }
    }
  }

  /** The log up to the captured size, replayed over the base loaded after it, is the
      contents when the size was captured. */
  lemma ReplayIsView(rel: Rel, seen: Seen, from: nat)
    requires RelValid(rel) && seen.Loaded? && SeenValid(rel, seen, from) && rel.saved <= from
    ensures seen.records <= |rel.wal|
    ensures ViewAt(rel, Replay(rel.wal[..seen.records], seen.base), from, |rel.history|)
  {
    var k := rel.folded + seen.records;
    ReplayOverNewer(rel.history, rel.folded, rel.saved, k);
    assert rel.wal[..seen.records] == rel.history[rel.folded..k];
  }

  predicate ReaderAction(a: Action) { a.Capture? || a.LoadBase? || a.ReplayWal? || a.EndRead? || a.LazyLoad? }

  predicate WriterAction(a: Action) { a.Recover? || a.Append? || a.TearAppend? || a.SaveBase? || a.TruncateWal? }

  /** A step changes the phase and the locks of its process only. */
  lemma StepIsLocal(s: State, p: nat, a: Action, q: nat)
    requires Enabled(s, p, a) && q != p
    ensures Proc(Do(s, p, a), q) == Proc(s, q) && SameLocks(s, Do(s, p, a), q)
  {
    hide Replay, Apply;
  }

  lemma ReaderStepFrame(s: State, p: nat, a: Action)
    requires Enabled(s, p, a) && ReaderAction(a)
    ensures Do(s, p, a).rels == s.rels && Do(s, p, a).owner == s.owner && Do(s, p, a).windowWriter == s.windowWriter
    ensures Do(s, p, a).windowReaders == if a.EndRead? then s.windowReaders - {p} else s.windowReaders
  {
    hide Replay, Apply;
  }

  lemma CaptureOwn(s: State, p: nat, a: Action)
    requires ProcValid(s, p) && (forall r :: r in s.rels ==> RelValid(s.rels[r])) && Enabled(s, p, a)
    requires a.Capture? || a.LoadBase? || a.ReplayWal?
    ensures ProcValid(Do(s, p, a), p)
  {
    var r, t := a.r, Do(s, p, a);
    var rel, seen, from := s.rels[r], Proc(s, p).seen, Proc(s, p).from;
    assert RelValid(rel);
    if a.ReplayWal? { ReplayIsView(rel, seen[r], from[r]); }
    hide Replay, Apply, ViewAt;
    assert SeenValid(rel, Proc(t, p).seen[r], from[r]);
  }

  lemma EndReadOwn(s: State, p: nat)
    requires ProcValid(s, p) && Enabled(s, p, EndRead) && forall r :: r in s.rels ==> RelValid(s.rels[r])
    ensures ProcValid(Do(s, p, EndRead), p)
  {
    var t := Do(s, p, EndRead);
    hide RelValid, ViewAt;
    forall r | r in s.rels
      ensures ReadValid(s.rels[r], Proc(t, p).seen[r], Proc(t, p).from[r], Proc(t, p).to[r], r in Proc(t, p).late)
    {
      assert SeenValid(s.rels[r], Proc(s, p).seen[r], Proc(s, p).from[r]);
    }
  }

  lemma LazyLoadOwn(s: State, p: nat, r: nat)
    requires ProcValid(s, p) && Enabled(s, p, LazyLoad(r)) && forall r :: r in s.rels ==> RelValid(s.rels[r])
    ensures ProcValid(Do(s, p, LazyLoad(r)), p)
  {
    var proc := Proc(s, p);
    assert RelValid(s.rels[r]) && ReadValid(s.rels[r], proc.seen[r], proc.from[r], proc.to[r], r in proc.late);
    BaseIsView(s.rels[r], proc.from[r]);
    hide RelValid, ViewAt, Replay, Apply, Content;
  }

  lemma BaseIsView(rel: Rel, from: nat)
    requires RelValid(rel) && from <= rel.saved
    ensures ViewAt(rel, rel.base, from, |rel.history|)
  {
  }

  lemma ReaderStepOwn(s: State, p: nat, a: Action)
    requires Inv(s) && Enabled(s, p, a) && ReaderAction(a)
    ensures ProcValid(Do(s, p, a), p)
  {
    assert ProcValid(s, p);
    hide ProcValid, Do, Enabled;
    match a
    case EndRead => EndReadOwn(s, p);
    case LazyLoad(r) => LazyLoadOwn(s, p, r);
    case _ => CaptureOwn(s, p, a);
  }

  lemma ReaderStepKeeps(s: State, p: nat, a: Action)
    requires Inv(s) && Enabled(s, p, a) && ReaderAction(a)
    ensures Inv(Do(s, p, a))
  {
    var t := Do(s, p, a);
    ReaderStepOwn(s, p, a);
    ReaderStepFrame(s, p, a);
    hide Do, Enabled, ProcValid, RelValid;
    forall q ensures ProcValid(t, q) {
      if q != p {
        StepIsLocal(s, p, a, q);
        forall r | r in s.rels ensures Later(s.rels[r], t.rels[r], true) { LaterRefl(s.rels[r]); }
        OthersKeep(s, t, q);
      }
    }
  }

  /** The relation a writer's step is about. */
  function Target(s: State, p: nat, a: Action): (r: nat)
    requires Enabled(s, p, a) && WriterAction(a)
    ensures r in s.rels
  {
    if a.TruncateWal? then Proc(s, p).compacting.value else a.r
  }

  /** One relation under a step of its writer. */
  lemma WriterStepRel(s: State, p: nat, a: Action, r: nat)
    requires Inv(s) && Enabled(s, p, a) && WriterAction(a) && r == Target(s, p, a)
    ensures r in s.rels && Do(s, p, a).rels.Keys == s.rels.Keys && RelValid(Do(s, p, a).rels[r])
    ensures Later(s.rels[r], Do(s, p, a).rels[r], !a.SaveBase? && !a.TruncateWal?)
  {
    assert ProcValid(s, p);
    var rel, rel' := s.rels[r], Do(s, p, a).rels[r];
    assert RelValid(rel);
    assert rel.history[..|rel.history|] == rel.history;
    hide ProcValid, Inv, Replay, Apply, SeenValid, ReadValid, ViewAt;
    match a
    case Append(_, op) => RecordAppended(rel, op);
    case _ =>
  }

  /** One more record in the log keeps a relation valid. */
  lemma RecordAppended(rel: Rel, op: Op)
    requires RelValid(rel)
    ensures var rel' := rel.(wal := rel.wal + [op], history := rel.history + [op]);
            RelValid(rel') && Later(rel, rel', true)
  {
    var history := rel.history + [op];
    assert history[..|rel.history|] == rel.history;
    assert history[..rel.saved] == rel.history[..rel.saved];
  }

  lemma WriterStepOwn(s: State, p: nat, a: Action, r: nat)
    requires Inv(s) && Enabled(s, p, a) && WriterAction(a) && r == Target(s, p, a)
    ensures ProcValid(Do(s, p, a), p)
  {
    assert ProcValid(s, p);
    var t, rel := Do(s, p, a), s.rels[r];
    assert RelValid(rel);
    match a
    case Recover(_) =>
      assert rel.history[..|rel.history|] == rel.history;
      ReplayOverNewer(rel.history, rel.folded, rel.saved, |rel.history|);
      hide Inv, RelValid, Replay;
    case Append(_, op) =>
      assert (rel.history + [op])[..|rel.history|] == rel.history;
      assert Content(rel.history + [op]) == Apply(op, Content(rel.history));
      hide Inv, RelValid, Replay, Apply;
    case _ => hide Inv, RelValid, Replay, Apply;
  }

  lemma WriterStepFrame(s: State, p: nat, a: Action, r: nat)
    requires Inv(s) && Enabled(s, p, a) && WriterAction(a) && r == Target(s, p, a)
    ensures var t := Do(s, p, a);
            && (forall r' :: r' in s.rels && r' != r ==> r' in t.rels && t.rels[r'] == s.rels[r'])
            && t.owner == (if a.TearAppend? then s.owner - {p} else s.owner)
            && t.windowWriter == (if a.TearAppend? then s.windowWriter - {p} else s.windowWriter)
            && t.windowReaders == s.windowReaders
    ensures p in s.owner && (a.SaveBase? || a.TruncateWal? ==> s.windowReaders == {})
    ensures forall q :: q != p ==> !Proc(s, q).Writing?
    ensures forall q :: Proc(s, q).Opening? ==> q in s.windowReaders
  {
    hide Replay, Apply, RelValid;
    assert ProcValid(s, p);
    forall q ensures (q != p ==> !Proc(s, q).Writing?) && (Proc(s, q).Opening? ==> q in s.windowReaders) {
      assert ProcValid(s, q);
    }
  }

  lemma WriterStepOthers(s: State, p: nat, a: Action, q: nat)
    requires Inv(s) && Enabled(s, p, a) && WriterAction(a) && q != p
    ensures ProcValid(Do(s, p, a), q)
  {
    var t, r := Do(s, p, a), Target(s, p, a);
    WriterStepRel(s, p, a, r);
    WriterStepFrame(s, p, a, r);
    StepIsLocal(s, p, a, q);
    hide Do, Enabled, ProcValid, RelValid;
    forall r' | r' in s.rels ensures Later(s.rels[r'], t.rels[r'], Proc(s, q).Opening?) {
      if r' != r { LaterRefl(s.rels[r']); }
    }
    OthersKeep(s, t, q);
  }

  lemma WriterStepKeeps(s: State, p: nat, a: Action)
    requires Inv(s) && Enabled(s, p, a) && WriterAction(a)
    ensures Inv(Do(s, p, a))
  {
    var t, r := Do(s, p, a), Target(s, p, a);
    WriterStepRel(s, p, a, r);
    WriterStepFrame(s, p, a, r);
    hide Do, Enabled, ProcValid, RelValid;
    forall q ensures ProcValid(t, q) {
      if q != p { WriterStepOthers(s, p, a, q); } else { WriterStepOwn(s, p, a, r); }
    }
    forall r' | r' in t.rels ensures RelValid(t.rels[r']) {}
  }

  /** The invariant holds in every state of every run: writers, readers and crashes
      interleaved at will. */
  lemma StepKeeps(s: State, p: nat, a: Action)
    requires Inv(s) && Enabled(s, p, a)
    ensures Inv(Do(s, p, a))
  {
    hide Inv, Enabled, Do;
    match a
    case Recover(_) => WriterStepKeeps(s, p, a);
    case Append(_, _) => WriterStepKeeps(s, p, a);
    case TearAppend(_) => WriterStepKeeps(s, p, a);
    case SaveBase(_) => WriterStepKeeps(s, p, a);
    case TruncateWal => WriterStepKeeps(s, p, a);
    case Capture(_) => ReaderStepKeeps(s, p, a);
    case LoadBase(_) => ReaderStepKeeps(s, p, a);
    case ReplayWal(_) => ReaderStepKeeps(s, p, a);
    case EndRead => ReaderStepKeeps(s, p, a);
    case LazyLoad(_) => ReaderStepKeeps(s, p, a);
    case _ => LockStepKeeps(s, p, a);
  }

  lemma {:induction false} RunInv(states: seq<State>, events: seq<Event>, i: nat)
    requires Run(states, events) && i < |states|
    ensures Inv(states[i])
  {
    if i > 0 {
      RunInv(states, events, i - 1);
      assert Follows(states[i - 1], events[i - 1], states[i]);
      StepKeeps(states[i - 1], events[i - 1].0, events[i - 1].1);
    }
  }

  /* ---------- what the protocol promises ---------- */

  /** At most one process holds byte 0, every writer holds it, and no reader shares
      the window while a writer has it. */
  lemma WritersExclude(states: seq<State>, events: seq<Event>, i: nat, p: nat, q: nat)
    requires Run(states, events) && i < |states|
    ensures p in states[i].owner && q in states[i].owner ==> p == q
    ensures Proc(states[i], p).Writing? ==> p in states[i].owner
    ensures p in states[i].windowWriter ==> Proc(states[i], p).Writing? && !Proc(states[i], q).Opening?
  {
    RunInv(states, events, i);
    assert ProcValid(states[i], p) && ProcValid(states[i], q);
  }

  /** A writer that has recovered a relation has every operation ever logged, however
      many writers died before it and wherever: between the save of a base and the
      truncation of its log, or in the middle of an append. */
  lemma WriterHasEverything(states: seq<State>, events: seq<Event>, i: nat, p: nat, r: nat)
    requires Run(states, events) && i < |states|
    requires Proc(states[i], p).Writing? && r in Proc(states[i], p).mem && r in states[i].rels
    ensures Proc(states[i], p).mem[r] == Content(states[i].rels[r].history)
  {
    RunInv(states, events, i);
    assert ProcValid(states[i], p);
  }

  /** The operations that the run logged in relation `r`, in order. */
  function Appended(events: seq<Event>, i: nat, r: nat): seq<Op>
    requires i <= |events|
  {
    if i == 0 then []
    else
      var before := Appended(events, i - 1, r);
      match events[i - 1].1
      case Append(q, op) => if q == r then before + [op] else before
      case _ => before
  }

  lemma {:induction false} HistoryIsAppended(states: seq<State>, events: seq<Event>, i: nat, r: nat)
    requires Run(states, events) && i <= |events| && r in states[i].rels
    ensures states[i].rels[r].history == Appended(events, i, r)
  {
    if i > 0 {
      assert Follows(states[i - 1], events[i - 1], states[i]);
      StepHistory(states[i - 1], events[i - 1].0, events[i - 1].1, r);
      hide Do, Enabled;
      HistoryIsAppended(states, events, i - 1, r);
    }
  }

  lemma StepHistory(s: State, p: nat, a: Action, r: nat)
    requires Enabled(s, p, a) && r in Do(s, p, a).rels
    ensures r in s.rels
    ensures Do(s, p, a).rels[r].history ==
            if a.Append? && a.r == r then s.rels[r].history + [a.op] else s.rels[r].history
  {
    hide Replay, Apply;
  }

  /** In every state of every run the two files of a relation together hold exactly
      what was logged: whoever recovers next misses nothing and invents nothing. */
  lemma FilesHoldEverything(states: seq<State>, events: seq<Event>, i: nat, r: nat)
    requires Run(states, events) && i <= |events| && r in states[i].rels
    ensures Replay(states[i].rels[r].wal, states[i].rels[r].base) == Content(Appended(events, i, r))
  {
    RunInv(states, events, i);
    HistoryIsAppended(states, events, i, r);
    var rel := states[i].rels[r];
    assert RelValid(rel) && rel.history[..|rel.history|] == rel.history;
    ReplayOverNewer(rel.history, rel.folded, rel.saved, |rel.history|);
    hide Run, Inv, Replay;
  }

  /** A compaction that comes to its end leaves an empty log beside a base with
      every operation. */
  lemma CompactionEmptiesLog(states: seq<State>, events: seq<Event>, i: nat, p: nat)
    requires Run(states, events) && i < |events| && events[i] == (p, TruncateWal)
    ensures Proc(states[i], p).Writing? && Proc(states[i], p).compacting.Some?
    ensures var r := Proc(states[i], p).compacting.value;
            && r in states[i + 1].rels && states[i + 1].rels[r].wal == []
            && states[i + 1].rels[r].base == Content(Appended(events, i + 1, r))
  {
    assert Follows(states[i], events[i], states[i + 1]);
    var r := Proc(states[i], p).compacting.value;
    FilesHoldEverything(states, events, i + 1, r);
    hide Run, Apply, Enabled;
  }

  lemma RunGrows(states: seq<State>, events: seq<Event>, p: nat, a: Action) returns (states': seq<State>, events': seq<Event>)
    requires Run(states, events) && Enabled(states[|events|], p, a)
    ensures Run(states', events') && events' == events + [(p, a)]
    ensures states'[|events'|] == Do(states[|events|], p, a)
  {
    hide Enabled, Do;
    states', events' := states + [Do(states[|events|], p, a)], events + [(p, a)];
    forall i | 0 <= i < |events'| ensures Follows(states'[i], events'[i], states'[i + 1]) {
      if i < |events| { assert Follows(states[i], events[i], states[i + 1]); }
    }
  }

  /** Ready to compact `r`: recovered, and nobody is in the window. */
  predicate CanCompact(s: State, p: nat, r: nat) {
    Proc(s, p).Writing? && Proc(s, p).compacting.None? && r in Proc(s, p).mem && r in s.rels &&
    s.windowWriter == s.windowReaders == {}
  }

  lemma SaveFollows(s: State, p: nat, r: nat) returns (t: State)
    requires CanCompact(s, p, r)
    ensures Enabled(s, p, EnterWindow) && Enabled(Do(s, p, EnterWindow), p, SaveBase(r))
    ensures t == Do(Do(s, p, EnterWindow), p, SaveBase(r))
    ensures Proc(t, p) == Writing(Proc(s, p).mem, Some(r)) && t.windowWriter == {p} && t.windowReaders == {}
    ensures t.rels == s.rels[r := s.rels[r].(base := Proc(s, p).mem[r], saved := |s.rels[r].history|)]
  {
    t := Do(Do(s, p, EnterWindow), p, SaveBase(r));
  }

  lemma TruncateFollows(s: State, p: nat, r: nat) returns (t: State)
    requires Proc(s, p).Writing? && Proc(s, p).compacting == Some(r) && r in s.rels && s.windowWriter == {p}
    ensures Enabled(s, p, TruncateWal) && Enabled(Do(s, p, TruncateWal), p, LeaveWindow)
    ensures t == Do(Do(s, p, TruncateWal), p, LeaveWindow)
    ensures t.windowWriter == {} && t.windowReaders == s.windowReaders
    ensures t.rels == s.rels[r := s.rels[r].(wal := [], folded := |s.rels[r].history|)]
  {
    t := Do(Do(s, p, TruncateWal), p, LeaveWindow);
  }

  /** With nobody else in the window a writer can always compact what it recovered,
      and afterwards the log is empty and the window free again. */
  lemma WriterCanCompact(states: seq<State>, events: seq<Event>, p: nat, r: nat)
      returns (states': seq<State>, events': seq<Event>)
    requires Run(states, events) && CanCompact(states[|events|], p, r)
    ensures Run(states', events') && events' == events + [(p, EnterWindow), (p, SaveBase(r)), (p, TruncateWal), (p, LeaveWindow)]
    ensures var s, t := states[|events|], states'[|events'|];
            && t.windowWriter == t.windowReaders == {} && t.rels.Keys == s.rels.Keys
            && t.rels[r].wal == [] && t.rels[r].base == Content(Appended(events, |events|, r))
            && forall q :: q in s.rels && q != r ==> t.rels[q] == s.rels[q]
  {
    WriterHasEverything(states, events, |events|, p, r);
    HistoryIsAppended(states, events, |events|, r);
    var s := states[|events|];
    var saved := SaveFollows(s, p, r);
    var done := TruncateFollows(saved, p, r);
    hide Run, Enabled, Do, Replay, Appended;
    states', events' := RunGrows(states, events, p, EnterWindow);
    states', events' := RunGrows(states', events', p, SaveBase(r));
    states', events' := RunGrows(states', events', p, TruncateWal);
    states', events' := RunGrows(states', events', p, LeaveWindow);
    assert states'[|events'|] == done;
  }

  /** While a process opens for reading, no step replaces a base file or takes a whole
      record out of a log. */
  lemma OpenIsUndisturbed(states: seq<State>, events: seq<Event>, i: nat, q: nat, r: nat)
    requires Run(states, events) && i < |events|
    requires Proc(states[i], q).Opening? && Proc(states[i + 1], q).Opening? && r in states[i].rels
    ensures r in states[i + 1].rels
    ensures states[i].rels[r].wal <= states[i + 1].rels[r].wal
    ensures states[i].rels[r].base == states[i + 1].rels[r].base
  {
    RunInv(states, events, i);
    assert Follows(states[i], events[i], states[i + 1]);
    NoCompaction(states[i], events[i].0, events[i].1, q);
    StepKeepsFiles(states[i], events[i].0, events[i].1, r);
  }

  /** The file of a log got shorter: whole records are gone, or the torn tail is. */
  predicate Shorter(rel': Rel, rel: Rel) {
    |rel'.wal| < |rel.wal| || (|rel'.wal| == |rel.wal| && rel.torn && !rel'.torn)
  }

  /** In a state with an open in progress, a step shortens a log exactly when it is the
      recovery of a writer that finds a torn tail. */
  lemma StepShortensIff(s: State, p: nat, a: Action, q: nat, r: nat)
    requires Inv(s) && Enabled(s, p, a) && Proc(s, q).Opening? && r in s.rels
    ensures r in Do(s, p, a).rels
    ensures Shorter(Do(s, p, a).rels[r], s.rels[r]) <==> a == Recover(r) && s.rels[r].torn
  {
    NoCompaction(s, p, a, q);
    hide Inv, Replay, Apply;
  }

  /** The last append to `r` that did not complete has not been repaired. */
  predicate TornBy(events: seq<Event>, i: nat, r: nat)
    requires i <= |events|
  {
    i > 0 &&
    (events[i - 1].1 == TearAppend(r) || (events[i - 1].1 != Recover(r) && TornBy(events, i - 1, r)))
  }

  lemma {:induction false} TornIsTornBy(states: seq<State>, events: seq<Event>, i: nat, r: nat)
    requires Run(states, events) && i <= |events| && r in states[i].rels
    ensures states[i].rels[r].torn <==> TornBy(events, i, r)
  {
    if i > 0 {
      assert Follows(states[i - 1], events[i - 1], states[i]);
      StepTears(states[i - 1], events[i - 1].0, events[i - 1].1, r);
      hide Do, Enabled;
      TornIsTornBy(states, events, i - 1, r);
    }
  }

  lemma StepTears(s: State, p: nat, a: Action, r: nat)
    requires Enabled(s, p, a) && r in Do(s, p, a).rels
    ensures r in s.rels
    ensures Do(s, p, a).rels[r].torn <==> a == TearAppend(r) || (a != Recover(r) && s.rels[r].torn)
  {
    hide Replay, Apply;
  }

  /** Step `k` shortens the log of `r`. */
  predicate ShortensAt(states: seq<State>, k: nat, r: nat) {
    k + 1 < |states| && r in states[k].rels && r in states[k + 1].rels && Shorter(states[k + 1].rels[r], states[k].rels[r])
  }

  /** Step `k` is the arrival of a writer that repairs what an earlier one left of an
      append. */
  predicate RepairsAt(events: seq<Event>, k: nat, r: nat) {
    k < |events| && events[k].1 == Recover(r) && TornBy(events, k, r)
  }

  /** A log gets shorter at a step inside an open exactly when a writer repairs it there;
      what its writers did so far decides it, nothing a reader does. */
  lemma ShortensIffRepairs(states: seq<State>, events: seq<Event>, k: nat, q: nat, r: nat)
    requires Run(states, events) && k < |events| && r in states[k].rels && Proc(states[k], q).Opening?
    ensures ShortensAt(states, k, r) <==> RepairsAt(events, k, r)
  {
    RunInv(states, events, k);
    assert Follows(states[k], events[k], states[k + 1]);
    StepShortensIff(states[k], events[k].0, events[k].1, q, r);
    TornIsTornBy(states, events, k, r);
    hide Inv, Do, Enabled, Run, Shorter, TornBy;
  }

  /** Over a whole open: its logs only grow exactly when no such writer arrives in it. */
  lemma OpenKeepsLogIff(states: seq<State>, events: seq<Event>, from: nat, to: nat, q: nat, r: nat)
    requires Run(states, events) && from <= to <= |events| && r in states[from].rels
    requires forall k :: from <= k < to ==> Proc(states[k], q).Opening?
    ensures (exists k: nat :: from <= k < to && ShortensAt(states, k, r)) <==>
            (exists k: nat :: from <= k < to && RepairsAt(events, k, r))
  {
    RelationStays(states, events, from, to, r);
    forall k: nat | from <= k < to ensures ShortensAt(states, k, r) <==> RepairsAt(events, k, r) {
      ShortensIffRepairs(states, events, k, q, r);
    }
    hide *;
  }

  lemma {:induction false} RelationStays(states: seq<State>, events: seq<Event>, from: nat, to: nat, r: nat)
    requires Run(states, events) && from <= to <= |events| && r in states[from].rels
    ensures forall k :: from <= k <= to ==> r in states[k].rels
  {
    if from < to {
      RelationStays(states, events, from, to - 1, r);
      assert Follows(states[to - 1], events[to - 1], states[to]);
      hide Replay, Apply;
    }
  }

  /** A reader in its open shares the window, so no writer compacts. */
  lemma NoCompaction(s: State, p: nat, a: Action, q: nat)
    requires Inv(s) && Enabled(s, p, a) && Proc(s, q).Opening?
    ensures !a.SaveBase? && !a.TruncateWal?
  {
    hide RelValid, ViewAt, SeenValid, ReadValid;
    assert ProcValid(s, q);
  }

  lemma StepKeepsFiles(s: State, p: nat, a: Action, r: nat)
    requires Enabled(s, p, a) && !a.SaveBase? && !a.TruncateWal? && r in s.rels
    ensures r in Do(s, p, a).rels && s.rels[r].wal <= Do(s, p, a).rels[r].wal
    ensures s.rels[r].base == Do(s, p, a).rels[r].base
  {
    hide Replay, Apply;
  }

  /** Each relation an opened reader returns is the writer's contents at a moment
      inside the open; one whose base was left for the first use, at a moment after
      the open began. */
  lemma ReaderView(states: seq<State>, events: seq<Event>, i: nat, p: nat, r: nat)
    requires Run(states, events) && i < |states|
    requires Proc(states[i], p).Reading? && r in states[i].rels
    ensures var proc := Proc(states[i], p);
            && r in proc.seen && r in proc.from && r in proc.to
            && (proc.seen[r].Viewed? ==>
                  ViewAt(states[i].rels[r], proc.seen[r].view, proc.from[r],
                         if r in proc.late then |states[i].rels[r].history| else proc.to[r]))
            && (proc.seen[r].Deferred? ==> r in proc.late)
            && (proc.seen[r].Viewed? || proc.seen[r].Deferred?)
  {
    RunInv(states, events, i);
    assert ProcValid(states[i], p);
    var proc := Proc(states[i], p);
    assert ReadValid(states[i].rels[r], proc.seen[r], proc.from[r], proc.to[r], r in proc.late);
  }

  /* ---------- what it does not promise ---------- */

  const NO_LOG := Rel({}, [], false, [], 0, 0)

  /** A log can get shorter inside a reader's open after all: a new writer cuts the
      torn tail of a dead one without waiting for the window.  No whole record goes,
      so `OpenIsUndisturbed` still holds. */
  lemma TornTailCutInsideOpen() returns (states: seq<State>, events: seq<Event>)
    ensures Run(states, events) && |events| == 6
    ensures Proc(states[5], 2).Opening? && Proc(states[6], 2).Opening?
    ensures 0 in states[5].rels && states[5].rels[0].torn && 0 in states[6].rels && !states[6].rels[0].torn
  {
    var s0 := State(map[0 := NO_LOG], map[], {}, {}, {});
    states, events := [s0], [];
    states, events := Extend(states, events, 1, OpenWriter);
    states, events := Extend(states, events, 1, Recover(0));
    states, events := Extend(states, events, 1, TearAppend(0));
    states, events := Extend(states, events, 2, BeginRead);
    states, events := Extend(states, events, 3, OpenWriter);
    hide Run;
    states, events := Extend(states, events, 3, Recover(0));
  }

  /* A run in which process 1 logs the same operations in relations 0 and 1 and
     process 2 opens in between. */

  const TWO_OPS: seq<Op> := [Add(5), Add(6)]

  function Held(n: nat): set<nat> { if n == 0 then {} else if n == 1 then {5} else {5, 6} }

  /** `n` operations logged, none folded. */
  predicate Logged(rel: Rel, n: nat) {
    n <= 2 && rel.wal == rel.history == TWO_OPS[..n] && rel.base == {} && !rel.torn
  }

  predicate Midway(s: State, n0: nat, n1: nat, reader: Process) {
    && s.rels.Keys == {0, 1} && Logged(s.rels[0], n0) && Logged(s.rels[1], n1)
    && Proc(s, 1) == Writing(map[0 := Held(n0), 1 := Held(n1)], None)
    && Proc(s, 2) == reader && s.windowWriter == {}
  }

  /** Relation 1 is not ahead of relation 0 by an operation. */
  predicate InStep(s: State) {
    0 in s.rels && 1 in s.rels ==>
      !(Content(s.rels[0].history) == {5} && Content(s.rels[1].history) == {5, 6})
  }

  lemma HeldIsContent(n: nat)
    requires n <= 2
    ensures Content(TWO_OPS[..n]) == Held(n)
  {
    var one, two := [Add(5)], [Add(5), Add(6)];
    assert TWO_OPS[..0] == [] && TWO_OPS[..1] == one && TWO_OPS[..2] == two;
    assert one[..0] == [] && two[..1] == one;
    assert Replay(one, {}) == Apply(Add(5), {}) && Replay(two, {}) == Apply(Add(6), Replay(one, {}));
  }

  lemma MidwayInStep(s: State, n0: nat, n1: nat, reader: Process)
    requires Midway(s, n0, n1, reader) && !(n0 == 1 && n1 == 2)
    ensures InStep(s)
  {
    HeldIsContent(n0);
    HeldIsContent(n1);
    hide Replay;
  }

  lemma Extend(states: seq<State>, events: seq<Event>, p: nat, a: Action) returns (states': seq<State>, events': seq<Event>)
    requires Run(states, events) && Enabled(states[|events|], p, a)
    requires (forall s :: s in states ==> InStep(s)) && InStep(Do(states[|events|], p, a))
    ensures Run(states', events') && events' == events + [(p, a)]
    ensures states' == states + [Do(states[|events|], p, a)] && forall s :: s in states' ==> InStep(s)
  {
    hide Enabled, Do, InStep;
    states', events' := states + [Do(states[|events|], p, a)], events + [(p, a)];
    forall i | 0 <= i < |events'| ensures Follows(states'[i], events'[i], states'[i + 1]) {
      if i < |events| { assert Follows(states[i], events[i], states[i + 1]); }
    }
  }

  /** One more operation in relation 0, then in relation 1. */
  lemma LogBoth(states: seq<State>, events: seq<Event>, n: nat, reader: Process)
      returns (states': seq<State>, events': seq<Event>)
    requires Run(states, events) && n < 2 && Midway(states[|events|], n, n, reader) && forall s :: s in states ==> InStep(s)
    ensures Run(states', events') && events' == events + [(1, Append(0, TWO_OPS[n])), (1, Append(1, TWO_OPS[n]))]
    ensures Midway(states'[|events'|], n + 1, n + 1, reader) && forall s :: s in states' ==> InStep(s)
  {
    AppendsFollow(states[|events|], n, n, reader);
    MidwayInStep(Do(states[|events|], 1, Append(0, TWO_OPS[n])), n + 1, n, reader);
    hide Midway, Enabled, Do, InStep;
    states', events' := Extend(states, events, 1, Append(0, TWO_OPS[n]));
    AppendsFollow(states'[|events'|], n + 1, n, reader);
    MidwayInStep(Do(states'[|events'|], 1, Append(1, TWO_OPS[n])), n + 1, n + 1, reader);
    states', events' := Extend(states', events', 1, Append(1, TWO_OPS[n]));
    assert events + [(1, Append(0, TWO_OPS[n]))] + [(1, Append(1, TWO_OPS[n]))] ==
           events + [(1, Append(0, TWO_OPS[n])), (1, Append(1, TWO_OPS[n]))];
  }

  lemma AppendsFollow(s: State, n0: nat, n1: nat, reader: Process)
    requires Midway(s, n0, n1, reader)
    ensures n0 < 2 ==> Enabled(s, 1, Append(0, TWO_OPS[n0])) && Midway(Do(s, 1, Append(0, TWO_OPS[n0])), n0 + 1, n1, reader)
    ensures n1 < 2 ==> Enabled(s, 1, Append(1, TWO_OPS[n1])) && Midway(Do(s, 1, Append(1, TWO_OPS[n1])), n0, n1 + 1, reader)
  {
    assert n0 < 2 ==> TWO_OPS[..n0] + [TWO_OPS[n0]] == TWO_OPS[..n0 + 1] && Apply(TWO_OPS[n0], Held(n0)) == Held(n0 + 1);
    assert n1 < 2 ==> TWO_OPS[..n1] + [TWO_OPS[n1]] == TWO_OPS[..n1 + 1] && Apply(TWO_OPS[n1], Held(n1)) == Held(n1 + 1);
    hide Apply, Held, Replay;
  }

  /** The reader reads relation `r`, all of whose `n` operations are in the log. */
  lemma ReadOne(states: seq<State>, events: seq<Event>, n: nat, r: nat, seen: map<nat, Seen>, from: map<nat, nat>)
      returns (states': seq<State>, events': seq<Event>)
    requires Run(states, events) && 0 < n <= 2 && r < 2 && r !in seen && forall s :: s in states ==> InStep(s)
    requires Midway(states[|events|], n, n, Opening(seen, from))
    ensures Run(states', events') && events' == events + [(2, Capture(r)), (2, LoadBase(r)), (2, ReplayWal(r))]
    ensures Midway(states'[|events'|], n, n, Opening(seen[r := Viewed(Held(n))], from))
    ensures forall s :: s in states' ==> InStep(s)
  {
    var captured, loaded := seen[r := Captured(n)], seen[r := Loaded(n, {})];
    assert captured[r := Loaded(n, {})] == loaded && loaded[r := Viewed(Held(n))] == seen[r := Viewed(Held(n))];
    ReadStep(states[|events|], n, r, seen, from, Capture(r));
    MidwayInStep(Do(states[|events|], 2, Capture(r)), n, n, Opening(captured, from));
    hide Midway, Enabled, Do, InStep;
    states', events' := Extend(states, events, 2, Capture(r));
    ReadStep(states'[|events'|], n, r, captured, from, LoadBase(r));
    MidwayInStep(Do(states'[|events'|], 2, LoadBase(r)), n, n, Opening(loaded, from));
    states', events' := Extend(states', events', 2, LoadBase(r));
    ReadStep(states'[|events'|], n, r, loaded, from, ReplayWal(r));
    MidwayInStep(Do(states'[|events'|], 2, ReplayWal(r)), n, n, Opening(seen[r := Viewed(Held(n))], from));
    states', events' := Extend(states', events', 2, ReplayWal(r));
    assert events' == events + [(2, Capture(r)), (2, LoadBase(r)), (2, ReplayWal(r))];
  }

  lemma ReadStep(s: State, n: nat, r: nat, seen: map<nat, Seen>, from: map<nat, nat>, a: Action)
    requires 0 < n <= 2 && r < 2 && Midway(s, n, n, Opening(seen, from))
    requires match a
             case Capture(k) => k == r && r !in seen
             case LoadBase(k) => k == r && r in seen && seen[r] == Captured(n)
             case ReplayWal(k) => k == r && r in seen && seen[r] == Loaded(n, {})
             case _ => false
    ensures Enabled(s, 2, a)
    ensures Midway(Do(s, 2, a), n, n,
                   Opening(seen[r := if a.Capture? then Captured(n) else if a.LoadBase? then Loaded(n, {}) else Viewed(Held(n))], from))
  {
    HeldIsContent(n);
    assert TWO_OPS[..n][..n] == TWO_OPS[..n];
    hide Replay, Held;
  }

  lemma WriterArrives() returns (states: seq<State>, events: seq<Event>)
    ensures Run(states, events) && |events| == 3 && Midway(states[3], 0, 0, Away) && forall s :: s in states ==> InStep(s)
  {
    var s0 := State(map[0 := NO_LOG, 1 := NO_LOG], map[], {}, {}, {});
    var s1 := Do(s0, 1, OpenWriter);
    var s2 := Do(s1, 1, Recover(0));
    var s3 := Do(s2, 1, Recover(1));
    assert Midway(s3, 0, 0, Away);
    assert InStep(s0) && InStep(s1) && InStep(s2) && InStep(s3);
    states, events := [s0, s1, s2, s3], [(1, OpenWriter), (1, Recover(0)), (1, Recover(1))];
  }

  lemma ReaderArrives(states: seq<State>, events: seq<Event>) returns (states': seq<State>, events': seq<Event>)
    requires Run(states, events) && Midway(states[|events|], 1, 1, Away) && forall s :: s in states ==> InStep(s)
    ensures Run(states', events')
    ensures Midway(states'[|events'|], 1, 1, Opening(map[], Lengths(states[|events|])))
    ensures forall s :: s in states' ==> InStep(s)
  {
    var from := Lengths(states[|events|]);
    var s := Do(states[|events|], 2, BeginRead);
    assert Midway(s, 1, 1, Opening(map[], from));
    MidwayInStep(s, 1, 1, Opening(map[], from));
    hide Do, InStep, Replay;
    states', events' := Extend(states, events, 2, BeginRead);
  }

  /** Each relation is of one moment, but two relations may be of different ones: the
      reader has a record of relation 1 and misses an earlier record of relation 0,
      and in no state of the run did the writer have that pair.  `dl.h` promises the
      state as of the open. */
  lemma MomentsDiffer() returns (states: seq<State>, events: seq<Event>, from: map<nat, nat>)
    ensures Run(states, events)
    ensures Midway(states[|events|], 2, 2, Opening(map[0 := Viewed({5}), 1 := Viewed({5, 6})], from))
    ensures Enabled(states[|events|], 2, EndRead)
    ensures forall s :: s in states ==> InStep(s)
  {
    hide Do, InStep, Replay, Content;
    states, events := WriterArrives();
    states, events := LogBoth(states, events, 0, Away);
    from := Lengths(states[|events|]);
    states, events := ReaderArrives(states, events);
    states, events := ReadOne(states, events, 1, 0, map[], from);
    assert map[][0 := Viewed(Held(1))] == map[0 := Viewed({5})];
    states, events := LogBoth(states, events, 1, Opening(map[0 := Viewed({5})], from));
    states, events := ReadOne(states, events, 2, 1, map[0 := Viewed({5})], from);
    assert map[0 := Viewed({5})][1 := Viewed(Held(2))] == map[0 := Viewed({5}), 1 := Viewed({5, 6})];
  }
}
