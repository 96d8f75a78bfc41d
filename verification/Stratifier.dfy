/** Rule analysis: strata and recursion flags for a rule set, or rejection.

    Strata start at zero and are raised along the edges until nothing changes.
    Then recursion is found as the strong components of the positive edges, and a
    second round of raising puts the readers of a recursive relation outside its
    component above it.  A rule set is accepted exactly when some stratification
    exists, and what is accepted is what the evaluator needs.
 */
module Stratifier {
  import opened Datalog
  import opened Fixpoint
  import opened NonRecursive
  import opened StratumEval
  import opened Components
  import opened Options
  import opened RuleGraph
  import opened Sets

  const MAX_RELS: nat := 64
  const RAISE_LIMIT: nat := 10000
  const STRATUM_CAP: nat := 1000000

  datatype Analysis = Rejected | Accepted(strata: Strata, recursive: set<nat>)

  /* ---------- raising ---------- */

  /** Edge `e` forces its target strictly above its source. */
  predicate Strict(e: Edge, flags: set<nat>, comp: seq<int>) {
    e.negative || (e.from in flags && e.from < |comp| && e.to < |comp| && comp[e.from] != comp[e.to])
  }

  predicate Satisfied(e: Edge, flags: set<nat>, comp: seq<int>, s: seq<nat>)
    requires e.from < |s| && e.to < |s|
  {
    s[e.from] + (if Strict(e, flags, comp) then 1 else 0) <= s[e.to]
  }

  ghost predicate Feasible(edges: seq<Edge>, flags: set<nat>, comp: seq<int>, s: seq<nat>) {
    InRange(edges, |s|) && forall k :: 0 <= k < |edges| ==> Satisfied(edges[k], flags, comp, s)
  }

  predicate NotAbove(s: seq<nat>, t: seq<nat>) {
    |s| == |t| && forall i :: 0 <= i < |s| ==> s[i] <= t[i]
  }

  predicate Capped(s: seq<nat>) {
    forall i :: 0 <= i < |s| ==> s[i] <= STRATUM_CAP
  }

  function Needed(e: Edge, flags: set<nat>, comp: seq<int>, s: seq<nat>): nat
    requires e.from < |s|
  {
    if Strict(e, flags, comp) then
      if s[e.from] + 1 > STRATUM_CAP then STRATUM_CAP else s[e.from] + 1
    else s[e.from]
  }

  ghost function Sum(s: seq<nat>): nat {
    if s == [] then 0 else s[|s| - 1] + Sum(s[..|s| - 1])
  }

  lemma {:induction false} SumRaised(s: seq<nat>, i: nat, v: nat)
    requires i < |s| && s[i] < v
    ensures Sum(s[i := v]) > Sum(s)
  {
    var front := s[..|s| - 1];
    if i == |s| - 1 {
      assert s[i := v][..|s| - 1] == front;
    } else {
      SumRaised(front, i, v);
      assert s[i := v][..|s| - 1] == front[i := v];
    }
  }

  lemma {:induction false} SumBound(s: seq<nat>, t: seq<nat>)
    requires NotAbove(s, t)
    ensures Sum(s) <= Sum(t)
  {
    if s != [] { SumBound(s[..|s| - 1], t[..|t| - 1]); }
  }

  lemma {:induction false} SumSmall(s: seq<nat>, b: nat)
    requires forall i :: 0 <= i < |s| ==> s[i] <= b
    ensures Sum(s) <= |s| * b
  {
    if s != [] { SumSmall(s[..|s| - 1], b); }
  }

  /** Raise strata along the edges until a sweep changes nothing, or the limit. */
  method Raise(edges: seq<Edge>, flags: set<nat>, comp: seq<int>, stratum: array<nat>, ghost bound: seq<nat>) returns (settled: bool)
    requires InRange(edges, stratum.Length) && stratum.Length <= MAX_RELS
    requires |bound| == stratum.Length && forall i :: 0 <= i < |bound| ==> bound[i] < MAX_RELS
    modifies stratum
    ensures settled ==> forall k :: 0 <= k < |edges| ==> Needed(edges[k], flags, comp, stratum[..]) <= stratum[edges[k].to]
    ensures Feasible(edges, flags, comp, bound) && old(NotAbove(stratum[..], bound)) ==> settled && NotAbove(stratum[..], bound)
    ensures old(Capped(stratum[..])) ==> Capped(stratum[..])
  {
    ghost var fits := Feasible(edges, flags, comp, bound) && NotAbove(stratum[..], bound);
    var iteration := 0;
    SumSmall(bound, MAX_RELS - 1);
    while true
      invariant fits ==> NotAbove(stratum[..], bound) && iteration <= Sum(stratum[..])
      invariant iteration <= RAISE_LIMIT
      invariant old(Capped(stratum[..])) ==> Capped(stratum[..])
      decreases RAISE_LIMIT - iteration
    {
      ghost var before := Sum(stratum[..]);
      var changed := Sweep(edges, flags, comp, stratum, bound);
      iteration := iteration + 1;
      if !changed { return true; }
      if fits {
        SumBound(stratum[..], bound);
        assert |bound| * (MAX_RELS - 1) <= MAX_RELS * (MAX_RELS - 1);
      }
      if iteration >= RAISE_LIMIT { return false; }
    }
  }

  method Sweep(edges: seq<Edge>, flags: set<nat>, comp: seq<int>, stratum: array<nat>, ghost bound: seq<nat>) returns (changed: bool)
    requires InRange(edges, stratum.Length) && |bound| == stratum.Length
    modifies stratum
    ensures !changed ==> forall k :: 0 <= k < |edges| ==> Needed(edges[k], flags, comp, stratum[..]) <= stratum[edges[k].to]
    ensures changed ==> Sum(stratum[..]) > old(Sum(stratum[..]))
    ensures Feasible(edges, flags, comp, bound) && old(NotAbove(stratum[..], bound)) ==> NotAbove(stratum[..], bound)
    ensures old(Capped(stratum[..])) ==> Capped(stratum[..])
  {
    changed := false;
    ghost var start := stratum[..];
    for i := 0 to |edges|
      invariant !changed ==> stratum[..] == start
      invariant !changed ==> forall k :: 0 <= k < i ==> Needed(edges[k], flags, comp, start) <= start[edges[k].to]
      invariant changed ==> Sum(stratum[..]) > Sum(start)
      invariant Feasible(edges, flags, comp, bound) && NotAbove(start, bound) ==> NotAbove(stratum[..], bound)
      invariant Capped(start) ==> Capped(stratum[..])
    {
      var e := edges[i];
      var needed := Needed(e, flags, comp, stratum[..]);
      if stratum[e.to] < needed {
        SumRaised(stratum[..], e.to, needed);
        ghost var raised := stratum[..][e.to := needed];
        if Feasible(edges, flags, comp, bound) { assert Satisfied(e, flags, comp, bound); }
        stratum[e.to] := needed;
        assert stratum[..] == raised;
        changed := true;
      }
    }
  }

  /* ---------- a bound for the strata ---------- */

  /** How many nodes lie strictly below `v`: they reach it and it does not reach them. */
  ghost function Depth(g: Graph, v: nat): nat {
    |set u: nat | u < |g| && Reaches(g, u, v) && !Reaches(g, v, u)|
  }

  lemma DepthEdge(g: Graph, f: nat, t: nat)
    requires WellFormed(g) && f < |g| && t < |g| && t in g[f]
    ensures Depth(g, f) <= Depth(g, t)
    ensures !Reaches(g, t, f) ==> Depth(g, f) < Depth(g, t)
  {
    ReachesStep(g, f, t);
    var below := set u: nat | u < |g| && Reaches(g, u, f) && !Reaches(g, f, u);
    var above := set u: nat | u < |g| && Reaches(g, u, t) && !Reaches(g, t, u);
    forall u | u in below ensures u in above {
      ReachesTrans(g, u, f, t);
      if Reaches(g, t, u) { ReachesTrans(g, f, t, u); }
    }
    SubsetSize(below, above);
    if !Reaches(g, t, f) {
      ReachesItself(g, f);
      SubsetSize(below + {f}, above);
    }
  }

  lemma DepthSmall(g: Graph, v: nat)
    requires v < |g|
    ensures Depth(g, v) < |g|
  {
    var below := set u: nat | u < |g| && Reaches(g, u, v) && !Reaches(g, v, u);
    ReachesItself(g, v);
    SubsetSize(below, NodesBelow(|g|) - {v});
  }

  ghost function NodesBelow(n: nat): (nodes: set<nat>)
    ensures |nodes| == n && forall u: nat :: u in nodes <==> u < n
  {
    if n == 0 then {} else NodesBelow(n - 1) + {n - 1}
  }

  ghost function Depths(g: Graph): (d: seq<nat>)
    ensures |d| == |g| && forall v: nat :: v < |g| ==> d[v] == Depth(g, v)
  {
    seq(|g|, v requires 0 <= v < |g| => Depth(g, v))
  }

  /** Along a walk strata do not fall, and rise if it is not a positive walk. */
  lemma {:induction false} WalkRises(edges: seq<Edge>, n: nat, full: Graph, pos: Graph, s: seq<nat>, x: nat, y: nat, p: seq<nat>)
    requires IsGraph(edges, n, false, full) && IsGraph(edges, n, true, pos) && |s| == n
    requires Feasible(edges, {}, [], s)
    requires Walk(full, p) && p[0] == x && p[|p| - 1] == y
    ensures s[x] <= s[y] && (Reaches(pos, x, y) || s[x] < s[y])
    decreases |p|
  {
    if |p| == 1 {
      ReachesItself(pos, x);
    } else {
      var z := p[|p| - 2];
      assert Walk(full, p[..|p| - 1]);
      WalkRises(edges, n, full, pos, s, x, z, p[..|p| - 1]);
      assert p[|p| - 2 + 1] in full[z];
      var k :| 0 <= k < |edges| && edges[k].from == z && edges[k].to == y;
      assert Satisfied(edges[k], {}, [], s);
      if !edges[k].negative {
        assert HasEdge(edges, true, z, y);
        ReachesStep(pos, z, y);
        if Reaches(pos, x, z) { ReachesTrans(pos, x, z, y); }
      }
    }
  }

  /** If some stratification exists, depths do not fall along an edge, and rise
      along a negative one and along one between two positive components. */
  lemma DepthsRise(edges: seq<Edge>, n: nat, full: Graph, pos: Graph, s: seq<nat>, k: nat)
    requires IsGraph(edges, n, false, full) && IsGraph(edges, n, true, pos) && |s| == n
    requires Feasible(edges, {}, [], s) && k < |edges|
    ensures var e := edges[k];
            && Depth(full, e.from) <= Depth(full, e.to)
            && (e.negative || !Mutual(pos, e.from, e.to) ==> Depth(full, e.from) < Depth(full, e.to))
  {
    var f, t := edges[k].from, edges[k].to;
    assert HasEdge(edges, false, f, t);
    DepthEdge(full, f, t);
    assert Satisfied(edges[k], {}, [], s);
    if Reaches(full, t, f) {
      var p :| Walk(full, p) && p[0] == t && p[|p| - 1] == f;
      WalkRises(edges, n, full, pos, s, t, f, p);
      assert HasEdge(edges, true, f, t);
      ReachesStep(pos, f, t);
    }
  }

  /* ---------- rules and edges ---------- */

  function StrataMap(s: seq<nat>): (m: Strata)
    ensures forall v: nat :: StratumOf(m, v) == if v < |s| then s[v] else 0
  {
    map v: nat | v < |s| :: s[v]
  }

  lemma StratifiedIsFeasible(rules: seq<Rule>, edges: seq<Edge>, n: nat, strata: Strata, s: seq<nat>)
    requires Declared(rules, n) && (forall e :: e in edges <==> IsEdge(rules, e)) && InRange(edges, n)
    requires |s| == n && forall v: nat :: v < n ==> s[v] == StratumOf(strata, v)
    ensures Stratified(rules, strata) <==> Feasible(edges, {}, [], s)
  {
    if Stratified(rules, strata) {
      forall k | 0 <= k < |edges| ensures Satisfied(edges[k], {}, [], s) {
        assert edges[k] in edges;
        var r, i :| r in rules && 0 <= i < |r.body| && !r.body[i].Test? &&
                    edges[k] == Edge(r.body[i].atom.rel, r.head.rel, r.body[i].Neg?);
        assert RuleStratified(r, strata);
      }
    }
    if Feasible(edges, {}, [], s) {
      forall r, i | r in rules && 0 <= i < |r.body| && !r.body[i].Test?
        ensures StratumOf(strata, r.body[i].atom.rel) + (if r.body[i].Neg? then 1 else 0) <= StratumOf(strata, r.head.rel)
      {
        var e := Edge(r.body[i].atom.rel, r.head.rel, r.body[i].Neg?);
        assert IsEdge(rules, e);
        var k :| 0 <= k < |edges| && edges[k] == e;
        assert Satisfied(edges[k], {}, [], s);
      }
      forall r | r in rules ensures RuleStratified(r, strata) {}
    }
  }

  /* ---------- the analysis ---------- */

  method ReadsItself(edges: seq<Edge>) returns (loops: set<nat>)
    ensures forall x :: x in loops <==> exists k :: 0 <= k < |edges| && edges[k].from == x == edges[k].to
  {
    loops := {};
    for k := 0 to |edges|
      invariant forall x :: x in loops <==> exists j :: 0 <= j < k && edges[j].from == x == edges[j].to
    {
      if edges[k].from == edges[k].to { loops := loops + {edges[k].to}; }
    }
  }

  method NegativeEdgesRise(edges: seq<Edge>, stratum: array<nat>) returns (ok: bool)
    requires InRange(edges, stratum.Length)
    ensures ok <==> forall k :: 0 <= k < |edges| && edges[k].negative ==> stratum[edges[k].from] < stratum[edges[k].to]
  {
    for k := 0 to |edges|
      invariant forall j :: 0 <= j < k && edges[j].negative ==> stratum[edges[j].from] < stratum[edges[j].to]
    {
      if edges[k].negative && stratum[edges[k].to] <= stratum[edges[k].from] { return false; }
    }
    return true;
  }

  method AddMembers(start: set<nat>, members: array<bool>) returns (flags: set<nat>)
    ensures forall x: nat :: x in flags <==> x in start || (x < members.Length && members[x])
  {
    flags := start;
    for ri := 0 to members.Length
      invariant forall x: nat :: x in flags <==> x in start || (x < ri && members[x])
    {
      if members[ri] { flags := flags + {ri}; }
    }
  }

  /** Relations flagged as recursive: members of larger positive components, relations
      with a self edge, what earlier loads already marked, and relations whose entry of
      the unwritten label array happens to be the label of a component found before. */
  method RecursionFlags(edges: seq<Edge>, n: nat, carried: set<nat>, comp: array<int>)
      returns (flags: set<nat>, ghost pos: Graph, ghost found: seq<nat>)
    requires InRange(edges, n) && comp.Length == n
    modifies comp
    ensures IsGraph(edges, n, true, pos) && AllNodes(pos, found) && SourcesFirst(pos, found)
    ensures forall x: nat, y: nat :: x < n && y < n ==> (comp[x] == comp[y] <==> Mutual(pos, x, y))
    ensures (forall x: nat :: x < n ==> 0 <= comp[x] < n) && (n > 0 ==> comp[0] == 0)
    ensures FlagsCover(edges, n, pos, flags)
    ensures FlagsExactly(edges, n, pos, carried, found, old(comp[..]), comp[..], flags)
  {
    var g := Adjacency(edges, n, true);
    var flipped := seq(|edges|, k requires 0 <= k < |edges| => Flip(edges[k]));
    var rev := Adjacency(flipped, n, true);
    pos := g;
    FlippedGraph(edges, flipped, n, g, rev);
    hide Reversal;
    ghost var stale := comp[..];
    var members;
    members, found := StrongComponents(g, rev, comp);
    var loops := ReadsItself(edges);
    hide StaleHit, InLargerComponent, IsGraph, Mutual, SourcesFirst, AllNodes, Flagged;
    flags := AddMembers(loops + carried, members);
    FlagsCovered(edges, n, pos, carried, found, stale, comp[..], members[..], loops, flags);
  }

  lemma FlagsCovered(edges: seq<Edge>, n: nat, pos: Graph, carried: set<nat>, found: seq<nat>, stale: seq<int>, comp: seq<int>,
                     members: seq<bool>, loops: set<nat>, flags: set<nat>)
    requires |pos| == n == |members| && AllNodes(pos, found) && Flagged(pos, found, stale, comp, members)
    requires forall x :: x in loops <==> exists k :: 0 <= k < |edges| && edges[k].from == x == edges[k].to
    requires forall x: nat :: x in flags <==> x in loops || x in carried || (x < n && members[x])
    ensures FlagsCover(edges, n, pos, flags)
    ensures FlagsExactly(edges, n, pos, carried, found, stale, comp, flags)
  {
    hide StaleHit;
    forall x: nat | x < n && InLargerComponent(pos, x) ensures x in flags {}
    forall k | 0 <= k < |edges| && edges[k].from == edges[k].to ensures edges[k].from in flags {}
  }

  /** The flags of the relations, wrong ones included. */
  ghost predicate FlagsExactly(edges: seq<Edge>, n: nat, pos: Graph, carried: set<nat>, found: seq<nat>, stale: seq<int>,
                               comp: seq<int>, flags: set<nat>) {
    forall x: nat :: x < n ==>
      (x in flags <==> InLargerComponent(pos, x) || HasEdge(edges, false, x, x) || x in carried || StaleHit(pos, found, stale, comp, x))
  }

  ghost predicate FlagsCover(edges: seq<Edge>, n: nat, pos: Graph, flags: set<nat>) {
    && (forall x: nat :: x < n && InLargerComponent(pos, x) ==> x in flags)
    && (forall k :: 0 <= k < |edges| && edges[k].from == edges[k].to ==> edges[k].from in flags)
  }

  ghost predicate Stratifiable(rules: seq<Rule>) {
    exists strata :: Stratified(rules, strata)
  }

  lemma StratifiableFits(rules: seq<Rule>, edges: seq<Edge>, n: nat, full: Graph)
    requires Declared(rules, n) && Stratifiable(rules) && (forall e :: e in edges <==> IsEdge(rules, e)) && InRange(edges, n)
    requires IsGraph(edges, n, false, full)
    ensures Feasible(edges, {}, [], Depths(full))
  {
    var strata :| Stratified(rules, strata);
    var s := seq(n, v requires 0 <= v < n => StratumOf(strata, v));
    StratifiedIsFeasible(rules, edges, n, strata, s);
    var pos := GraphExists(edges, n, true, |edges|);
    assert edges[..|edges|] == edges;
    forall k | 0 <= k < |edges| ensures Satisfied(edges[k], {}, [], Depths(full)) { DepthsRise(edges, n, full, pos, s, k); }
  }

  lemma StratifiableFitsFlags(rules: seq<Rule>, edges: seq<Edge>, n: nat, full: Graph, pos: Graph, flags: set<nat>, comp: seq<int>)
    requires Declared(rules, n) && Stratifiable(rules) && (forall e :: e in edges <==> IsEdge(rules, e)) && InRange(edges, n)
    requires IsGraph(edges, n, false, full) && IsGraph(edges, n, true, pos)
    requires |comp| == n && forall x: nat, y: nat :: x < n && y < n ==> (comp[x] == comp[y] <==> Mutual(pos, x, y))
    ensures Feasible(edges, flags, comp, Depths(full))
  {
    var strata :| Stratified(rules, strata);
    var s := seq(n, v requires 0 <= v < n => StratumOf(strata, v));
    StratifiedIsFeasible(rules, edges, n, strata, s);
    forall k | 0 <= k < |edges| ensures Satisfied(edges[k], flags, comp, Depths(full)) { DepthsRise(edges, n, full, pos, s, k); }
  }

  /** Settled strata whose negative edges rise form a stratification. */
  lemma SettledStratifies(rules: seq<Rule>, edges: seq<Edge>, n: nat, flags: set<nat>, comp: seq<int>, s: seq<nat>)
    requires Declared(rules, n) && (forall e :: e in edges <==> IsEdge(rules, e)) && InRange(edges, n) && |s| == n && Capped(s)
    requires forall k :: 0 <= k < |edges| ==> Needed(edges[k], flags, comp, s) <= s[edges[k].to]
    requires forall k :: 0 <= k < |edges| && edges[k].negative ==> s[edges[k].from] < s[edges[k].to]
    ensures Stratified(rules, StrataMap(s))
  {
    assert Feasible(edges, {}, [], s);
    StratifiedIsFeasible(rules, edges, n, StrataMap(s), s);
  }

  /** Edges inside the non-recursive part have no way back. */
  lemma NoWayBack(edges: seq<Edge>, n: nat, pos: Graph, flags: set<nat>, g: nat, h: nat)
    requires IsGraph(edges, n, true, pos) && InRange(edges, n) && FlagsCover(edges, n, pos, flags)
    requires HasEdge(edges, true, g, h) && h !in flags
    ensures g < n && h < n && !Mutual(pos, g, h) && Depth(pos, g) < Depth(pos, h)
  {
    var k :| 0 <= k < |edges| && edges[k].from == g && edges[k].to == h && !edges[k].negative;
    ReachesStep(pos, g, h);
    if Reaches(pos, h, g) {
      assert g != h;
      assert Mutual(pos, h, g);
      assert InLargerComponent(pos, h);
      assert false;
    }
    DepthEdge(pos, g, h);
  }

  lemma PlanFromStrata(rules: seq<Rule>, edges: seq<Edge>, n: nat, pos: Graph, flags: set<nat>, comp: seq<int>, s: seq<nat>)
    requires SafeRules(rules) && (forall e :: e in edges <==> IsEdge(rules, e)) && InRange(edges, n) && |s| == n
    requires Stratified(rules, StrataMap(s)) && Feasible(edges, flags, comp, s)
    requires IsGraph(edges, n, true, pos) && FlagsCover(edges, n, pos, flags)
    requires |comp| == n && forall x: nat, y: nat :: x < n && y < n ==> (comp[x] == comp[y] <==> Mutual(pos, x, y))
    ensures Planned(rules, StrataMap(s), StrataMap(Depths(pos)), flags * Heads(rules))
  {
    forall r, i | r in rules && 0 <= i < |r.body| && r.body[i].Pos?
      ensures ReadPlanned(r, r.body[i].atom.rel, rules, StrataMap(s), StrataMap(Depths(pos)), flags * Heads(rules))
    {
      var g, h := r.body[i].atom.rel, r.head.rel;
      assert h in Heads(rules);
      if h !in flags {
        assert IsEdge(rules, Edge(g, h, false));
        var k :| 0 <= k < |edges| && edges[k] == Edge(g, h, false);
        assert HasEdge(edges, true, g, h);
        NoWayBack(edges, n, pos, flags, g, h);
        assert Satisfied(edges[k], flags, comp, s);
      }
    }
  }

  /* ---------- least strata ---------- */

  function Lower(s: seq<nat>, t: seq<nat>): (u: seq<nat>)
    requires |s| == |t|
    ensures |u| == |s| && forall i :: 0 <= i < |u| ==> u[i] == if s[i] < t[i] then s[i] else t[i]
  {
    seq(|s|, i requires 0 <= i < |s| => if s[i] < t[i] then s[i] else t[i])
  }

  lemma LowerFeasible(edges: seq<Edge>, flags: set<nat>, comp: seq<int>, s: seq<nat>, t: seq<nat>)
    requires |s| == |t| && Feasible(edges, flags, comp, s) && Feasible(edges, flags, comp, t)
    ensures Feasible(edges, flags, comp, Lower(s, t))
  {
    forall k | 0 <= k < |edges| ensures Satisfied(edges[k], flags, comp, Lower(s, t)) {
      assert Satisfied(edges[k], flags, comp, s) && Satisfied(edges[k], flags, comp, t);
    }
  }

  ghost predicate Least(edges: seq<Edge>, flags: set<nat>, comp: seq<int>, s: seq<nat>) {
    Feasible(edges, flags, comp, s) && forall t :: |t| == |s| && Feasible(edges, flags, comp, t) ==> NotAbove(s, t)
  }

  lemma {:induction false} LowerSum(s: seq<nat>, t: seq<nat>)
    requires |s| == |t| && !NotAbove(s, t)
    ensures Sum(Lower(s, t)) < Sum(s)
  {
    var u := Lower(s, t);
    var i :| 0 <= i < |s| && s[i] > t[i];
    SumBound(u, s[i := t[i]]);
    SumRaised(s[i := t[i]], i, s[i]);
    assert s[i := t[i]][i := s[i]] == s;
  }

  /** Where there are feasible strata there are least ones. */
  lemma {:induction false} LeastExists(edges: seq<Edge>, flags: set<nat>, comp: seq<int>, s: seq<nat>) returns (least: seq<nat>)
    requires Feasible(edges, flags, comp, s)
    ensures Least(edges, flags, comp, least) && NotAbove(least, s)
    decreases Sum(s)
  {
    if t :| |t| == |s| && Feasible(edges, flags, comp, t) && !NotAbove(s, t) {
      LowerFeasible(edges, flags, comp, s, t);
      LowerSum(s, t);
      hide Feasible;
      least := LeastExists(edges, flags, comp, Lower(s, t));
    } else {
      least := s;
    }
  }

  lemma FeasibleWithoutFlags(edges: seq<Edge>, flags: set<nat>, comp: seq<int>, s: seq<nat>)
    requires Feasible(edges, flags, comp, s)
    ensures Feasible(edges, {}, [], s)
  {
    forall k | 0 <= k < |edges| ensures Satisfied(edges[k], {}, [], s) { assert Satisfied(edges[k], flags, comp, s); }
  }

  /** Settled strata that are not above the least ones are these. */
  lemma SettledIsLeast(edges: seq<Edge>, flags: set<nat>, comp: seq<int>, s: seq<nat>, least: seq<nat>)
    requires Least(edges, flags, comp, least) && NotAbove(s, least) && forall i :: 0 <= i < |least| ==> least[i] < MAX_RELS
    requires InRange(edges, |s|) && forall k :: 0 <= k < |edges| ==> Needed(edges[k], flags, comp, s) <= s[edges[k].to]
    ensures s == least
  {
    forall k | 0 <= k < |edges| ensures Satisfied(edges[k], flags, comp, s) {
      assert s[edges[k].from] <= least[edges[k].from];
    }
    assert NotAbove(least, s);
  }

  /* ---------- what an analysis is, read off the rules ---------- */

  /** Along every read the stratum does not fall, and it rises along a negative read and
      along one that leaves the component of a flagged relation. */
  ghost predicate Suits(rules: seq<Rule>, flags: set<nat>, strata: Strata) {
    forall e :: IsEdge(rules, e) ==>
      StratumOf(strata, e.from) + (if e.negative || (e.from in flags && !MutuallyFed(rules, e.from, e.to)) then 1 else 0)
        <= StratumOf(strata, e.to)
  }

  /** The least strata for given flags. */
  ghost predicate LeastStrata(rules: seq<Rule>, n: nat, flags: set<nat>, strata: Strata) {
    && strata.Keys == NodesBelow(n) && Suits(rules, flags, strata)
    && forall other: Strata, v: nat :: Suits(rules, flags, other) && v < n ==> StratumOf(strata, v) <= StratumOf(other, v)
  }

  ghost function RecursiveRelations(rules: seq<Rule>, n: nat): (s: set<nat>)
    ensures forall x: nat :: x in s <==> x < n && Recursive(rules, x)
  {
    set x | x in NodesBelow(n) && Recursive(rules, x)
  }

  /** The analysis of a rule set: the recursive relations and the least strata for them. */
  ghost predicate IsAnalysis(rules: seq<Rule>, n: nat, strata: Strata, recursive: set<nat>) {
    LeastStrata(rules, n, RecursiveRelations(rules, n), strata) && recursive == RecursiveRelations(rules, n) * Heads(rules)
  }

  lemma SuitsIsFeasible(rules: seq<Rule>, edges: seq<Edge>, n: nat, pos: Graph, flags: set<nat>, comp: seq<int>, strata: Strata,
                        s: seq<nat>)
    requires Declared(rules, n) && (forall e :: e in edges <==> IsEdge(rules, e)) && InRange(edges, n) && IsGraph(edges, n, true, pos)
    requires |comp| == n && forall x: nat, y: nat :: x < n && y < n ==> (comp[x] == comp[y] <==> Mutual(pos, x, y))
    requires |s| == n && forall v: nat :: v < n ==> s[v] == StratumOf(strata, v)
    ensures Suits(rules, flags, strata) <==> Feasible(edges, flags, comp, s)
  {
    forall e | e in edges ensures e.from < n && e.to < n && (MutuallyFed(rules, e.from, e.to) <==> comp[e.from] == comp[e.to]) {
      EdgeDeclared(rules, n, e);
      FedIsMutual(rules, edges, n, pos, e.from, e.to);
    }
    hide MutuallyFed, Mutual, IsEdge, Declared, IsGraph;
    if Feasible(edges, flags, comp, s) {
      forall e | IsEdge(rules, e)
        ensures StratumOf(strata, e.from) + (if e.negative || (e.from in flags && !MutuallyFed(rules, e.from, e.to)) then 1 else 0)
                  <= StratumOf(strata, e.to)
      {
        assert e in edges;
        var k :| 0 <= k < |edges| && edges[k] == e;
        assert Satisfied(edges[k], flags, comp, s);
      }
    }
    if Suits(rules, flags, strata) {
      forall k | 0 <= k < |edges| ensures Satisfied(edges[k], flags, comp, s) { assert edges[k] in edges; }
    }
  }

  lemma LeastIsAnalysis(rules: seq<Rule>, edges: seq<Edge>, n: nat, pos: Graph, flags: set<nat>, comp: seq<int>, s: seq<nat>)
    requires Declared(rules, n) && (forall e :: e in edges <==> IsEdge(rules, e)) && InRange(edges, n) && IsGraph(edges, n, true, pos)
    requires |comp| == n && forall x: nat, y: nat :: x < n && y < n ==> (comp[x] == comp[y] <==> Mutual(pos, x, y))
    requires |s| == n && Least(edges, flags, comp, s)
    ensures LeastStrata(rules, n, flags, StrataMap(s))
  {
    SuitsIsFeasible(rules, edges, n, pos, flags, comp, StrataMap(s), s);
    hide Suits, Feasible, IsGraph, Mutual, Declared, IsEdge;
    assert StrataMap(s).Keys == NodesBelow(n);
    forall other: Strata, v: nat | Suits(rules, flags, other) && v < n ensures StratumOf(StrataMap(s), v) <= StratumOf(other, v) {
      var t := seq(n, x requires 0 <= x < n => StratumOf(other, x));
      SuitsIsFeasible(rules, edges, n, pos, flags, comp, other, t);
      assert NotAbove(s, t);
    }
  }

  /** Relations a rule set is flagged for: those that recurse, those marked before, and
      those whose memory held the label of a component found earlier. */
  lemma FlagsOfRules(rules: seq<Rule>, edges: seq<Edge>, n: nat, pos: Graph, carried: set<nat>, found: seq<nat>, stale: seq<int>,
                     comp: seq<int>, flags: set<nat>)
    requires Declared(rules, n) && (forall e :: e in edges <==> IsEdge(rules, e)) && IsGraph(edges, n, true, pos)
    requires FlagsExactly(edges, n, pos, carried, found, stale, comp, flags)
    requires |comp| == |stale| == n && forall x: nat :: x < n ==> 0 <= comp[x] < n
    ensures forall x: nat :: x < n && (Recursive(rules, x) || x in carried) ==> x in flags
    ensures forall x: nat :: x < n && x in flags ==> Recursive(rules, x) || x in carried || 0 <= stale[x] < n
  {
    forall x: nat | x < n
      ensures Recursive(rules, x) || x in carried ==> x in flags
      ensures x in flags ==> Recursive(rules, x) || x in carried || 0 <= stale[x] < n
    {
      RecursiveIsLarger(rules, edges, n, pos, x);
      hide Recursive, InLargerComponent, HasEdge;
    }
  }

  /** A relation that the component of relation 0 feeds, and whose memory held 0, is
      flagged. */
  lemma ZeroHits(rules: seq<Rule>, edges: seq<Edge>, n: nat, pos: Graph, carried: set<nat>, found: seq<nat>, stale: seq<int>,
                 comp: seq<int>, flags: set<nat>, x: nat)
    requires Declared(rules, n) && (forall e :: e in edges <==> IsEdge(rules, e)) && IsGraph(edges, n, true, pos)
    requires FlagsExactly(edges, n, pos, carried, found, stale, comp, flags)
    requires AllNodes(pos, found) && SourcesFirst(pos, found) && |comp| == |stale| == n && n > 0 && comp[0] == 0
    requires x < n && stale[x] == 0 && BehindZero(rules, x)
    ensures x in flags
  {
    FeedsIsReaches(rules, edges, n, pos, 0, x);
    FeedsIsReaches(rules, edges, n, pos, x, 0);
    var y :| y != 0 && MutuallyFed(rules, 0, y);
    FedIsMutual(rules, edges, n, pos, 0, y);
    assert InLargerComponent(pos, 0);
    assert 0 in found;
    var i :| 0 <= i < |found| && found[i] == 0;
    forall j | 0 <= j < i ensures found[..i][j] != x { assert found[..i][j] == found[j]; }
    assert StaleHit(pos, found, stale, comp, x);
  }

  /** Strata and recursion flags of a rule set.  `carried` are relations that earlier
      loads marked recursive, `scratch` the label array of the component search with
      whatever contents it has. */
  method ComputeStrata(rules: seq<Rule>, n: nat, carried: set<nat>, scratch: array<int>)
      returns (result: Analysis, ghost rank: map<nat, nat>, ghost flags: set<nat>)
    requires SafeRules(rules) && Declared(rules, n) && n <= MAX_RELS && scratch.Length == n
    modifies scratch
    ensures result.Accepted? <==> Stratifiable(rules)
    ensures result.Accepted? ==> Planned(rules, result.strata, rank, result.recursive)
    ensures result.Accepted? ==> LeastStrata(rules, n, flags, result.strata) && result.recursive == flags * Heads(rules)
    ensures result.Accepted? ==> FlagsOf(rules, n, carried, old(scratch[..]), flags)
  {
    var edges := CollectEdges(rules, n);
    var stratum := new nat[n](_ => 0);
    rank, flags := map[], {};
    ghost var low, depths := FirstBound(rules, edges, n, stratum[..]);
    ghost var fits := Stratifiable(rules);
    hide Feasible, Least, NotAbove, Stratifiable, IsEdge, Declared, Planned, LeastStrata, FlagsOf;
    var settled := Raise(edges, {}, [], stratum, low);
    if !settled { return Rejected, rank, flags; }
    var strata: Option<Strata>;
    var marked;
    strata, marked, rank := RaiseFlagged(rules, edges, n, carried, scratch, stratum, depths, low);
    if strata.None? { return Rejected, rank, flags; }
    return Accepted(strata.value, marked * Heads(rules)), rank, marked;
  }

  /** What the flags are: the recursive relations, those marked before, and possibly
      some whose memory held a label. */
  ghost predicate FlagsOf(rules: seq<Rule>, n: nat, carried: set<nat>, stale: seq<int>, flags: set<nat>)
    requires |stale| == n
  {
    && (forall x: nat :: x < n && (Recursive(rules, x) || x in carried) ==> x in flags)
    && (forall x: nat :: x < n && x in flags ==> Recursive(rules, x) || x in carried || 0 <= stale[x] < n)
    && (forall x: nat :: x < n && stale[x] == 0 && BehindZero(rules, x) ==> x in flags)
  }

  /** Bounds for the first round of raising: the least strata and the depths. */
  lemma FirstBound(rules: seq<Rule>, edges: seq<Edge>, n: nat, start: seq<nat>) returns (low: seq<nat>, depths: seq<nat>)
    requires Declared(rules, n) && (forall e :: e in edges <==> IsEdge(rules, e)) && InRange(edges, n) && n <= MAX_RELS
    requires |start| == n && forall v :: 0 <= v < n ==> start[v] == 0
    ensures |low| == |depths| == n && (forall v :: 0 <= v < n ==> low[v] < MAX_RELS) && Capped(start)
    ensures forall v :: 0 <= v < n ==> depths[v] < MAX_RELS
    ensures Stratifiable(rules) ==> Least(edges, {}, [], low) && Feasible(edges, {}, [], low) && NotAbove(start, low)
    ensures exists full :: IsGraph(edges, n, false, full) && depths == Depths(full)
  {
    var full := GraphExists(edges, n, false, |edges|);
    assert edges[..|edges|] == edges;
    depths := Depths(full);
    forall v: nat | v < n ensures depths[v] < MAX_RELS { DepthSmall(full, v); }
    low := depths;
    if Stratifiable(rules) {
      StratifiableFits(rules, edges, n, full);
      low := LeastExists(edges, {}, [], depths);
    }
  }

  /** The second round: find the flags, raise along them, check the negative reads. */
  method RaiseFlagged(ghost rules: seq<Rule>, edges: seq<Edge>, n: nat, carried: set<nat>, scratch: array<int>,
                      stratum: array<nat>, ghost depths: seq<nat>, ghost first: seq<nat>)
      returns (strata: Option<Strata>, flags: set<nat>, ghost rank: map<nat, nat>)
    requires SafeRules(rules) && Declared(rules, n) && (forall e :: e in edges <==> IsEdge(rules, e)) && InRange(edges, n)
    requires n <= MAX_RELS && scratch.Length == stratum.Length == n && Capped(stratum[..]) && |first| == |depths| == n
    requires forall v :: 0 <= v < n ==> depths[v] < MAX_RELS
    requires Stratifiable(rules) ==> Least(edges, {}, [], first) && NotAbove(stratum[..], first)
    requires exists full :: IsGraph(edges, n, false, full) && depths == Depths(full)
    modifies scratch, stratum
    ensures strata.Some? <==> Stratifiable(rules)
    ensures strata.Some? ==> Planned(rules, strata.value, rank, flags * Heads(rules)) && LeastStrata(rules, n, flags, strata.value)
    ensures strata.Some? ==> FlagsOf(rules, n, carried, old(scratch[..]), flags)
  {
    ghost var stale := scratch[..];
    ghost var pos, found;
    flags, pos, found := RecursionFlags(edges, n, carried, scratch);
    rank := StrataMap(Depths(pos));
    ghost var comp, low := scratch[..], depths;
    ghost var fits := Stratifiable(rules);
    if fits { low := SecondBound(rules, edges, n, pos, flags, comp, depths, stratum[..], first); }
    hide Feasible, Least, NotAbove, Stratifiable, IsGraph, Mutual, SourcesFirst, AllNodes, IsEdge, Declared, FlagsExactly,
         FlagsCover, Planned, LeastStrata, FlagsOf, StaleHit;
    LeastParts(edges, flags, comp, low);
    var settled := Raise(edges, flags, scratch[..], stratum, low);
    if !settled { return None, flags, rank; }
    if fits { NegativeRise(edges, flags, comp, stratum[..], low); }
    var ok := NegativeEdgesRise(edges, stratum);
    if !ok { return None, flags, rank; }
    SettledStratifies(rules, edges, n, flags, comp, stratum[..]);
    StratifiedFits(rules, StrataMap(stratum[..]));
    FlagsHold(rules, edges, n, pos, carried, found, stale, comp, flags);
    Analysed(rules, edges, n, pos, flags, comp, stratum[..], low);
    return Some(StrataMap(stratum[..])), flags, rank;
  }

  lemma LeastAbove(edges: seq<Edge>, flags: set<nat>, comp: seq<int>, s: seq<nat>, start: seq<nat>, low: seq<nat>)
      returns (least: seq<nat>)
    requires Feasible(edges, flags, comp, s) && Least(edges, {}, [], low) && NotAbove(start, low) && |low| == |s|
    ensures Least(edges, flags, comp, least) && NotAbove(least, s) && NotAbove(start, least)
  {
    least := LeastExists(edges, flags, comp, s);
    FeasibleWithoutFlags(edges, flags, comp, least);
  }

  /** A bound for the second round: the least strata for the flags. */
  lemma SecondBound(rules: seq<Rule>, edges: seq<Edge>, n: nat, pos: Graph, flags: set<nat>, comp: seq<int>, depths: seq<nat>,
                    start: seq<nat>, first: seq<nat>) returns (low: seq<nat>)
    requires Declared(rules, n) && Stratifiable(rules) && (forall e :: e in edges <==> IsEdge(rules, e)) && InRange(edges, n)
    requires IsGraph(edges, n, true, pos) && exists full :: IsGraph(edges, n, false, full) && depths == Depths(full)
    requires |comp| == n && forall x: nat, y: nat :: x < n && y < n ==> (comp[x] == comp[y] <==> Mutual(pos, x, y))
    requires |first| == |depths| == n && Least(edges, {}, [], first) && NotAbove(start, first)
    ensures Least(edges, flags, comp, low) && NotAbove(low, depths) && NotAbove(start, low)
  {
    var full :| IsGraph(edges, n, false, full) && depths == Depths(full);
    StratifiableFitsFlags(rules, edges, n, full, pos, flags, comp);
    low := LeastAbove(edges, flags, comp, depths, start, first);
  }

  lemma LeastParts(edges: seq<Edge>, flags: set<nat>, comp: seq<int>, low: seq<nat>)
    ensures Least(edges, flags, comp, low) ==> Feasible(edges, flags, comp, low)
  {
  }

  /** Settled strata below the limit rise along negative edges. */
  lemma NegativeRise(edges: seq<Edge>, flags: set<nat>, comp: seq<int>, s: seq<nat>, low: seq<nat>)
    requires NotAbove(s, low) && (forall i :: 0 <= i < |low| ==> low[i] < MAX_RELS) && InRange(edges, |s|)
    requires forall k :: 0 <= k < |edges| ==> Needed(edges[k], flags, comp, s) <= s[edges[k].to]
    ensures forall k :: 0 <= k < |edges| && edges[k].negative ==> s[edges[k].from] < s[edges[k].to]
  {
    forall k | 0 <= k < |edges| && edges[k].negative ensures s[edges[k].from] < s[edges[k].to] {
      assert s[edges[k].from] <= low[edges[k].from];
    }
  }

  lemma StratifiedFits(rules: seq<Rule>, strata: Strata)
    requires Stratified(rules, strata)
    ensures Stratifiable(rules)
  {
  }

  lemma FlagsHold(rules: seq<Rule>, edges: seq<Edge>, n: nat, pos: Graph, carried: set<nat>, found: seq<nat>, stale: seq<int>,
                  comp: seq<int>, flags: set<nat>)
    requires Declared(rules, n) && (forall e :: e in edges <==> IsEdge(rules, e)) && IsGraph(edges, n, true, pos)
    requires AllNodes(pos, found) && SourcesFirst(pos, found) && FlagsExactly(edges, n, pos, carried, found, stale, comp, flags)
    requires |comp| == |stale| == n && (forall x: nat :: x < n ==> 0 <= comp[x] < n) && (n > 0 ==> comp[0] == 0)
    ensures FlagsOf(rules, n, carried, stale, flags)
  {
    FlagsOfRules(rules, edges, n, pos, carried, found, stale, comp, flags);
    hide Recursive, BehindZero, IsEdge, FlagsExactly, SourcesFirst, AllNodes, Declared, IsGraph;
    forall x: nat | x < n && stale[x] == 0 && BehindZero(rules, x) ensures x in flags {
      ZeroHits(rules, edges, n, pos, carried, found, stale, comp, flags, x);
    }
  }

  lemma Analysed(rules: seq<Rule>, edges: seq<Edge>, n: nat, pos: Graph, flags: set<nat>, comp: seq<int>, s: seq<nat>, low: seq<nat>)
    requires SafeRules(rules) && Declared(rules, n) && (forall e :: e in edges <==> IsEdge(rules, e)) && InRange(edges, n)
    requires IsGraph(edges, n, true, pos) && FlagsCover(edges, n, pos, flags)
    requires |comp| == n && forall x: nat, y: nat :: x < n && y < n ==> (comp[x] == comp[y] <==> Mutual(pos, x, y))
    requires |s| == n && Least(edges, flags, comp, low) && NotAbove(s, low) && forall i :: 0 <= i < |low| ==> low[i] < MAX_RELS
    requires forall k :: 0 <= k < |edges| ==> Needed(edges[k], flags, comp, s) <= s[edges[k].to]
    requires Stratified(rules, StrataMap(s))
    ensures Planned(rules, StrataMap(s), StrataMap(Depths(pos)), flags * Heads(rules)) && LeastStrata(rules, n, flags, StrataMap(s))
  {
    SettledIsLeast(edges, flags, comp, s, low);
    LeastIsAnalysis(rules, edges, n, pos, flags, comp, s);
    PlanFromStrata(rules, edges, n, pos, flags, comp, s);
  }
}
