/** The dependency graph of a rule set, and what recursion means in it. */
module RuleGraph {
  import opened Datalog
  import opened Components

  datatype Edge = Edge(from: nat, to: nat, negative: bool)

  /** Every relation of the rules is declared: its id is below `n`. */
  predicate Declared(rules: seq<Rule>, n: nat) {
    forall r :: r in rules ==> r.head.rel < n && forall i :: 0 <= i < |r.body| && !r.body[i].Test? ==> r.body[i].atom.rel < n
  }

  ghost predicate IsEdge(rules: seq<Rule>, e: Edge) {
    exists r, i :: r in rules && 0 <= i < |r.body| && !r.body[i].Test? &&
      e == Edge(r.body[i].atom.rel, r.head.rel, r.body[i].Neg?)
  }

  /* ---------- the graphs ---------- */

  method CollectEdges(rules: seq<Rule>, n: nat) returns (edges: seq<Edge>)
    requires Declared(rules, n)
    ensures forall e :: e in edges <==> IsEdge(rules, e)
    ensures InRange(edges, n)
  {
    edges := [];
    for k := 0 to |rules|
      invariant forall e :: e in edges <==> IsEdge(rules[..k], e)
      invariant InRange(edges, n)
    {
      var r := rules[k];
      for i := 0 to |r.body|
        invariant forall e :: e in edges <==> IsEdge(rules[..k], e) || EdgeOfRule(r, i, e)
        invariant InRange(edges, n)
      {
        if !r.body[i].Test? { edges := edges + [Edge(r.body[i].atom.rel, r.head.rel, r.body[i].Neg?)]; }
      }
      forall e ensures IsEdge(rules[..k + 1], e) <==> IsEdge(rules[..k], e) || EdgeOfRule(r, |r.body|, e) {
        EdgesSnoc(rules[..k], r, e);
        assert rules[..k + 1] == rules[..k] + [r];
      }
    }
    assert rules[..|rules|] == rules;
  }

  predicate InRange(edges: seq<Edge>, n: nat) {
    forall k :: 0 <= k < |edges| ==> edges[k].from < n && edges[k].to < n
  }

  ghost predicate EdgeOfRule(r: Rule, upTo: nat, e: Edge)
    requires upTo <= |r.body|
  {
    exists i :: 0 <= i < upTo && !r.body[i].Test? && e == Edge(r.body[i].atom.rel, r.head.rel, r.body[i].Neg?)
  }

  lemma EdgesSnoc(front: seq<Rule>, r: Rule, e: Edge)
    ensures IsEdge(front + [r], e) <==> IsEdge(front, e) || EdgeOfRule(r, |r.body|, e)
  {
    assert forall q :: q in front + [r] <==> q in front || q == r;
  }

  /** The edges kept by `positiveOnly`, as successor lists. */
  ghost predicate IsGraph(edges: seq<Edge>, n: nat, positiveOnly: bool, g: Graph) {
    && |g| == n && WellFormed(g)
    && forall x: nat, y: nat :: x < n ==> (y in g[x] <==> HasEdge(edges, positiveOnly, x, y))
  }

  ghost predicate HasEdge(edges: seq<Edge>, positiveOnly: bool, x: nat, y: nat) {
    exists k :: 0 <= k < |edges| && edges[k].from == x && edges[k].to == y && !(positiveOnly && edges[k].negative)
  }

  function Flip(e: Edge): Edge {
    Edge(e.to, e.from, e.negative)
  }

  method Adjacency(edges: seq<Edge>, n: nat, positiveOnly: bool) returns (g: Graph)
    requires InRange(edges, n)
    ensures IsGraph(edges, n, positiveOnly, g)
  {
    g := seq(n, _ => []);
    for k := 0 to |edges|
      invariant IsGraph(edges[..k], n, positiveOnly, g)
    {
      var e := edges[k];
      GrownGraph(edges, n, positiveOnly, k, g);
      if !(positiveOnly && e.negative) { g := g[e.from := g[e.from] + [e.to]]; }
    }
    assert edges[..|edges|] == edges;
  }

  lemma HasEdgeSnoc(edges: seq<Edge>, k: nat, positiveOnly: bool, x: nat, y: nat)
    requires k < |edges|
    ensures HasEdge(edges[..k + 1], positiveOnly, x, y) <==>
            HasEdge(edges[..k], positiveOnly, x, y) ||
            (edges[k].from == x && edges[k].to == y && !(positiveOnly && edges[k].negative))
  {
    if HasEdge(edges[..k], positiveOnly, x, y) {
      var j :| 0 <= j < k && edges[..k][j].from == x && edges[..k][j].to == y && !(positiveOnly && edges[..k][j].negative);
      assert edges[..k + 1][j] == edges[j];
    }
    if edges[k].from == x && edges[k].to == y && !(positiveOnly && edges[k].negative) {
      assert edges[..k + 1][k] == edges[k];
    }
  }

  lemma {:induction false} GraphExists(edges: seq<Edge>, n: nat, positiveOnly: bool, k: nat) returns (g: Graph)
    requires InRange(edges, n) && k <= |edges|
    ensures IsGraph(edges[..k], n, positiveOnly, g)
  {
    if k == 0 {
      g := seq(n, _ => []);
    } else {
      var before := GraphExists(edges, n, positiveOnly, k - 1);
      g := WithEdge(before, edges[k - 1], positiveOnly);
      GrownGraph(edges, n, positiveOnly, k - 1, before);
    }
  }

  function WithEdge(g: Graph, e: Edge, positiveOnly: bool): Graph
    requires e.from < |g|
  {
    if positiveOnly && e.negative then g else g[e.from := g[e.from] + [e.to]]
  }

  lemma GrownGraph(edges: seq<Edge>, n: nat, positiveOnly: bool, k: nat, g: Graph)
    requires InRange(edges, n) && k < |edges| && IsGraph(edges[..k], n, positiveOnly, g)
    ensures IsGraph(edges[..k + 1], n, positiveOnly, WithEdge(g, edges[k], positiveOnly))
  {
    var g' := WithEdge(g, edges[k], positiveOnly);
    forall x: nat, y: nat | x < n ensures y in g'[x] <==> HasEdge(edges[..k + 1], positiveOnly, x, y) {
      HasEdgeSnoc(edges, k, positiveOnly, x, y);
      assert y in g[x] <==> HasEdge(edges[..k], positiveOnly, x, y);
    }
  }

  lemma FlippedGraph(edges: seq<Edge>, flipped: seq<Edge>, n: nat, g: Graph, rev: Graph)
    requires |flipped| == |edges| && forall k :: 0 <= k < |edges| ==> flipped[k] == Flip(edges[k])
    requires IsGraph(edges, n, true, g) && IsGraph(flipped, n, true, rev)
    ensures Reversal(g, rev)
  {
    forall x: nat, y: nat | x < n && y < n ensures y in g[x] <==> x in rev[y] {
      if HasEdge(edges, true, x, y) {
        var k :| 0 <= k < |edges| && edges[k].from == x && edges[k].to == y && !edges[k].negative;
        assert flipped[k].from == y;
      }
      if HasEdge(flipped, true, y, x) {
        var k :| 0 <= k < |edges| && flipped[k].from == y && flipped[k].to == x && !flipped[k].negative;
        assert edges[k].from == x;
      }
    }
  }

  /* ---------- recursion, read off the rules ---------- */

  /** A chain of positive reads: each relation is read by a rule for the next. */
  ghost predicate PositiveReads(rules: seq<Rule>, p: seq<nat>) {
    |p| > 0 && forall i :: 0 <= i < |p| - 1 ==> IsEdge(rules, Edge(p[i], p[i + 1], false))
  }

  ghost predicate Feeds(rules: seq<Rule>, x: nat, y: nat) {
    exists p :: PositiveReads(rules, p) && p[0] == x && p[|p| - 1] == y
  }

  ghost predicate MutuallyFed(rules: seq<Rule>, x: nat, y: nat) {
    Feeds(rules, x, y) && Feeds(rules, y, x)
  }

  /** A relation is recursive when it depends on itself through another relation or
      through itself. */
  ghost predicate Recursive(rules: seq<Rule>, x: nat) {
    (exists y :: y != x && MutuallyFed(rules, x, y)) || IsEdge(rules, Edge(x, x, false)) || IsEdge(rules, Edge(x, x, true))
  }

  /** The component of relation 0 is larger than that and feeds `x` one-way. */
  ghost predicate BehindZero(rules: seq<Rule>, x: nat) {
    Feeds(rules, 0, x) && !Feeds(rules, x, 0) && exists y :: y != 0 && MutuallyFed(rules, 0, y)
  }

  lemma EdgeDeclared(rules: seq<Rule>, n: nat, e: Edge)
    requires Declared(rules, n) && IsEdge(rules, e)
    ensures e.from < n && e.to < n
  {
  }

  lemma WalkIsChain(rules: seq<Rule>, edges: seq<Edge>, n: nat, pos: Graph, p: seq<nat>)
    requires Declared(rules, n) && (forall e :: e in edges <==> IsEdge(rules, e)) && IsGraph(edges, n, true, pos)
    requires |p| > 0 && p[0] < n
    ensures Walk(pos, p) <==> PositiveReads(rules, p)
  {
    forall x: nat, y: nat | x < n ensures y in pos[x] <==> IsEdge(rules, Edge(x, y, false)) {
      if HasEdge(edges, true, x, y) {
        var k :| 0 <= k < |edges| && edges[k].from == x && edges[k].to == y && !edges[k].negative;
        assert edges[k] in edges && edges[k] == Edge(x, y, false);
      }
      if IsEdge(rules, Edge(x, y, false)) {
        var k :| 0 <= k < |edges| && edges[k] == Edge(x, y, false);
      }
    }
    hide IsEdge, IsGraph;
    if PositiveReads(rules, p) { ChainDeclared(rules, n, p); }
  }

  lemma ChainDeclared(rules: seq<Rule>, n: nat, p: seq<nat>)
    requires Declared(rules, n) && PositiveReads(rules, p) && p[0] < n
    ensures forall i :: 0 <= i < |p| ==> p[i] < n
  {
    hide IsEdge;
    forall i | 0 < i < |p| ensures p[i] < n {
      EdgeDeclared(rules, n, Edge(p[i - 1], p[i - 1 + 1], false));
    }
  }

  /** Feeding is reachability in the positive graph. */
  lemma FeedsIsReaches(rules: seq<Rule>, edges: seq<Edge>, n: nat, pos: Graph, x: nat, y: nat)
    requires Declared(rules, n) && (forall e :: e in edges <==> IsEdge(rules, e)) && IsGraph(edges, n, true, pos)
    requires x < n
    ensures Feeds(rules, x, y) <==> Reaches(pos, x, y)
  {
    hide Declared, IsEdge, IsGraph;
    if Feeds(rules, x, y) {
      var p :| PositiveReads(rules, p) && p[0] == x && p[|p| - 1] == y;
      WalkIsChain(rules, edges, n, pos, p);
    }
    if Reaches(pos, x, y) {
      var p :| Walk(pos, p) && p[0] == x && p[|p| - 1] == y;
      WalkIsChain(rules, edges, n, pos, p);
    }
  }

  lemma FedIsMutual(rules: seq<Rule>, edges: seq<Edge>, n: nat, pos: Graph, x: nat, y: nat)
    requires Declared(rules, n) && (forall e :: e in edges <==> IsEdge(rules, e)) && IsGraph(edges, n, true, pos)
    requires x < n
    ensures MutuallyFed(rules, x, y) <==> Mutual(pos, x, y)
    ensures MutuallyFed(rules, x, y) ==> y < n
  {
    FeedsIsReaches(rules, edges, n, pos, x, y);
    if Feeds(rules, x, y) {
      var p :| PositiveReads(rules, p) && p[0] == x && p[|p| - 1] == y;
      ChainDeclared(rules, n, p);
      FeedsIsReaches(rules, edges, n, pos, y, x);
    }
  }

  lemma RecursiveIsLarger(rules: seq<Rule>, edges: seq<Edge>, n: nat, pos: Graph, x: nat)
    requires Declared(rules, n) && (forall e :: e in edges <==> IsEdge(rules, e)) && IsGraph(edges, n, true, pos)
    requires x < n
    ensures Recursive(rules, x) <==> InLargerComponent(pos, x) || HasEdge(edges, false, x, x)
  {
    forall y ensures MutuallyFed(rules, x, y) <==> Mutual(pos, x, y) { FedIsMutual(rules, edges, n, pos, x, y); }
    hide MutuallyFed, Mutual, IsEdge;
    if HasEdge(edges, false, x, x) {
      var k :| 0 <= k < |edges| && edges[k].from == x && edges[k].to == x;
      assert edges[k] in edges && (edges[k] == Edge(x, x, false) || edges[k] == Edge(x, x, true));
    }
    forall neg | Edge(x, x, neg) in edges ensures HasEdge(edges, false, x, x) {
      var k :| 0 <= k < |edges| && edges[k] == Edge(x, x, neg);
    }
    assert Recursive(rules, x) ==> (exists y :: y != x && Mutual(pos, x, y)) || Edge(x, x, false) in edges || Edge(x, x, true) in edges;
  }

  /** More rules do not end recursion. */
  lemma RecursionGrows(rules: seq<Rule>, more: seq<Rule>, x: nat)
    requires (forall r :: r in rules ==> r in more) && Recursive(rules, x)
    ensures Recursive(more, x)
  {
    forall e | IsEdge(rules, e) ensures IsEdge(more, e) {}
    hide IsEdge;
    forall y, z | Feeds(rules, y, z) ensures Feeds(more, y, z) {
      var p :| PositiveReads(rules, p) && p[0] == y && p[|p| - 1] == z;
      assert PositiveReads(more, p);
    }
    hide Feeds;
    if y :| y != x && MutuallyFed(rules, x, y) { assert MutuallyFed(more, x, y); }
  }
}
