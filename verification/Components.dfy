/** Strongly connected components by two depth-first searches: one over the graph
    that lists the nodes in the order they finish, one over the reversed graph
    that starts from the last of them.
 */
module Components {

  /** Successor lists; a node is an index. */
  type Graph = seq<seq<nat>>

  predicate WellFormed(g: Graph) {
    forall x, i :: 0 <= x < |g| && 0 <= i < |g[x]| ==> g[x][i] < |g|
  }

  /* ---------- reachability ---------- */

  ghost predicate Walk(g: Graph, p: seq<nat>) {
    && |p| > 0
    && (forall i :: 0 <= i < |p| ==> p[i] < |g|)
    && forall i :: 0 <= i < |p| - 1 ==> p[i + 1] in g[p[i]]
  }

  ghost predicate Reaches(g: Graph, x: nat, y: nat) {
    exists p :: Walk(g, p) && p[0] == x && p[|p| - 1] == y
  }

  ghost predicate Mutual(g: Graph, x: nat, y: nat) {
    Reaches(g, x, y) && Reaches(g, y, x)
  }

  lemma ReachesItself(g: Graph, x: nat)
    requires x < |g|
    ensures Reaches(g, x, x)
  {
    assert Walk(g, [x]);
  }

  lemma ReachesStep(g: Graph, x: nat, y: nat)
    requires WellFormed(g) && x < |g| && y in g[x]
    ensures Reaches(g, x, y)
  {
    assert Walk(g, [x, y]);
  }

  lemma ReachesTrans(g: Graph, x: nat, y: nat, z: nat)
    requires Reaches(g, x, y) && Reaches(g, y, z)
    ensures Reaches(g, x, z)
  {
    var p :| Walk(g, p) && p[0] == x && p[|p| - 1] == y;
    var q :| Walk(g, q) && q[0] == y && q[|q| - 1] == z;
    var w := p + q[1..];
    forall i | 0 <= i < |w| - 1 ensures w[i + 1] in g[w[i]] {
      if i < |p| - 1 { assert p[i + 1] in g[p[i]]; }
      else { assert q[i - |p| + 2] in g[q[i - |p| + 1]]; }
    }
    assert Walk(g, w);
  }

  /** A walk from inside `S` to outside crosses an edge out of `S`. */
  lemma CrossingEdge(g: Graph, S: set<nat>, x: nat, y: nat) returns (u: nat, v: nat)
    requires Reaches(g, x, y) && x in S && y !in S
    ensures u < |g| && v < |g| && v in g[u] && u in S && v !in S
    ensures Reaches(g, x, u) && Reaches(g, x, v) && Reaches(g, v, y)
  {
    var p :| Walk(g, p) && p[0] == x && p[|p| - 1] == y;
    var k := 0;
    while p[k + 1] in S
      invariant 0 <= k < |p| - 1 && p[k] in S
      decreases |p| - k
    {
      k := k + 1;
    }
    u, v := p[k], p[k + 1];
    assert Walk(g, p[..k + 1]) && Walk(g, p[..k + 2]) && Walk(g, p[k + 1..]);
  }

  /* ---------- the finishing order ---------- */

  ghost function Elements(s: seq<nat>): set<nat> {
    set x | x in s
  }

  predicate Distinct(s: seq<nat>) {
    forall i, j :: 0 <= i < j < |s| ==> s[i] != s[j]
  }

  /** A finished node that reaches `y` one-way has a companion in its component
      that finished after `y` or has not finished. */
  ghost predicate Finishing(g: Graph, order: seq<nat>) {
    forall j, x :: 0 <= j < |order| && x in order[..j] && Reaches(g, x, order[j]) && !Reaches(g, order[j], x) ==>
      exists w :: w !in order[..j + 1] && Mutual(g, x, w)
  }

  /** A finished node that reaches an unfinished one has an unfinished companion. */
  ghost predicate Companions(g: Graph, done: set<nat>) {
    forall x, y {:trigger Reaches(g, x, y)} :: x in done && y !in done && Reaches(g, x, y) ==> exists w :: w !in done && Mutual(g, x, w)
  }

  ghost predicate Chain(g: Graph, stack: seq<nat>) {
    && (forall i :: 0 <= i < |stack| ==> stack[i] < |g|)
    && forall i :: 0 <= i < |stack| - 1 ==> stack[i + 1] in g[stack[i]]
  }

  lemma ChainReachesTop(g: Graph, stack: seq<nat>, i: nat, k: nat)
    requires Chain(g, stack) && i <= k < |stack|
    ensures Reaches(g, stack[i], stack[k])
  {
    assert Walk(g, stack[i..k + 1]);
  }

  lemma FinishKeepsCompanions(g: Graph, done: set<nat>, stack: seq<nat>)
    requires WellFormed(g) && Chain(g, stack) && stack != [] && Distinct(stack) && Companions(g, done)
    requires forall x :: x in stack ==> x !in done
    requires forall u, v :: u in done + {stack[|stack| - 1]} && u < |g| && v in g[u] ==> v in done || v in stack
    ensures Companions(g, done + {stack[|stack| - 1]})
  {
    var z := stack[|stack| - 1];
    forall x, y {:trigger Reaches(g, x, y)} | x in done + {z} && y !in done + {z} && Reaches(g, x, y)
      ensures exists w :: w !in done + {z} && Mutual(g, x, w)
    {
      if x != z {
        var w :| w !in done && Mutual(g, x, w);
        if w == z {
          ReachesTrans(g, z, x, y);
          var v := Companion(g, done, stack, y);
          ReachesTrans(g, x, z, v);
          ReachesTrans(g, v, z, x);
        }
      } else {
        var v := Companion(g, done, stack, y);
      }
    }
  }

  /** The node about to finish reaches an unfinished `y` through a node below it on
      the stack, and every node of the stack reaches the top. */
  lemma Companion(g: Graph, done: set<nat>, stack: seq<nat>, y: nat) returns (v: nat)
    requires Chain(g, stack) && stack != [] && Distinct(stack)
    requires forall u, v :: u in done + {stack[|stack| - 1]} && u < |g| && v in g[u] ==> v in done || v in stack
    requires y !in done + {stack[|stack| - 1]} && Reaches(g, stack[|stack| - 1], y)
    ensures v !in done + {stack[|stack| - 1]} && Mutual(g, stack[|stack| - 1], v)
  {
    var z := stack[|stack| - 1];
    var u;
    u, v := CrossingEdge(g, done + {z}, z, y);
    assert v in stack;
    var i :| 0 <= i < |stack| && stack[i] == v;
    ChainReachesTop(g, stack, i, |stack| - 1);
  }

  lemma FinishKeepsOrder(g: Graph, order: seq<nat>, z: nat)
    requires Finishing(g, order) && Companions(g, Elements(order)) && z !in order
    ensures Finishing(g, order + [z])
  {
    var order' := order + [z];
    forall j, x | 0 <= j < |order'| && x in order'[..j] && Reaches(g, x, order'[j]) && !Reaches(g, order'[j], x)
      ensures exists w :: w !in order'[..j + 1] && Mutual(g, x, w)
    {
      if j < |order| {
        assert order'[..j] == order[..j] && order'[..j + 1] == order[..j + 1];
        assert Reaches(g, x, order[j]);
      } else {
        assert order'[..j] == order && order'[..j + 1] == order + [z];
        assert x in Elements(order) && z !in Elements(order);
        var w :| w !in Elements(order) && Mutual(g, x, w);
        assert w != z;
      }
    }
  }

  /* ---------- one search ---------- */

  /** Everything true between two steps of a search from `root`; `black` lists
      the finished nodes of this search and of those before it. */
  ghost predicate Searching(g: Graph, before: set<nat>, root: nat, black: seq<nat>, stack: seq<nat>, next: seq<nat>, marks: seq<bool>) {
    && Chain(g, stack) && Distinct(stack) && (stack != [] ==> stack[0] == root)
    && Marked(g, before, root, black, stack, marks)
    && Scanned(g, black, stack, next)
  }

  /** Finished nodes and the stack share no node, and together are the marked ones. */
  ghost predicate Marked(g: Graph, before: set<nat>, root: nat, black: seq<nat>, stack: seq<nat>, marks: seq<bool>) {
    && |marks| == |g| && Distinct(black)
    && (forall x: nat :: x < |g| ==> (marks[x] <==> x in black || x in stack))
    && (forall x :: x in black ==> x < |g| && x !in stack)
    && (forall x :: x in black || x in stack ==> x in before || Reaches(g, root, x))
  }

  /** Successors of finished nodes, and those before `next` on the stack, are visited. */
  ghost predicate Scanned(g: Graph, black: seq<nat>, stack: seq<nat>, next: seq<nat>)
    requires forall i :: 0 <= i < |stack| ==> stack[i] < |g|
  {
    && |next| == |stack|
    && (forall i :: 0 <= i < |stack| ==> next[i] <= |g[stack[i]]|)
    && (forall i, k :: 0 <= i < |stack| && 0 <= k < next[i] ==> g[stack[i]][k] in black || g[stack[i]][k] in stack)
    && (forall u, v :: u in black && u < |g| && v in g[u] ==> v in black || v in stack)
  }

  ghost predicate Ordered(g: Graph, black: seq<nat>) {
    Finishing(g, black) && Companions(g, Elements(black))
  }

  /** How many nodes are unmarked. */
  ghost function Unmarked(marks: seq<bool>): nat {
    |set x: nat | x < |marks| && !marks[x]|
  }

  lemma MarkOne(marks: seq<bool>, x: nat)
    requires x < |marks| && !marks[x]
    ensures Unmarked(marks[x := true]) < Unmarked(marks)
  {
    var marks' := marks[x := true];
    var a := set y: nat | y < |marks| && !marks[y];
    assert (set y: nat | y < |marks'| && !marks'[y]) == a - {x};
  }

  lemma Pushed(g: Graph, before: set<nat>, root: nat, black: seq<nat>, stack: seq<nat>, next: seq<nat>, marks: seq<bool>, k: nat)
    requires WellFormed(g) && Searching(g, before, root, black, stack, next, marks) && stack != []
    requires var node := stack[|stack| - 1];
             k < |g[node]| && next[|stack| - 1] == k && !marks[g[node][k]]
    ensures var nb := g[stack[|stack| - 1]][k];
            Searching(g, before, root, black, stack + [nb], next[|stack| - 1 := k + 1] + [0], marks[nb := true])
  {
    var node := stack[|stack| - 1];
    var nb := g[node][k];
    ChainReachesTop(g, stack, 0, |stack| - 1);
    ReachesStep(g, node, nb);
    ReachesTrans(g, root, node, nb);
    var stack' := stack + [nb];
    assert forall x :: x in stack' <==> x in stack || x == nb;
    assert nb !in stack && nb !in black;
    forall i | 0 <= i < |stack'| - 1 ensures stack'[i + 1] in g[stack'[i]] {
      if i < |stack| - 1 { assert stack[i + 1] in g[stack[i]]; }
    }
    PushedScanned(g, black, stack, next, k);
  }

  lemma PushedScanned(g: Graph, black: seq<nat>, stack: seq<nat>, next: seq<nat>, k: nat)
    requires WellFormed(g) && Chain(g, stack) && Scanned(g, black, stack, next) && stack != []
    requires k < |g[stack[|stack| - 1]]| && next[|stack| - 1] == k
    ensures var nb := g[stack[|stack| - 1]][k];
            Scanned(g, black, stack + [nb], next[|stack| - 1 := k + 1] + [0])
  {
    var nb := g[stack[|stack| - 1]][k];
    assert forall x :: x in stack + [nb] <==> x in stack || x == nb;
  }

  lemma Popped(g: Graph, before: set<nat>, root: nat, black: seq<nat>, stack: seq<nat>, next: seq<nat>, marks: seq<bool>)
    requires WellFormed(g) && Searching(g, before, root, black, stack, next, marks) && stack != []
    requires next[|stack| - 1] == |g[stack[|stack| - 1]]|
    ensures var node := stack[|stack| - 1];
            Searching(g, before, root, black + [node], stack[..|stack| - 1], next[..|stack| - 1], marks)
  {
    assert stack == stack[..|stack| - 1] + [stack[|stack| - 1]];
    PoppedMarked(g, before, root, black, stack[..|stack| - 1], stack[|stack| - 1], marks);
    PoppedScanned(g, black, stack, next);
  }

  lemma PoppedMarked(g: Graph, before: set<nat>, root: nat, black: seq<nat>, stack: seq<nat>, node: nat, marks: seq<bool>)
    requires node < |g| && Distinct(stack + [node]) && Marked(g, before, root, black, stack + [node], marks)
    ensures Distinct(stack) && Marked(g, before, root, black + [node], stack, marks)
  {
    assert forall i :: 0 <= i < |stack| ==> (stack + [node])[i] == stack[i];
    assert (stack + [node])[|stack|] == node;
    assert node !in stack;
    assert forall x :: x in stack + [node] <==> x in stack || x == node;
    assert forall x :: x in black + [node] <==> x in black || x == node;
  }

  lemma PoppedScanned(g: Graph, black: seq<nat>, stack: seq<nat>, next: seq<nat>)
    requires WellFormed(g) && Chain(g, stack) && Scanned(g, black, stack, next) && stack != []
    requires next[|stack| - 1] == |g[stack[|stack| - 1]]|
    ensures Scanned(g, black + [stack[|stack| - 1]], stack[..|stack| - 1], next[..|stack| - 1])
  {
    var node := stack[|stack| - 1];
    var stack', black' := stack[..|stack| - 1], black + [node];
    assert forall x :: x in stack <==> x in stack' || x == node by { assert stack == stack' + [node]; }
    assert forall x :: x in black' <==> x in black || x == node;
    forall v | v in g[node] ensures v in black' || v in stack' {
      var k :| 0 <= k < |g[node]| && g[node][k] == v;
      assert k < next[|stack| - 1];
    }
  }

  lemma PoppedOrdered(g: Graph, before: set<nat>, root: nat, black: seq<nat>, stack: seq<nat>, next: seq<nat>, marks: seq<bool>)
    requires WellFormed(g) && Searching(g, before, root, black, stack, next, marks) && stack != []
    requires next[|stack| - 1] == |g[stack[|stack| - 1]]| && Ordered(g, black)
    ensures Ordered(g, black + [stack[|stack| - 1]])
  {
    var node := stack[|stack| - 1];
    var done := Elements(black);
    forall u, v | u in done + {node} && u < |g| && v in g[u] ensures v in done || v in stack {
      if u == node {
        var k :| 0 <= k < |g[node]| && g[node][k] == v;
        assert k < next[|stack| - 1];
      }
    }
    FinishKeepsCompanions(g, done, stack);
    FinishKeepsOrder(g, black, node);
    assert Elements(black + [node]) == done + {node};
  }

  /* ---------- searches in a row ---------- */

  /** `black` lists the marked nodes in finishing order; no edge leaves them. */
  ghost predicate Finished(g: Graph, marks: seq<bool>, black: seq<nat>) {
    && |marks| == |g| && Distinct(black) && Ordered(g, black)
    && (forall x: nat :: x < |g| ==> (marks[x] <==> x in black))
    && (forall x :: x in black ==> x < |g|)
    && (forall u, v :: u in black && v in g[u] ==> v in black)
  }

  lemma FinishedReach(g: Graph, marks: seq<bool>, black: seq<nat>, x: nat, y: nat)
    requires Finished(g, marks, black) && x in black && Reaches(g, x, y)
    ensures y in black
  {
    if y !in black {
      var u, v := CrossingEdge(g, Elements(black), x, y);
    }
  }

  lemma StartSearch(g: Graph, marks: seq<bool>, root: nat, before: seq<nat>)
    requires WellFormed(g) && Finished(g, marks, before) && root < |g| && !marks[root]
    ensures Searching(g, Elements(before), root, before + [], [root], [0], marks[root := true]) && Ordered(g, before + [])
  {
    assert before + [] == before;
    ReachesItself(g, root);
  }

  lemma EndSearch(g: Graph, marks: seq<bool>, root: nat, before: seq<nat>, post: seq<nat>)
    requires Searching(g, Elements(before), root, before + post, [], [], marks) && Ordered(g, before + post) && root in before + post
    ensures Finished(g, marks, before + post)
    ensures forall x :: x in post ==> Reaches(g, root, x) && x !in before
    ensures forall x :: Reaches(g, root, x) ==> x in before + post
  {
    assert forall j :: 0 <= j < |before| ==> (before + post)[j] == before[j];
    forall x | x in post ensures Reaches(g, root, x) && x !in before {
      var i :| 0 <= i < |post| && post[i] == x;
      assert (before + post)[|before| + i] == x;
      assert x in before + post;
    }
    forall x | Reaches(g, root, x) ensures x in before + post { FinishedReach(g, marks, before + post, root, x); }
  }

  lemma FinishTop(g: Graph, before: seq<nat>, root: nat, post: seq<nat>, stack: seq<nat>, next: seq<nat>, marks: seq<bool>)
    requires WellFormed(g) && Searching(g, Elements(before), root, before + post, stack, next, marks) && stack != []
    requires next[|stack| - 1] == |g[stack[|stack| - 1]]| && Ordered(g, before + post)
    ensures var node := stack[|stack| - 1];
            && Searching(g, Elements(before), root, before + (post + [node]), stack[..|stack| - 1], next[..|stack| - 1], marks)
            && Ordered(g, before + (post + [node]))
  {
    var node := stack[|stack| - 1];
    assert before + post + [node] == before + (post + [node]);
    PoppedOrdered(g, Elements(before), root, before + post, stack, next, marks);
    Popped(g, Elements(before), root, before + post, stack, next, marks);
  }

  /** One depth-first search with an explicit stack: `next[i]` is the first
      successor of `stack[i]` not looked at yet. */
  method Visit(g: Graph, visited: array<bool>, root: nat, ghost before: seq<nat>) returns (post: seq<nat>)
    requires WellFormed(g) && visited.Length == |g| && root < |g| && !visited[root]
    requires Finished(g, visited[..], before)
    modifies visited
    ensures Finished(g, visited[..], before + post)
    ensures forall x :: x in post ==> Reaches(g, root, x) && x !in before
    ensures forall x :: Reaches(g, root, x) ==> x in before + post
    ensures post != [] && post[|post| - 1] == root
  {
    StartSearch(g, visited[..], root, before);
    ghost var marks := visited[..][root := true];
    visited[root] := true;
    assert visited[..] == marks;
    var stack, next := [root], [0];
    post := [];
    while stack != []
      invariant Searching(g, Elements(before), root, before + post, stack, next, visited[..]) && Ordered(g, before + post)
      invariant root in before + post || root in stack
      invariant stack == [] ==> post != [] && post[|post| - 1] == root
      decreases Unmarked(visited[..]), |stack|
    {
      var found;
      stack, next, found := Advance(g, visited, root, before, post, stack, next);
      if !found {
        FinishTop(g, before, root, post, stack, next, visited[..]);
        post, stack, next := post + [stack[|stack| - 1]], stack[..|stack| - 1], next[..|stack| - 1];
      }
    }
    EndSearch(g, visited[..], root, before, post);
  }

  lemma Skipped(g: Graph, before: set<nat>, root: nat, black: seq<nat>, stack: seq<nat>, next: seq<nat>, marks: seq<bool>, k: nat)
    requires WellFormed(g) && Searching(g, before, root, black, stack, next, marks) && stack != []
    requires var node := stack[|stack| - 1];
             k < |g[node]| && next[|stack| - 1] == k && marks[g[node][k]]
    ensures Searching(g, before, root, black, stack, next[|stack| - 1 := k + 1], marks)
  {
  }

  /** Push the next unvisited successor of the top node, if there is one. */
  method Advance(g: Graph, visited: array<bool>, ghost root: nat, ghost before: seq<nat>, ghost post: seq<nat>,
                 stack0: seq<nat>, next0: seq<nat>) returns (stack: seq<nat>, next: seq<nat>, found: bool)
    requires WellFormed(g) && visited.Length == |g| && stack0 != []
    requires Searching(g, Elements(before), root, before + post, stack0, next0, visited[..])
    modifies visited
    ensures Searching(g, Elements(before), root, before + post, stack, next, visited[..])
    ensures stack0 <= stack
    ensures found ==> Unmarked(visited[..]) < old(Unmarked(visited[..]))
    ensures !found ==> stack == stack0 && visited[..] == old(visited[..]) && next[|stack| - 1] == |g[stack[|stack| - 1]]|
  {
    stack, next, found := stack0, next0, false;
    var top := |stack| - 1;
    while next[top] < |g[stack[top]]|
      invariant stack == stack0 && visited[..] == old(visited[..])
      invariant Searching(g, Elements(before), root, before + post, stack, next, visited[..])
      decreases |g[stack[top]]| - next[top]
    {
      var k := next[top];
      var nb := g[stack[top]][k];
      if !visited[nb] {
        Pushed(g, Elements(before), root, before + post, stack, next, visited[..], k);
        MarkOne(visited[..], nb);
        ghost var marks := visited[..][nb := true];
        visited[nb] := true;
        assert visited[..] == marks;
        return stack + [nb], next[top := k + 1] + [0], true;
      }
      Skipped(g, Elements(before), root, before + post, stack, next, visited[..], k);
      next := next[top := k + 1];
    }
  }

  /* ---------- first pass ---------- */

  predicate AllNodes(g: Graph, order: seq<nat>) {
    (forall i :: 0 <= i < |order| ==> order[i] < |g|) && forall x: nat :: x < |g| ==> x in order
  }

  /** Node 0 finishes last of its component: the first search starts from it. */
  ghost predicate ZeroLast(g: Graph, order: seq<nat>) {
    |g| > 0 && 0 in order ==> exists k :: 0 <= k < |order| && order[k] == 0 && forall j :: k < j < |order| ==> !Reaches(g, 0, order[j])
  }

  lemma ZeroStaysLast(g: Graph, marks: seq<bool>, order: seq<nat>, post: seq<nat>)
    requires ZeroLast(g, order) && (order == [] ==> post != [] && post[|post| - 1] == 0)
    requires Finished(g, marks, order) && (order != [] ==> 0 in order) && forall x :: x in post ==> x !in order
    ensures ZeroLast(g, order + post)
  {
    if |g| > 0 && 0 in order + post {
      if order == [] {
        assert order + post == post;
      } else {
        var k :| 0 <= k < |order| && order[k] == 0 && forall j :: k < j < |order| ==> !Reaches(g, 0, order[j]);
        forall j | k < j < |order + post| ensures !Reaches(g, 0, (order + post)[j]) {
          if j >= |order| && Reaches(g, 0, post[j - |order|]) {
            FinishedReach(g, marks, order, 0, post[j - |order|]);
          }
        }
        assert (order + post)[k] == 0;
      }
    }
  }

  method FinishOrder(g: Graph) returns (order: seq<nat>)
    requires WellFormed(g)
    ensures Distinct(order) && Finishing(g, order)
    ensures AllNodes(g, order) && ZeroLast(g, order)
  {
    var visited := new bool[|g|](_ => false);
    order := [];
    for ri := 0 to |g|
      invariant Finished(g, visited[..], order) && ZeroLast(g, order)
      invariant (forall x: nat :: x < ri ==> visited[x]) && (ri == 0 ==> order == []) && (ri > 0 ==> 0 in order)
    {
      if !visited[ri] {
        ghost var marks := visited[..];
        var post := Visit(g, visited, ri, order);
        assert ri in order + post by { ReachesItself(g, ri); }
        ZeroStaysLast(g, marks, order, post);
        order := order + post;
      }
    }
    assert forall i :: 0 <= i < |order| ==> order[i] in order;
  }

  /* ---------- second pass ---------- */

  predicate Reversal(g: Graph, rev: Graph) {
    && |rev| == |g| && WellFormed(g) && WellFormed(rev)
    && forall x: nat, y: nat :: x < |g| && y < |g| ==> (y in g[x] <==> x in rev[y])
  }

  lemma ReversalReaches(g: Graph, rev: Graph, x: nat, y: nat)
    requires Reversal(g, rev)
    ensures Reaches(g, x, y) <==> Reaches(rev, y, x)
  {
    forall a, b, u, v | ((a == g && b == rev) || (a == rev && b == g)) && Reaches(a, u, v) ensures Reaches(b, v, u) {
      var p :| Walk(a, p) && p[0] == u && p[|p| - 1] == v;
      var q := seq(|p|, i requires 0 <= i < |p| => p[|p| - 1 - i]);
      forall i | 0 <= i < |q| - 1 ensures q[i + 1] in b[q[i]] {
        assert p[(|p| - 2 - i) + 1] in a[p[|p| - 2 - i]];
      }
      assert Walk(b, q);
    }
  }

  /** `black` is a union of whole components. */
  ghost predicate Whole(g: Graph, black: seq<nat>) {
    forall x, y {:trigger Mutual(g, x, y)} :: x in black && Mutual(g, x, y) ==> y in black
  }

  /** The nodes found from the last unvisited node of the finishing order are its component. */
  lemma FoundComponent(g: Graph, rev: Graph, order: seq<nat>, i: nat, black: seq<nat>, post: seq<nat>)
    requires Reversal(g, rev) && Finishing(g, order) && AllNodes(g, order)
    requires i < |order| && order[i] !in black && (forall j :: i < j < |order| ==> order[j] in black) && Whole(g, black)
    requires forall x :: x in post ==> Reaches(rev, order[i], x) && x !in black && x < |g|
    requires forall x :: Reaches(rev, order[i], x) ==> x in black + post
    ensures forall x :: x in post <==> Mutual(g, order[i], x)
    ensures Whole(g, black + post)
  {
    var root := order[i];
    forall x | x in post ensures Mutual(g, root, x) {
      ReversalReaches(g, rev, x, root);
      if !Reaches(g, root, x) {
        assert x in order;
        var j :| 0 <= j < |order| && order[j] == x;
        ReachesItself(g, root);
        assert j < i;
        assert x == order[..i][j];
        var w :| w !in order[..i + 1] && Mutual(g, x, w);
        assert forall k :: 0 <= k <= i ==> order[..i + 1][k] == order[k];
        var k := PositionOf(g, order, x, w);
        assert k > i;
        assert Mutual(g, w, x);
      }
    }
    forall x | Mutual(g, root, x) ensures x in post {
      ReversalReaches(g, rev, x, root);
      assert Mutual(g, x, root);
    }
    forall x, y {:trigger Mutual(g, x, y)} | x in black + post && Mutual(g, x, y) ensures y in black + post {
      if x in post {
        ReachesTrans(g, root, x, y);
        ReachesTrans(g, y, x, root);
      }
    }
  }

  lemma PositionOf(g: Graph, order: seq<nat>, x: nat, w: nat) returns (k: nat)
    requires Reaches(g, x, w) && AllNodes(g, order)
    ensures k < |order| && order[k] == w
  {
    var p :| Walk(g, p) && p[0] == x && p[|p| - 1] == w;
    assert w in order;
    k :| 0 <= k < |order| && order[k] == w;
  }

  ghost predicate Labelled(g: Graph, black: seq<nat>, comp: seq<int>) {
    && |comp| == |g|
    && (forall x :: x in black && x < |g| ==> 0 <= comp[x] < |g| && Mutual(g, x, comp[x]))
    && forall x, y {:trigger Mutual(g, x, y)} :: x in black && y in black && x < |g| && y < |g| && Mutual(g, x, y) ==> comp[x] == comp[y]
  }

  ghost predicate InLargerComponent(g: Graph, x: nat) {
    exists y :: y != x && Mutual(g, x, y)
  }

  /** An entry of `comp` that is not written yet equals by accident the label of a
      larger component found before its node. */
  ghost predicate StaleHit(g: Graph, black: seq<nat>, stale: seq<int>, comp: seq<int>, x: nat) {
    exists i :: 0 <= i < |black| && black[i] < |comp| && x < |stale| && x !in black[..i] &&
      InLargerComponent(g, black[i]) && stale[x] == comp[black[i]]
  }

  /** Flags hold for the members of larger components found so far and for the nodes
      whose unwritten entry is hit, and for no others. */
  ghost predicate Flagged(g: Graph, black: seq<nat>, stale: seq<int>, comp: seq<int>, flags: seq<bool>) {
    && |flags| == |g| && |stale| == |g|
    && forall x: nat :: x < |g| ==>
         (flags[x] <==> (x in black && InLargerComponent(g, x)) || StaleHit(g, black, stale, comp, x))
  }

  /** A node is found before every node that it reaches one-way. */
  ghost predicate SourcesFirst(g: Graph, black: seq<nat>) {
    forall i, j :: 0 <= i < j < |black| && Reaches(g, black[j], black[i]) ==> Reaches(g, black[i], black[j])
  }

  lemma SourcesStayFirst(g: Graph, rev: Graph, marks: seq<bool>, black: seq<nat>, post: seq<nat>, root: nat)
    requires Reversal(g, rev) && Finished(rev, marks, black) && SourcesFirst(g, black)
    requires (forall x :: x in post ==> x !in black) && forall x :: x in post ==> Mutual(g, root, x)
    ensures SourcesFirst(g, black + post)
  {
    var both := black + post;
    forall i, j | 0 <= i < j < |both| && Reaches(g, both[j], both[i]) ensures Reaches(g, both[i], both[j]) {
      if j >= |black| {
        assert both[j] == post[j - |black|] && both[j] in post;
        if i < |black| {
          ReversalReaches(g, rev, both[j], both[i]);
          FinishedReach(rev, marks, black, both[i], both[j]);
        } else {
          assert both[i] == post[i - |black|] && both[i] in post;
          ReachesTrans(g, both[i], root, both[j]);
        }
      }
    }
  }

  method Label(comp: array<int>, post: seq<nat>, root: nat)
    requires forall x :: x in post ==> x < comp.Length
    modifies comp
    ensures forall x: nat :: x < comp.Length ==> comp[x] == if x in post then root else old(comp[x])
  {
    for k := 0 to |post|
      invariant forall x: nat :: x < comp.Length ==> comp[x] == if x in post[..k] then root else old(comp[x])
    {
      assert post[..k + 1] == post[..k] + [post[k]] && post[k] in post;
      comp[post[k]] := root;
    }
    assert post[..|post|] == post;
  }

  method FlagRoot(comp: array<int>, root: nat, flags: array<bool>)
    requires flags.Length == comp.Length
    modifies flags
    ensures forall x: nat :: x < comp.Length ==> flags[x] == (old(flags[x]) || comp[x] == root)
  {
    for ri := 0 to comp.Length
      invariant forall x: nat :: x < comp.Length ==> flags[x] == (old(flags[x]) || (x < ri && comp[x] == root))
    {
      if comp[ri] == root { flags[ri] := true; }
    }
  }

  lemma LabelledMore(g: Graph, black: seq<nat>, post: seq<nat>, comp: seq<int>, comp': seq<int>, root: nat)
    requires Labelled(g, black, comp) && Whole(g, black) && root < |g| && |comp'| == |g|
    requires forall x :: x in post <==> Mutual(g, root, x)
    requires forall x :: x in post ==> x !in black
    requires forall x: nat :: x < |g| ==> comp'[x] == if x in post then root else comp[x]
    ensures Labelled(g, black + post, comp')
  {
    forall x, y {:trigger Mutual(g, x, y)} | x in black + post && y in black + post && x < |g| && y < |g| && Mutual(g, x, y)
      ensures comp'[x] == comp'[y]
    {
      assert Mutual(g, y, x);
      if x in post {
        ReachesTrans(g, root, x, y);
        ReachesTrans(g, y, x, root);
      }
    }
  }

  lemma HitsKept(g: Graph, black: seq<nat>, post: seq<nat>, stale: seq<int>, comp: seq<int>, comp': seq<int>, root: nat, x: nat)
    requires |comp| == |comp'| == |stale| == |g| && x < |g| && post != [] && forall y :: y in black + post ==> y < |g|
    requires forall y :: y in post && y < |g| ==> y !in black && comp'[y] == root && (InLargerComponent(g, y) <==> |post| > 1)
    requires forall y :: y in black && y < |g| ==> comp'[y] == comp[y]
    ensures StaleHit(g, black + post, stale, comp', x) <==>
            StaleHit(g, black, stale, comp, x) || (|post| > 1 && x !in black && stale[x] == root)
  {
    var both := black + post;
    assert forall i :: 0 <= i <= |black| ==> both[..i] == black[..i];
    if StaleHit(g, both, stale, comp', x) {
      var i :| 0 <= i < |both| && x !in both[..i] && InLargerComponent(g, both[i]) && stale[x] == comp'[both[i]];
      if i < |black| {
        assert both[i] == black[i] && black[i] in black;
      } else {
        assert both[i] == post[i - |black|] && both[i] in post && black == both[..|black|];
        assert forall y :: y in black ==> y in both[..i];
      }
    }
    if StaleHit(g, black, stale, comp, x) {
      var i :| 0 <= i < |black| && x !in black[..i] && InLargerComponent(g, black[i]) && stale[x] == comp[black[i]];
      assert both[i] == black[i] && black[i] in black;
    }
    if |post| > 1 && x !in black && stale[x] == root {
      assert both[|black|] == post[0] && post[0] in post && both[..|black|] == black;
      assert post[0] in both && InLargerComponent(g, both[|black|]) && comp'[both[|black|]] == root;
    }
  }

  lemma RunIsComponent(g: Graph, post: seq<nat>, root: nat)
    requires Distinct(post) && (forall x :: x in post <==> Mutual(g, root, x))
    ensures forall x :: x in post ==> (InLargerComponent(g, x) <==> |post| > 1)
  {
    forall x | x in post ensures InLargerComponent(g, x) <==> |post| > 1 {
      if InLargerComponent(g, x) {
        var y :| y != x && Mutual(g, x, y);
        ReachesTrans(g, root, x, y);
        ReachesTrans(g, y, x, root);
        assert y in post && x in post;
      }
      if |post| > 1 {
        var y := if post[0] == x then post[1] else post[0];
        assert y in post && y != x;
        ReachesTrans(g, x, root, y);
        ReachesTrans(g, y, root, x);
        assert Mutual(g, x, y);
      }
    }
  }

  lemma FlaggedMore(g: Graph, black: seq<nat>, post: seq<nat>, stale: seq<int>, comp: seq<int>, comp': seq<int>,
                    flags: seq<bool>, flags': seq<bool>, root: nat)
    requires Flagged(g, black, stale, comp, flags) && |comp| == |comp'| == |flags'| == |g| && root in post && Distinct(post)
    requires (forall x :: x in black + post ==> x < |g|) && forall x :: x in post ==> x !in black
    requires forall x :: x in post <==> Mutual(g, root, x)
    requires forall x: nat :: x < |g| ==> comp'[x] == if x in post then root else comp[x]
    requires forall x: nat :: x < |g| && x !in black ==> comp[x] == stale[x]
    requires forall x: nat :: x < |g| && x in black ==> comp[x] != root
    requires if |post| > 1 then forall x: nat :: x < |g| ==> flags'[x] == (flags[x] || comp'[x] == root) else flags' == flags
    ensures Flagged(g, black + post, stale, comp', flags')
  {
    RunIsComponent(g, post, root);
    forall y | y in black && y < |g| ensures comp'[y] == comp[y] { assert y !in post; }
    forall x: nat | x < |g|
      ensures flags'[x] <==> (x in black + post && InLargerComponent(g, x)) || StaleHit(g, black + post, stale, comp', x)
    {
      HitsKept(g, black, post, stale, comp, comp', root, x);
      hide InLargerComponent, StaleHit, Mutual;
    }
  }

  /** Two nodes get the same label exactly when each reaches the other.  `comp` arrives
      with arbitrary contents; flagged are the members of larger components and the
      nodes whose arbitrary entry is the label of a larger component found before. */
  method StrongComponents(g: Graph, rev: Graph, comp: array<int>) returns (flags: array<bool>, ghost found: seq<nat>)
    requires Reversal(g, rev) && comp.Length == |g|
    modifies comp
    ensures fresh(flags) && flags.Length == |g|
    ensures forall x: nat, y: nat :: x < |g| && y < |g| ==> (comp[x] == comp[y] <==> Mutual(g, x, y))
    ensures forall x: nat :: x < |g| ==> 0 <= comp[x] < |g|
    ensures |g| > 0 ==> comp[0] == 0
    ensures AllNodes(g, found) && SourcesFirst(g, found) && Flagged(g, found, old(comp[..]), comp[..], flags[..])
  {
    ghost var stale := comp[..];
    var order := FinishOrder(g);
    var visited := new bool[|g|](_ => false);
    flags := new bool[|g|](_ => false);
    found := [];
    NothingCollected(g, rev, visited[..], stale, flags[..]);
    hide FoundFrom, Finished, Collected, Flagged, Mutual, SourcesFirst, ZeroLast, Finishing, Reversal;
    var i := |order|;
    while i > 0
      invariant 0 <= i <= |order| && Finished(rev, visited[..], found) && Collected(g, found, stale, comp[..], flags[..])
      invariant FoundFrom(order, i, found)
    {
      i := i - 1;
      if !visited[order[i]] {
        ghost var before := found;
        found := Collect(g, rev, order, i, visited, comp, flags, found, stale);
        FoundMore(order, i, before, found);
      } else {
        MarkedFound(rev, visited[..], found, order[i]);
        FoundMore(order, i, found, found);
      }
    }
    AllCollected(g, rev, visited[..], order, found, stale, comp[..], flags[..]);
  }

  predicate FoundFrom(order: seq<nat>, i: nat, found: seq<nat>) {
    forall j :: i <= j < |order| ==> order[j] in found
  }

  lemma FoundMore(order: seq<nat>, i: nat, found: seq<nat>, found': seq<nat>)
    requires i < |order| && FoundFrom(order, i + 1, found) && found <= found' && order[i] in found'
    ensures FoundFrom(order, i, found')
  {
    forall j | i < j < |order| ensures order[j] in found' {
      var k :| 0 <= k < |found| && found[k] == order[j];
      assert found'[k] == order[j];
    }
  }

  lemma MarkedFound(rev: Graph, marks: seq<bool>, found: seq<nat>, x: nat)
    requires Finished(rev, marks, found) && x < |marks| && marks[x]
    ensures x in found
  {
  }

  lemma NothingCollected(g: Graph, rev: Graph, marks: seq<bool>, comp: seq<int>, flags: seq<bool>)
    requires |marks| == |comp| == |flags| == |g| == |rev| && forall x: nat :: x < |g| ==> !marks[x] && !flags[x]
    ensures Finished(rev, marks, []) && Collected(g, [], comp, comp, flags)
  {
  }

  lemma AllCollected(g: Graph, rev: Graph, marks: seq<bool>, order: seq<nat>, black: seq<nat>, stale: seq<int>, comp: seq<int>,
                     flags: seq<bool>)
    requires AllNodes(g, order) && Collected(g, black, stale, comp, flags) && |rev| == |g| && Finished(rev, marks, black)
    requires FoundFrom(order, 0, black)
    ensures forall x: nat, y: nat :: x < |g| && y < |g| ==> (comp[x] == comp[y] <==> Mutual(g, x, y))
    ensures forall x: nat :: x < |g| ==> 0 <= comp[x] < |g|
    ensures (|g| > 0 ==> comp[0] == 0) && AllNodes(g, black) && SourcesFirst(g, black)
    ensures Flagged(g, black, stale, comp, flags)
  {
    forall x: nat | x < |g| ensures x in black {
      assert x in order;
      var j :| 0 <= j < |order| && order[j] == x;
    }
    assert forall i :: 0 <= i < |black| ==> black[i] in black;
    forall x: nat, y: nat | x < |g| && y < |g| ensures comp[x] == comp[y] <==> Mutual(g, x, y) {
      if comp[x] == comp[y] {
        ReachesTrans(g, x, comp[x], y);
        ReachesTrans(g, y, comp[y], x);
      }
    }
  }

  /** The state of the second pass. */
  ghost predicate Collected(g: Graph, black: seq<nat>, stale: seq<int>, comp: seq<int>, flags: seq<bool>) {
    && Whole(g, black) && Labelled(g, black, comp) && Flagged(g, black, stale, comp, flags)
    && SourcesFirst(g, black) && (0 in black && |g| > 0 ==> comp[0] == 0)
    && forall x: nat :: x < |g| && x !in black ==> comp[x] == stale[x]
  }

  lemma CollectedMore(g: Graph, black: seq<nat>, post: seq<nat>, stale: seq<int>, comp: seq<int>, flags: seq<bool>,
                      comp': seq<int>, flags': seq<bool>, root: nat)
    requires Collected(g, black, stale, comp, flags) && |comp'| == |flags'| == |g| && root < |g| && Distinct(black + post)
    requires Whole(g, black + post) && (forall x :: x in post <==> Mutual(g, root, x)) && forall x :: x in post ==> x !in black
    requires (forall x :: x in black + post ==> x < |g|) && SourcesFirst(g, black + post) && (0 in post ==> root == 0)
    requires forall x: nat :: x < |g| ==> comp'[x] == if x in post then root else comp[x]
    requires if |post| > 1 then forall x: nat :: x < |g| ==> flags'[x] == (flags[x] || comp'[x] == root) else flags' == flags
    ensures Collected(g, black + post, stale, comp', flags')
  {
    LabelledMore(g, black, post, comp, comp', root);
    assert Distinct(post) by { assert forall j :: 0 <= j < |post| ==> (black + post)[|black| + j] == post[j]; }
    ReachesItself(g, root);
    assert root in post && root !in black;
    forall x | x in black && x < |g| ensures comp[x] != root { assert Mutual(g, x, comp[x]); }
    FlaggedMore(g, black, post, stale, comp, comp', flags, flags', root);
  }

  /** The component of node 0 is labelled 0: its last node is found first. */
  lemma ZeroIsRoot(g: Graph, order: seq<nat>, i: nat, black: seq<nat>)
    requires ZeroLast(g, order) && AllNodes(g, order) && i < |order| && order[i] !in black && Whole(g, black)
    requires (forall j :: i < j < |order| ==> order[j] in black) && Mutual(g, order[i], 0) && |g| > 0
    ensures order[i] == 0
  {
    var k :| 0 <= k < |order| && order[k] == 0 && forall j :: k < j < |order| ==> !Reaches(g, 0, order[j]);
    if i < k { assert Mutual(g, 0, order[i]); }
  }

  method Collect(g: Graph, rev: Graph, order: seq<nat>, i: nat, visited: array<bool>, comp: array<int>, flags: array<bool>,
                 ghost black: seq<nat>, ghost stale: seq<int>) returns (ghost black': seq<nat>)
    requires Reversal(g, rev) && Finishing(g, order) && AllNodes(g, order) && ZeroLast(g, order)
    requires visited.Length == comp.Length == flags.Length == |g| && visited != flags
    requires i < |order| && !visited[order[i]] && FoundFrom(order, i + 1, black)
    requires Finished(rev, visited[..], black) && Collected(g, black, stale, comp[..], flags[..])
    modifies visited, comp, flags
    ensures Finished(rev, visited[..], black') && order[i] in black' && black <= black'
    ensures Collected(g, black', stale, comp[..], flags[..])
  {
    var root := order[i];
    ghost var marks, labels, marked := visited[..], comp[..], flags[..];
    var post := Visit(rev, visited, root, black);
    black' := black + post;
    RunFound(g, rev, marks, order, i, black, post, stale, labels, marked);
    ReachesItself(g, root);
    hide Collected, Finished, Finishing, Reversal, AllNodes, ZeroLast, FoundFrom, Whole, Mutual, SourcesFirst;
    assert forall x :: x in post ==> x in black';
    Label(comp, post, root);
    if |post| > 1 { FlagRoot(comp, root, flags); }
    CollectedMore(g, black, post, stale, labels, marked, comp[..], flags[..], root);
  }

  /** One search of the second pass finds one component. */
  lemma RunFound(g: Graph, rev: Graph, marks: seq<bool>, order: seq<nat>, i: nat, black: seq<nat>, post: seq<nat>,
                 stale: seq<int>, comp: seq<int>, flags: seq<bool>)
    requires Reversal(g, rev) && Finishing(g, order) && AllNodes(g, order) && ZeroLast(g, order)
    requires Finished(rev, marks, black) && Collected(g, black, stale, comp, flags)
    requires i < |order| && order[i] < |marks| && !marks[order[i]] && FoundFrom(order, i + 1, black)
    requires forall x :: x in post ==> Reaches(rev, order[i], x) && x !in black && x < |g|
    requires forall x :: Reaches(rev, order[i], x) ==> x in black + post
    ensures (forall x :: x in post <==> Mutual(g, order[i], x)) && Whole(g, black + post)
    ensures SourcesFirst(g, black + post) && (0 in post ==> order[i] == 0)
  {
    FoundComponent(g, rev, order, i, black, post);
    hide Flagged, Labelled;
    SourcesStayFirst(g, rev, marks, black, post, order[i]);
    if 0 in post { ZeroIsRoot(g, order, i, black); }
  }
}
