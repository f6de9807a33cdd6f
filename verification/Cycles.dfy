/**
  The dependency cycle finder of the architecture check (`dependency_cycles`,
  scripts/architecture/check_dependencies.py).
*/
module Cycles {
  type Node = string

  /** Normal and build dependencies of each package, in the order they are visited. */
  type Graph = map<Node, seq<Node>>

  /** Only workspace packages are targets. */
  predicate Closed(g: Graph) {
    forall n, t :: n in g && t in g[n] ==> t in g
  }

  predicate Edge(g: Graph, n: Node, t: Node) {
    n in g && t in g[n]
  }

  ghost predicate Path(g: Graph, w: seq<Node>) {
    && (forall i :: 0 <= i < |w| ==> w[i] in g)
    && (forall i :: 0 <= i < |w| - 1 ==> Edge(g, w[i], w[i + 1]))
  }

  predicate NoRepeat<T(==)>(s: seq<T>) {
    forall i, j :: 0 <= i < j < |s| ==> s[i] != s[j]
  }

  /** A walk along edges back to where it started. */
  ghost predicate ClosedWalk(g: Graph, w: seq<Node>) {
    |w| > 1 && w[0] == w[|w| - 1] && Path(g, w)
  }

  ghost predicate Acyclic(g: Graph) {
    forall w :: !ClosedWalk(g, w)
  }

  /** `" -> ".join(walk)`. */
  function Render(w: seq<Node>): string {
    if w == [] then "" else if |w| == 1 then w[0] else w[0] + " -> " + Render(w[1..])
  }

  /** `text` shows a cycle of the graph that meets each of its nodes once. */
  ghost predicate Shows(g: Graph, text: string) {
    exists w :: SimpleCycle(g, w) && text == Render(w)
  }

  ghost predicate SimpleCycle(g: Graph, w: seq<Node>) {
    ClosedWalk(g, w) && NoRepeat(w[1..])
  }

  /** Every edge of a ranked node leads to a node ranked below it. */
  ghost predicate Descends(g: Graph, rank: map<Node, nat>) {
    && (forall n :: n in rank ==> rank[n] < |rank|)
    && (forall n, t :: n in rank && Edge(g, n, t) ==> t in rank && rank[t] < rank[n])
  }

  lemma {:induction false} RankFalls(g: Graph, rank: map<Node, nat>, w: seq<Node>, i: nat)
    requires Descends(g, rank) && Path(g, w) && 0 < i < |w| && w[0] in rank
    ensures w[i] in rank && rank[w[i]] < rank[w[0]]
    decreases i
  {
    assert Edge(g, w[i - 1], w[i]);
    if i > 1 { RankFalls(g, rank, w, i - 1); }
  }

  /** A graph whose every node is ranked has no cycle. */
  lemma RankedIsAcyclic(g: Graph, rank: map<Node, nat>)
    requires Descends(g, rank) && g.Keys <= rank.Keys
    ensures Acyclic(g)
  {
    forall w ensures !ClosedWalk(g, w) {
      if ClosedWalk(g, w) { RankFalls(g, rank, w, |w| - 1); }
    }
  }

  lemma CycleShown(g: Graph, stack: seq<Node>, start: nat, target: Node)
    requires Path(g, stack) && NoRepeat(stack) && start < |stack| && stack[start] == target
    requires Edge(g, stack[|stack| - 1], target)
    ensures Shows(g, Render(stack[start..] + [target]))
  {
    var w := stack[start..] + [target];
    forall i | 0 <= i < |w| - 1 ensures Edge(g, w[i], w[i + 1]) {
      if i < |w| - 2 { assert Edge(g, stack[start + i], stack[start + i + 1]); }
    }
    assert SimpleCycle(g, w);
  }

  /** Grey nodes (1) are the ones on the stack, black nodes (2) the finished ones. */
  ghost predicate Coloured(g: Graph, state: map<Node, int>, stack: seq<Node>, finished: set<Node>) {
    && state.Keys <= g.Keys
    && (forall n :: n in state ==> state[n] == 1 || state[n] == 2)
    && (forall n :: n in state && state[n] == 1 <==> n in stack)
    && (forall n :: n in state && state[n] == 2 <==> n in finished)
  }

  lemma ColourGrey(g: Graph, state: map<Node, int>, stack: seq<Node>, finished: set<Node>, n: Node)
    requires Coloured(g, state, stack, finished) && n in g && n !in state
    ensures n !in stack && Coloured(g, state[n := 1], stack + [n], finished)
  {
    assert forall x :: x in stack + [n] <==> x in stack || x == n;
  }

  lemma ColourBlack(g: Graph, state: map<Node, int>, stack: seq<Node>, finished: set<Node>, n: Node)
    requires Coloured(g, state, stack + [n], finished) && n !in stack
    ensures n !in finished && Coloured(g, state[n := 2], stack, finished + {n})
  {
    assert forall x :: x in stack + [n] <==> x in stack || x == n;
  }

  lemma PopStack(g: Graph, stack: seq<Node>)
    requires stack != [] && Path(g, stack) && NoRepeat(stack)
    ensures var rest, node := stack[..|stack| - 1], stack[|stack| - 1];
            stack == rest + [node] && node !in rest && Path(g, rest) && NoRepeat(rest)
  {
    var rest := stack[..|stack| - 1];
    forall i | 0 <= i < |rest| - 1 ensures Edge(g, rest[i], rest[i + 1]) { assert Edge(g, stack[i], stack[i + 1]); }
  }

  lemma DescendsAdd(g: Graph, rank: map<Node, nat>, n: Node)
    requires Descends(g, rank) && n !in rank && forall t :: Edge(g, n, t) ==> t in rank
    ensures Descends(g, rank[n := |rank|])
  {
    assert |rank[n := |rank|]| == |rank| + 1;
  }

  ghost predicate Ranked(targets: seq<Node>, ranked: set<Node>) {
    forall t :: t in targets ==> t in ranked
  }

  lemma TargetIsEdge(g: Graph, node: Node, i: nat)
    requires node in g && i < |g[node]|
    ensures Edge(g, node, g[node][i])
  {
  }

  lemma RankedNext(targets: seq<Node>, i: nat, before: set<Node>, after: set<Node>)
    requires i < |targets| && Ranked(targets[..i], before) && before <= after && targets[i] in after
    ensures Ranked(targets[..i + 1], after)
  {
    assert targets[..i + 1] == targets[..i] + [targets[i]];
  }

  lemma RankedTargets(g: Graph, node: Node, ranked: set<Node>)
    requires node in g && Ranked(g[node][..|g[node]|], ranked)
    ensures forall t :: Edge(g, node, t) ==> t in ranked
  {
    assert g[node][..|g[node]|] == g[node];
  }

  class CycleFinder {
    const graph: Graph
    var state: map<Node, int>
    var stack: seq<Node>
    var cycles: seq<string>

    /** The order in which nodes were finished. */
    ghost var rank: map<Node, nat>

    /** `defaultdict(int)`. */
    function State(n: Node): int
      reads this
    {
      if n in state then state[n] else 0
    }

    ghost function Unseen(): set<Node>
      reads this
    {
      graph.Keys - state.Keys
    }

    ghost predicate Found()
      reads this
    {
      && NoRepeat(cycles)
      && (forall i :: 0 <= i < |cycles| ==> Shows(graph, cycles[i]))
      && (cycles == [] ==> Descends(graph, rank))
    }

    ghost predicate Valid()
      reads this
    {
      Closed(graph) && Coloured(graph, state, stack, rank.Keys) && Path(graph, stack) && NoRepeat(stack) && Found()
    }

    constructor (graph: Graph)
      requires Closed(graph)
      ensures this.graph == graph && Valid() && state == map[] && stack == [] && cycles == []
    {
      this.graph := graph;
      state, stack, cycles, rank := map[], [], [], map[];
    }

    method Enter(node: Node)
      requires Valid() && node in graph && State(node) == 0
      requires stack != [] ==> Edge(graph, stack[|stack| - 1], node)
      modifies `state, `stack
      ensures Valid() && stack == old(stack) + [node] && Unseen() < old(Unseen())
    {
      assert node in Unseen();
      ColourGrey(graph, state, stack, rank.Keys, node);
      state := state[node := 1];
      stack := stack + [node];
    }

    method Report(target: Node)
      requires Valid() && State(target) == 1 && stack != [] && Edge(graph, stack[|stack| - 1], target)
      modifies `cycles
      ensures Valid() && cycles != []
    {
      ghost var at :| 0 <= at < |stack| && stack[at] == target;
      var start := 0;
      while stack[start] != target
        invariant 0 <= start <= at
        decreases at - start
      {
        start := start + 1;
      }
      var cycle := stack[start..] + [target];
      CycleShown(graph, stack, start, target);
      var rendered := Render(cycle);
      if rendered !in cycles { cycles := cycles + [rendered]; }
    }

    method Leave(node: Node)
      requires Valid() && stack != [] && stack[|stack| - 1] == node
      requires cycles == [] ==> forall t :: Edge(graph, node, t) ==> t in rank
      modifies `state, `stack, `rank
      ensures Valid() && stack == old(stack[..|stack| - 1]) && state.Keys == old(state).Keys
      ensures rank.Keys == old(rank).Keys + {node}
    {
      var rest := stack[..|stack| - 1];
      PopStack(graph, stack);
      ColourBlack(graph, state, rest, rank.Keys, node);
      if cycles == [] { DescendsAdd(graph, rank, node); }
      stack := rest;
      state := state[node := 2];
      rank := rank[node := |rank|];
    }

    method Visit(node: Node)
      requires Valid() && node in graph && State(node) == 0
      requires stack != [] ==> Edge(graph, stack[|stack| - 1], node)
      modifies this
      ensures Valid() && stack == old(stack) && node in rank
      ensures Unseen() <= old(Unseen()) && old(rank).Keys <= rank.Keys && (old(cycles) != [] ==> cycles != [])
      decreases Unseen(), 0
    {
      Enter(node);
      FollowAll(node);
      Leave(node);
    }

    /** The loop over the targets of the node on top of the stack. */
    method FollowAll(node: Node)
      requires Valid() && stack != [] && stack[|stack| - 1] == node
      modifies this
      ensures Valid() && stack == old(stack) && Unseen() <= old(Unseen()) && old(rank).Keys <= rank.Keys
      ensures cycles == [] ==> forall t :: Edge(graph, node, t) ==> t in rank
      ensures old(cycles) != [] ==> cycles != []
      decreases Unseen(), 2
    {
      assert node in graph;
      var targets := graph[node];
      for i := 0 to |targets|
        invariant Valid() && stack == old(stack) && Unseen() <= old(Unseen()) && old(rank).Keys <= rank.Keys
        invariant cycles == [] ==> Ranked(targets[..i], rank.Keys)
        invariant old(cycles) != [] ==> cycles != []
      {
        TargetIsEdge(graph, node, i);
        ghost var before := rank.Keys;
        Follow(targets[i]);
        if cycles == [] { RankedNext(targets, i, before, rank.Keys); }
      }
      if cycles == [] { RankedTargets(graph, node, rank.Keys); }
    }

    /** One turn of the loop over the targets of the node on top of the stack. */
    method Follow(target: Node)
      requires Valid() && stack != [] && Edge(graph, stack[|stack| - 1], target)
      modifies this
      ensures Valid() && stack == old(stack) && (cycles == [] ==> target in rank)
      ensures Unseen() <= old(Unseen()) && old(rank).Keys <= rank.Keys && (old(cycles) != [] ==> cycles != [])
      decreases Unseen(), 1
    {
      if State(target) == 0 {
        Visit(target);
      } else if State(target) == 1 {
        Report(target);
      }
    }

    method VisitRoot(node: Node)
      requires Valid() && node in graph && stack == []
      modifies this
      ensures Valid() && stack == [] && node in rank && old(rank).Keys <= rank.Keys
    {
      if State(node) == 0 { Visit(node); }
    }

    method VisitAll(nodes: seq<Node>)
      requires Valid() && stack == [] && forall n :: n in nodes ==> n in graph
      modifies this
      ensures Valid() && stack == [] && Ranked(nodes, rank.Keys)
    {
      for i := 0 to |nodes|
        invariant Valid() && stack == [] && Ranked(nodes[..i], rank.Keys)
      {
        ghost var before := rank.Keys;
        VisitRoot(nodes[i]);
        RankedNext(nodes, i, before, rank.Keys);
      }
      assert nodes[..|nodes|] == nodes;
    }
  }

  /** The rendered cycles; none exactly when the graph is acyclic. */
  method DependencyCycles(graph: Graph, nodes: seq<Node>) returns (cycles: seq<string>)
    requires Closed(graph) && graph.Keys == set n | n in nodes
    ensures cycles == [] <==> Acyclic(graph)
    ensures NoRepeat(cycles) && forall i :: 0 <= i < |cycles| ==> Shows(graph, cycles[i])
  {
    var finder := new CycleFinder(graph);
    finder.VisitAll(nodes);
    cycles := finder.cycles;
    if cycles == [] {
      RankedIsAcyclic(graph, finder.rank);
    } else {
      assert Shows(graph, cycles[0]);
    }
  }
}
