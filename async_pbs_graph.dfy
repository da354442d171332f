/**
 * The dependency-graph state of the bootstrapping scheduler, `FheGraph` in
 * `mpi_test/src/async_pbs_graph.rs`.
 *
 * The petgraph `Graph<Node, u64>` is an arena: node weights by index (an array, since
 * `build_task` and `commit_result` overwrite them in place) and an edge list in insertion
 * order. petgraph lists the edges at a node newest first; `IncomingEdges` and
 * `OutgoingTargets` keep that order. Acyclicity is stated as the existence of a ranking that
 * strictly decreases along every edge.
 */
module AsyncPbsGraph {
  import opened Common
  import opened PbsTasks

  /** The state of a node. The variant name keeps the source's spelling. */
  datatype Node = Computed(ct: Ciphertext) | BootsrapQueued | ToCompute(lookupTable: Lut)
  {
    /** `Node::ct`: the ciphertext of a computed node. */
    function Ct(): (r: Option<Ciphertext>)
      ensures r.Some? <==> this.Computed?
      ensures r.Some? ==> r.value == this.ct
    {
      match this
      case Computed(ct) => Some(ct)
      case _ => None
    }
  }

  /** An edge from `source` to `target` carrying a `u64` weight. */
  datatype Edge = Edge(source: nat, target: nat, weight: nat)

  /** The graph `FheGraph::new` receives. */
  datatype Graph = Graph(nodes: seq<Node>, edges: seq<Edge>)

  /** A task as the scheduler hands it out, with its `Priority`. */
  datatype PrioritizedTask = PrioritizedTask(priority: int, task: IndexedCtsAndLut)

  datatype GraphError =
    | MissingPriority
    | InitCheckFailed
    | PredecessorNotComputed
    | Unreachable
    | CounterUnderflow
    | NoSuchNode
    | NotQueued
    | SuccessorNotToCompute

  // ----------------------------------------------------------------------------------------
  // Edges
  // ----------------------------------------------------------------------------------------

  predicate EdgesWithin(edges: seq<Edge>, n: nat)
  {
    forall e :: 0 <= e < |edges| ==> edges[e].source < n && edges[e].target < n
  }

  predicate HasSuccessor(edges: seq<Edge>, v: nat)
  {
    exists e :: 0 <= e < |edges| && edges[e].source == v
  }

  /** No incoming edge: `neighbors_directed(i, Incoming).next().is_none()`. */
  predicate IsSource(edges: seq<Edge>, v: nat)
  {
    forall e :: 0 <= e < |edges| ==> edges[e].target != v
  }

  /** `edges_directed(v, Incoming)`: the edges into v, newest first. */
  function IncomingEdges(edges: seq<Edge>, v: nat): (r: seq<Edge>)
    ensures forall x :: x in r ==> x in edges && x.target == v
    ensures forall e :: 0 <= e < |edges| && edges[e].target == v ==> edges[e] in r
  {
    if edges == [] then []
    else
      var last := edges[|edges| - 1];
      (if last.target == v then [last] else []) + IncomingEdges(edges[..|edges| - 1], v)
  }

  /** `neighbors_directed(v, Outgoing)`: the targets of the edges out of v, newest first. */
  function OutgoingTargets(edges: seq<Edge>, v: nat): (r: seq<nat>)
    ensures forall t :: t in r ==> exists e :: 0 <= e < |edges| && edges[e].source == v && edges[e].target == t
    ensures forall e :: 0 <= e < |edges| && edges[e].source == v ==> edges[e].target in r
  {
    if edges == [] then []
    else
      var last := edges[|edges| - 1];
      var rest := OutgoingTargets(edges[..|edges| - 1], v);
      assert forall t :: t in rest ==> exists e :: 0 <= e < |edges| - 1 && edges[e].source == v && edges[e].target == t;
      (if last.source == v then [last.target] else []) + rest
  }

  /** `edges_directed(v, Outgoing)`: the edges out of v, newest first. */
  function OutgoingEdges(edges: seq<Edge>, v: nat): (r: seq<Edge>)
    ensures forall x :: x in r ==> x in edges && x.source == v
  {
    if edges == [] then []
    else
      var last := edges[|edges| - 1];
      (if last.source == v then [last] else []) + OutgoingEdges(edges[..|edges| - 1], v)
  }

  /** One entry per edge into v: a parallel edge is listed as often as it was added. */
  lemma {:induction false} IncomingEdgesCount(edges: seq<Edge>, v: nat)
    ensures forall x :: multiset(IncomingEdges(edges, v))[x] == if x.target == v then multiset(edges)[x] else 0
  {
    if edges != [] {
      var prefix, last := edges[..|edges| - 1], edges[|edges| - 1];
      assert edges == prefix + [last];
      IncomingEdgesCount(prefix, v);
      assert multiset(edges) == multiset(prefix) + multiset{last};
      var head := if last.target == v then [last] else [];
      assert multiset(IncomingEdges(edges, v)) == multiset(head) + multiset(IncomingEdges(prefix, v));
    }
  }

  /** One entry per edge out of v: a parallel edge is listed as often as it was added. */
  lemma {:induction false} OutgoingEdgesCount(edges: seq<Edge>, v: nat)
    ensures forall x :: multiset(OutgoingEdges(edges, v))[x] == if x.source == v then multiset(edges)[x] else 0
  {
    if edges != [] {
      var prefix, last := edges[..|edges| - 1], edges[|edges| - 1];
      assert edges == prefix + [last];
      OutgoingEdgesCount(prefix, v);
      assert multiset(edges) == multiset(prefix) + multiset{last};
      var head := if last.source == v then [last] else [];
      assert multiset(OutgoingEdges(edges, v)) == multiset(head) + multiset(OutgoingEdges(prefix, v));
    }
  }

  /** `neighbors_directed(v, Outgoing)` is the list of targets of `edges_directed(v, Outgoing)`. */
  lemma {:induction false} OutgoingTargetsOfEdges(edges: seq<Edge>, v: nat)
    ensures |OutgoingTargets(edges, v)| == |OutgoingEdges(edges, v)|
    ensures forall i :: 0 <= i < |OutgoingEdges(edges, v)| ==>
      OutgoingTargets(edges, v)[i] == OutgoingEdges(edges, v)[i].target
  {
    if edges != [] {
      OutgoingTargetsOfEdges(edges[..|edges| - 1], v);
    }
  }

  lemma OutgoingTargetsWithin(edges: seq<Edge>, n: nat, v: nat)
    requires EdgesWithin(edges, n)
    ensures forall t :: t in OutgoingTargets(edges, v) ==> t < n
    ensures forall j :: 0 <= j < |OutgoingTargets(edges, v)| ==> OutgoingTargets(edges, v)[j] < n
  {
    var r := OutgoingTargets(edges, v);
    forall t | t in r
      ensures t < n
    {
      var e :| 0 <= e < |edges| && edges[e].source == v && edges[e].target == t;
    }
    forall j | 0 <= j < |r|
      ensures r[j] < n
    {
      assert r[j] in r;
    }
  }

  /** `neighbors_directed(v, Incoming)`: the sources of the edges into v, newest first. */
  function IncomingSources(edges: seq<Edge>, v: nat): (r: seq<nat>)
    ensures forall e :: 0 <= e < |edges| && edges[e].target == v ==> edges[e].source in r
  {
    var inc := IncomingEdges(edges, v);
    var r := seq(|inc|, i requires 0 <= i < |inc| => inc[i].source);
    assert forall e :: 0 <= e < |edges| && edges[e].target == v ==>
      exists i :: 0 <= i < |inc| && inc[i] == edges[e] && r[i] == edges[e].source;
    r
  }

  // ----------------------------------------------------------------------------------------
  // Acyclicity
  // ----------------------------------------------------------------------------------------

  /** A ranking of the n nodes that strictly decreases along every edge. */
  ghost predicate IsRanking(edges: seq<Edge>, n: nat, rank: seq<nat>)
  {
    |rank| == n && EdgesWithin(edges, n) &&
    forall e :: 0 <= e < |edges| ==> rank[edges[e].source] > rank[edges[e].target]
  }

  ghost predicate Acyclic(edges: seq<Edge>, n: nat)
  {
    exists rank :: IsRanking(edges, n, rank)
  }

  /** A walk along the edges with the given indices, each edge starting where the previous one ends. */
  ghost predicate IsWalk(edges: seq<Edge>, walk: seq<nat>)
  {
    (forall i :: 0 <= i < |walk| ==> walk[i] < |edges|) &&
    forall i :: 0 <= i < |walk| - 1 ==> edges[walk[i]].target == edges[walk[i + 1]].source
  }

  lemma {:induction false} RankingDecreasesAlongWalks(edges: seq<Edge>, n: nat, rank: seq<nat>, walk: seq<nat>)
    requires IsRanking(edges, n, rank) && IsWalk(edges, walk) && |walk| >= 1
    ensures rank[edges[walk[0]].source] > rank[edges[walk[|walk| - 1]].target]
    decreases |walk|
  {
    if |walk| > 1 {
      RankingDecreasesAlongWalks(edges, n, rank, walk[1..]);
    }
  }

  /** An acyclic graph has no walk that returns to where it started (what `is_cyclic_directed` looks for). */
  lemma AcyclicHasNoCycle(edges: seq<Edge>, n: nat, walk: seq<nat>)
    requires Acyclic(edges, n) && IsWalk(edges, walk) && |walk| >= 1
    ensures edges[walk[0]].source != edges[walk[|walk| - 1]].target
  {
    var rank :| IsRanking(edges, n, rank);
    RankingDecreasesAlongWalks(edges, n, rank, walk);
  }

  // ----------------------------------------------------------------------------------------
  // Priorities: insert_predecessors_recursively
  // ----------------------------------------------------------------------------------------

  /** The largest priority among the assigned targets of the first i edges out of v, 0 if none. */
  function MaxOverPrefix(edges: seq<Edge>, m: map<nat, nat>, v: nat, i: nat): nat
    requires i <= |edges|
  {
    if i == 0 then 0
    else
      var e := edges[i - 1];
      var here := if e.source == v && e.target in m then m[e.target] else 0;
      var before := MaxOverPrefix(edges, m, v, i - 1);
      if here > before then here else before
  }

  /** `neighbors_directed(v, Outgoing).map(|s| m[s]).max().unwrap_or(0)`. */
  function MaxSuccessorPriority(edges: seq<Edge>, m: map<nat, nat>, v: nat): nat
  {
    MaxOverPrefix(edges, m, v, |edges|)
  }

  lemma {:induction false} MaxOverPrefixIsMax(edges: seq<Edge>, m: map<nat, nat>, v: nat, i: nat)
    requires i <= |edges|
    ensures forall e :: 0 <= e < i && edges[e].source == v && edges[e].target in m ==>
      m[edges[e].target] <= MaxOverPrefix(edges, m, v, i)
    ensures MaxOverPrefix(edges, m, v, i) > 0 ==>
      exists e :: 0 <= e < i && edges[e].source == v && edges[e].target in m && m[edges[e].target] == MaxOverPrefix(edges, m, v, i)
  {
    if i > 0 {
      MaxOverPrefixIsMax(edges, m, v, i - 1);
    }
  }

  /** The maximum over the successors: an upper bound of each of them, attained when positive. */
  lemma MaxSuccessorPriorityIsMax(edges: seq<Edge>, m: map<nat, nat>, v: nat)
    ensures forall e :: 0 <= e < |edges| && edges[e].source == v && edges[e].target in m ==>
      m[edges[e].target] <= MaxSuccessorPriority(edges, m, v)
    ensures MaxSuccessorPriority(edges, m, v) > 0 ==>
      exists e :: 0 <= e < |edges| && edges[e].source == v && edges[e].target in m &&
        m[edges[e].target] == MaxSuccessorPriority(edges, m, v)
  {
    MaxOverPrefixIsMax(edges, m, v, |edges|);
  }

  lemma {:induction false} MaxOverPrefixStable(edges: seq<Edge>, m: map<nat, nat>, m': map<nat, nat>, v: nat, i: nat)
    requires i <= |edges|
    requires AllSuccessorsAssigned(edges, m, v) && Extends(m, m')
    ensures MaxOverPrefix(edges, m', v, i) == MaxOverPrefix(edges, m, v, i)
  {
    if i > 0 {
      MaxOverPrefixStable(edges, m, m', v, i - 1);
    }
  }

  predicate AllSuccessorsAssigned(edges: seq<Edge>, m: map<nat, nat>, v: nat)
  {
    forall e :: 0 <= e < |edges| && edges[e].source == v ==> edges[e].target in m
  }

  /** The map only grows, and keeps the values it had. */
  ghost predicate Extends(m: map<nat, nat>, m': map<nat, nat>)
  {
    forall k :: k in m ==> k in m' && m'[k] == m[k]
  }

  ghost predicate KeysBelow(m: map<nat, nat>, n: nat)
  {
    forall k :: k in m ==> k < n
  }

  /**
   * Every assigned node has all its successors assigned and has priority 1 + their maximum
   * (1 for a sink).
   */
  ghost predicate Consistent(edges: seq<Edge>, m: map<nat, nat>)
  {
    forall k :: k in m ==> AllSuccessorsAssigned(edges, m, k) && m[k] == 1 + MaxSuccessorPriority(edges, m, k)
  }

  /**
   * A node the pass has nothing more to do for: assigned, a sink (the loop in `new` starts
   * those), or waiting for an unassigned successor.
   */
  ghost predicate Settled(edges: seq<Edge>, m: map<nat, nat>, p: nat)
  {
    p in m || !HasSuccessor(edges, p) ||
    exists e :: 0 <= e < |edges| && edges[e].source == p && edges[e].target !in m
  }

  lemma ConsistentAfterAssign(edges: seq<Edge>, m: map<nat, nat>, x: nat)
    requires Consistent(edges, m) && x !in m && AllSuccessorsAssigned(edges, m, x)
    ensures Consistent(edges, m[x := 1 + MaxSuccessorPriority(edges, m, x)])
  {
    var m' := m[x := 1 + MaxSuccessorPriority(edges, m, x)];
    forall k | k in m'
      ensures AllSuccessorsAssigned(edges, m', k) && m'[k] == 1 + MaxSuccessorPriority(edges, m', k)
    {
      MaxOverPrefixStable(edges, m, m', k, |edges|);
    }
  }

  /** Assigning x can only unsettle predecessors of x. */
  lemma SettledAfterAssign(edges: seq<Edge>, m: map<nat, nat>, x: nat, v: nat)
    ensures forall p :: Settled(edges, m, p) ==> Settled(edges, m[x := v], p) || p in IncomingSources(edges, x)
  {
    forall p | Settled(edges, m, p) && !Settled(edges, m[x := v], p)
      ensures p in IncomingSources(edges, x)
    {
      var e :| 0 <= e < |edges| && edges[e].source == p && edges[e].target !in m;
      assert edges[e].target == x;
    }
  }

  /**
   * `insert_predecessors_recursively`: assign x once all its successors are assigned, then
   * visit its predecessors. The map only grows, stays consistent, x ends settled and nothing
   * settled before becomes unsettled.
   */
  method InsertPredecessorsRecursively(edges: seq<Edge>, n: nat, m: map<nat, nat>, x: nat)
    returns (m': map<nat, nat>)
    requires EdgesWithin(edges, n) && x < n && KeysBelow(m, n) && Consistent(edges, m)
    ensures KeysBelow(m', n) && Consistent(edges, m') && Extends(m, m')
    ensures Settled(edges, m', x)
    ensures AllSuccessorsAssigned(edges, m, x) ==> x in m'
    ensures forall p :: Settled(edges, m, p) ==> Settled(edges, m', p)
    decreases set k | 0 <= k < n && k !in m
  {
    if x in m {
      return m;
    }
    if !AllSuccessorsAssigned(edges, m, x) {
      return m;
    }
    var maxSuccessorsDepth := MaxSuccessorPriority(edges, m, x);
    ConsistentAfterAssign(edges, m, x);
    SettledAfterAssign(edges, m, x, maxSuccessorsDepth + 1);
    m' := m[x := maxSuccessorsDepth + 1];
    var predecessors := IncomingSources(edges, x);
    ghost var grown := m';
    for i := 0 to |predecessors|
      invariant KeysBelow(m', n) && Consistent(edges, m') && Extends(grown, m')
      invariant forall p :: Settled(edges, m, p) ==> Settled(edges, m', p) || p in predecessors[i..]
    {
      var p := predecessors[i];
      assert p < n by {
        assert IncomingEdges(edges, x)[i] in edges;
      }
      ghost var before := m';
      UnassignedShrinks(n, m, grown, before, x);
      m' := InsertPredecessorsRecursively(edges, n, m', p);
      SettledCarry(edges, m, before, m', predecessors, i);
      ExtendsTransitive(grown, before, m');
    }
    ExtendsTransitive(m, grown, m');
  }

  lemma ExtendsTransitive(a: map<nat, nat>, b: map<nat, nat>, c: map<nat, nat>)
    requires Extends(a, b) && Extends(b, c)
    ensures Extends(a, c)
  {
  }

  /** Assigning x and then growing the map strictly shrinks the set of unassigned nodes below n. */
  lemma UnassignedShrinks(n: nat, m: map<nat, nat>, grown: map<nat, nat>, now: map<nat, nat>, x: nat)
    requires x < n && x !in m && x in grown && Extends(m, grown) && Extends(grown, now)
    ensures (set k | 0 <= k < n && k !in now) < (set k | 0 <= k < n && k !in m)
  {
    var later, earlier := set k | 0 <= k < n && k !in now, set k | 0 <= k < n && k !in m;
    assert forall k :: k in later ==> k in earlier;
    assert x in earlier && x !in later;
  }

  /** Settling the i-th predecessor, and keeping everything else settled, moves the loop on by one. */
  lemma SettledCarry(edges: seq<Edge>, m: map<nat, nat>, before: map<nat, nat>, after: map<nat, nat>,
                     predecessors: seq<nat>, i: nat)
    requires i < |predecessors|
    requires forall p :: Settled(edges, m, p) ==> Settled(edges, before, p) || p in predecessors[i..]
    requires forall p :: Settled(edges, before, p) ==> Settled(edges, after, p)
    requires Settled(edges, after, predecessors[i])
    ensures forall p :: Settled(edges, m, p) ==> Settled(edges, after, p) || p in predecessors[i + 1..]
  {
    forall q | Settled(edges, m, q)
      ensures Settled(edges, after, q) || q in predecessors[i + 1..]
    {
      if q in predecessors[i..] && q != predecessors[i] {
        var j :| i <= j < |predecessors| && predecessors[j] == q;
        assert predecessors[i + 1..][j - i - 1] == q;
      }
    }
  }

  /**
   * After the pass over all sinks every node is settled; the nodes left out are exactly
   * those that reach a cycle, so every node gets a priority iff the graph is acyclic.
   */
  lemma AllAssignedIffAcyclic(edges: seq<Edge>, n: nat, m: map<nat, nat>)
    requires EdgesWithin(edges, n) && KeysBelow(m, n) && Consistent(edges, m)
    requires forall p :: Settled(edges, m, p)
    requires forall s :: 0 <= s < n && !HasSuccessor(edges, s) ==> s in m
    ensures (forall v :: 0 <= v < n ==> v in m) <==> Acyclic(edges, n)
  {
    if forall v :: 0 <= v < n ==> v in m {
      PrioritiesRank(edges, n, m);
    } else if Acyclic(edges, n) {
      var rank :| IsRanking(edges, n, rank);
      var v :| 0 <= v < n && v !in m;
      UnassignedDescends(edges, n, m, rank, v);
    }
  }

  /** An unassigned node always has an unassigned successor of smaller rank: impossible forever. */
  lemma {:induction false} UnassignedDescends(edges: seq<Edge>, n: nat, m: map<nat, nat>, rank: seq<nat>, v: nat)
    requires IsRanking(edges, n, rank) && v < n && v !in m
    requires forall p :: Settled(edges, m, p)
    requires forall s :: 0 <= s < n && !HasSuccessor(edges, s) ==> s in m
    ensures false
    decreases rank[v]
  {
    assert Settled(edges, m, v);
    var e :| 0 <= e < |edges| && edges[e].source == v && edges[e].target !in m;
    UnassignedDescends(edges, n, m, rank, edges[e].target);
  }

  /** A consistent assignment of every node is a ranking: priorities strictly decrease along edges. */
  lemma PrioritiesRank(edges: seq<Edge>, n: nat, m: map<nat, nat>)
    requires EdgesWithin(edges, n) && Consistent(edges, m)
    requires forall v :: 0 <= v < n ==> v in m
    ensures IsRanking(edges, n, seq(n, v requires 0 <= v < n => m[v]))
    ensures Acyclic(edges, n)
  {
    var rank := seq(n, v requires 0 <= v < n => m[v]);
    forall e | 0 <= e < |edges|
      ensures rank[edges[e].source] > rank[edges[e].target]
    {
      MaxSuccessorPriorityIsMax(edges, m, edges[e].source);
    }
    assert IsRanking(edges, n, rank);
  }

  /** Sinks get priority 1, not 0. */
  lemma SinkPriorityIsOne(edges: seq<Edge>, m: map<nat, nat>, v: nat)
    requires Consistent(edges, m) && v in m && !HasSuccessor(edges, v)
    ensures m[v] == 1
  {
    MaxSuccessorPriorityIsMax(edges, m, v);
  }

  /**
   * Every other node gets 1 + the largest priority among its successors: above each of them
   * and exactly one above one of them.
   */
  lemma PriorityIsOnePlusMaxOfSuccessors(edges: seq<Edge>, m: map<nat, nat>, v: nat)
    requires Consistent(edges, m) && v in m && HasSuccessor(edges, v)
    ensures forall e :: 0 <= e < |edges| && edges[e].source == v ==> edges[e].target in m && m[v] > m[edges[e].target]
    ensures exists e :: 0 <= e < |edges| && edges[e].source == v && m[v] == 1 + m[edges[e].target]
  {
    MaxSuccessorPriorityIsMax(edges, m, v);
    var e0 :| 0 <= e0 < |edges| && edges[e0].source == v;
    assert m[edges[e0].target] >= 1;
  }

  // ----------------------------------------------------------------------------------------
  // Node states
  // ----------------------------------------------------------------------------------------

  /** `node_weights().filter(|n| !matches!(n, Node::Computed(_))).count()`. */
  function CountNotComputed(ns: seq<Node>): (r: nat)
    ensures r <= |ns|
    ensures ns != [] && !ns[|ns| - 1].Computed? ==> r >= 1
  {
    if ns == [] then 0
    else CountNotComputed(ns[..|ns| - 1]) + (if ns[|ns| - 1].Computed? then 0 else 1)
  }

  lemma {:induction false} CountNotComputedZero(ns: seq<Node>)
    ensures CountNotComputed(ns) == 0 <==> forall i :: 0 <= i < |ns| ==> ns[i].Computed?
  {
    if ns != [] {
      CountNotComputedZero(ns[..|ns| - 1]);
    }
  }

  /** Only whether each node is computed matters to the count. */
  lemma {:induction false} CountNotComputedSameShape(ns: seq<Node>, ns': seq<Node>)
    requires |ns| == |ns'| && forall i :: 0 <= i < |ns| ==> (ns[i].Computed? <==> ns'[i].Computed?)
    ensures CountNotComputed(ns) == CountNotComputed(ns')
  {
    if ns != [] {
      CountNotComputedSameShape(ns[..|ns| - 1], ns'[..|ns'| - 1]);
    }
  }

  /** Computing one node that was not computed lowers the count by exactly one. */
  lemma {:induction false} CountNotComputedAfterCompute(ns: seq<Node>, i: nat, ct: Ciphertext)
    requires i < |ns| && !ns[i].Computed?
    ensures CountNotComputed(ns[i := Computed(ct)]) + 1 == CountNotComputed(ns)
  {
    var last := |ns| - 1;
    if i < last {
      assert ns[i := Computed(ct)][..last] == ns[..last][i := Computed(ct)];
      CountNotComputedAfterCompute(ns[..last], i, ct);
    } else {
      assert ns[i := Computed(ct)][..last] == ns[..last];
    }
  }

  /** `neighbors_directed(v, Incoming).all(|p| matches!(graph[p], Node::Computed(_)))`. */
  predicate AllPredecessorsComputed(ns: seq<Node>, edges: seq<Edge>, v: nat)
    requires EdgesWithin(edges, |ns|)
  {
    forall x :: x in IncomingEdges(edges, v) ==> ns[x.source].Computed?
  }

  /** The `(weight, ciphertext)` pairs of the given incoming edges; None if a source is not computed. */
  function CollectPredecessors(ns: seq<Node>, incoming: seq<Edge>): (r: Option<seq<WeightedCt>>)
    requires forall x :: x in incoming ==> x.source < |ns|
    ensures r.Some? <==> forall x :: x in incoming ==> ns[x.source].Computed?
    ensures r.Some? ==> |r.value| == |incoming|
    ensures r.Some? ==>
      forall i :: 0 <= i < |incoming| ==> r.value[i] == WeightedCt(incoming[i].weight, ns[incoming[i].source].ct)
  {
    if incoming == [] then Some([])
    else
      match ns[incoming[0].source].Ct()
      case None => None
      case Some(ct) =>
        match CollectPredecessors(ns, incoming[1..])
        case None => None
        case Some(rest) => Some([WeightedCt(incoming[0].weight, ct)] + rest)
  }

  /** Changing nodes that are not computed sources leaves the collected pairs unchanged. */
  lemma CollectPredecessorsStable(ns: seq<Node>, ns': seq<Node>, incoming: seq<Edge>)
    requires |ns| == |ns'| && forall x :: x in incoming ==> x.source < |ns|
    requires forall x :: x in incoming && ns[x.source].Computed? ==> ns'[x.source] == ns[x.source]
    requires forall x :: x in incoming && !ns[x.source].Computed? ==> !ns'[x.source].Computed?
    ensures CollectPredecessors(ns', incoming) == CollectPredecessors(ns, incoming)
  {
    var r, r' := CollectPredecessors(ns, incoming), CollectPredecessors(ns', incoming);
    if r.Some? && r'.Some? {
      assert r.value == r'.value;
    }
  }

  /** The task `build_task` makes for a ready node. */
  function TaskFor(ns: seq<Node>, edges: seq<Edge>, v: nat): (t: IndexedCtsAndLut)
    requires EdgesWithin(edges, |ns|) && v < |ns| && ns[v].ToCompute? && AllPredecessorsComputed(ns, edges, v)
    ensures t.index == v && t.lut == ns[v].lookupTable
    ensures |t.ctsAndWeights| == |IncomingEdges(edges, v)|
  {
    IndexedCtsAndLut(v, CollectPredecessors(ns, IncomingEdges(edges, v)).value, ns[v].lookupTable)
  }

  /** The node indices below n that `init` selects, ascending: to compute, every predecessor computed. */
  function ReadyNodes(ns: seq<Node>, edges: seq<Edge>, n: nat): (r: seq<nat>)
    requires EdgesWithin(edges, |ns|) && n <= |ns|
    ensures forall i :: 0 <= i < |r| ==> r[i] < n && ns[r[i]].ToCompute? && AllPredecessorsComputed(ns, edges, r[i])
    ensures forall v :: 0 <= v < n && ns[v].ToCompute? && AllPredecessorsComputed(ns, edges, v) ==> v in r
    ensures forall i, j :: 0 <= i < j < |r| ==> r[i] < r[j]
  {
    if n == 0 then []
    else
      var v := n - 1;
      ReadyNodes(ns, edges, v) + (if ns[v].ToCompute? && AllPredecessorsComputed(ns, edges, v) then [v] else [])
  }

  /** The nodes `init` selects are distinct and each of them is ready. */
  lemma ReadyNodesDistinctAndReady(ns: seq<Node>, edges: seq<Edge>)
    requires EdgesWithin(edges, |ns|)
    ensures Distinct(ReadyNodes(ns, edges, |ns|)) && ReadyFor(ns, edges, ReadyNodes(ns, edges, |ns|))
  {
    var r := ReadyNodes(ns, edges, |ns|);
    forall v | v in r
      ensures ReadyNode(ns, edges, v)
    {
    }
  }

  /** The candidates, in order and with repetitions, whose predecessors are all computed. */
  function ReadyAmong(ns: seq<Node>, edges: seq<Edge>, candidates: seq<nat>): (r: seq<nat>)
    requires EdgesWithin(edges, |ns|)
  {
    if candidates == [] then []
    else
      var c := candidates[|candidates| - 1];
      ReadyAmong(ns, edges, candidates[..|candidates| - 1]) + (if AllPredecessorsComputed(ns, edges, c) then [c] else [])
  }

  /**
   * The filter of `commit_result` over the successors: None where a successor is not to
   * compute (the `assert!` fails), otherwise those whose predecessors are all computed.
   */
  function FilterSuccessors(ns: seq<Node>, edges: seq<Edge>, candidates: seq<nat>): (r: Option<seq<nat>>)
    requires EdgesWithin(edges, |ns|)
    ensures r.None? <==> exists c :: c in candidates && !IsToCompute(ns, c)
    ensures r.Some? ==> r.value == ReadyAmong(ns, edges, candidates)
  {
    if candidates == [] then Some([])
    else
      var c := candidates[|candidates| - 1];
      var prefix := candidates[..|candidates| - 1];
      assert candidates == prefix + [c];
      if !IsToCompute(ns, c) then None
      else
        match FilterSuccessors(ns, edges, prefix)
        case None => None
        case Some(ready) => Some(ready + (if AllPredecessorsComputed(ns, edges, c) then [c] else []))
  }

  /** The filter keeps exactly the candidates whose predecessors are all computed. */
  lemma {:induction false} ReadyAmongMembers(ns: seq<Node>, edges: seq<Edge>, candidates: seq<nat>)
    requires EdgesWithin(edges, |ns|)
    ensures forall c :: c in ReadyAmong(ns, edges, candidates) <==> c in candidates && AllPredecessorsComputed(ns, edges, c)
  {
    if candidates != [] {
      var prefix := candidates[..|candidates| - 1];
      ReadyAmongMembers(ns, edges, prefix);
      assert candidates == prefix + [candidates[|candidates| - 1]];
    }
  }

  predicate Distinct(s: seq<nat>)
  {
    forall i, j :: 0 <= i < j < |s| ==> s[i] != s[j]
  }

  /** The nodes in `queued` set to `BootsrapQueued`, all others unchanged. */
  function MarkQueued(ns: seq<Node>, queued: seq<nat>): (r: seq<Node>)
    ensures |r| == |ns|
  {
    seq(|ns|, i requires 0 <= i < |ns| => if i in queued then BootsrapQueued else ns[i])
  }

  /** What `init` checks besides acyclicity: sources computed, every other node to compute. */
  ghost predicate InitConditions(ns: seq<Node>, edges: seq<Edge>)
  {
    forall v :: 0 <= v < |ns| ==> if IsSource(edges, v) then ns[v].Computed? else ns[v].ToCompute?
  }

  /** What `assert_finishable` checks besides acyclicity: sources computed. */
  ghost predicate FinishableConditions(ns: seq<Node>, edges: seq<Edge>)
  {
    forall v :: 0 <= v < |ns| && IsSource(edges, v) ==> ns[v].Computed?
  }

  /** The state right after `commit_result` stores the ciphertext of node x. */
  function CommittedNodes(ns: seq<Node>, result: IndexedCt): seq<Node>
    requires result.index < |ns|
  {
    ns[result.index := Computed(result.ct)]
  }

  /**
   * When `commit_result` panics: the counter is 0, the index names no node, the node is not
   * queued, one of its successors is not to compute, or a successor reached twice (parallel
   * edges) is built twice and hits `unreachable!`.
   */
  ghost predicate CommitFails(ns: seq<Node>, edges: seq<Edge>, count: nat, result: IndexedCt)
    requires EdgesWithin(edges, |ns|)
  {
    count == 0 || result.index >= |ns| || !ns[result.index].BootsrapQueued? ||
    (var committed := CommittedNodes(ns, result);
     var successors := OutgoingTargets(edges, result.index);
     (exists t :: t in successors && !IsToCompute(committed, t)) ||
     !Distinct(ReadyAmong(committed, edges, successors)))
  }

  // ----------------------------------------------------------------------------------------
  // FheGraph
  // ----------------------------------------------------------------------------------------

  class FheGraph {
    const nodes: array<Node>
    const edges: seq<Edge>
    const priorities: map<nat, nat>
    var notComputedNodesCount: nat

    /**
     * Every node has a priority consistent with its successors (so the graph is acyclic),
     * and the counter is the number of nodes not computed.
     */
    ghost predicate Valid()
      reads this, nodes
    {
      EdgesWithin(edges, nodes.Length) &&
      (forall v :: 0 <= v < nodes.Length ==> v in priorities) &&
      KeysBelow(priorities, nodes.Length) && Consistent(edges, priorities) &&
      notComputedNodesCount == CountNotComputed(nodes[..])
    }

    constructor FromParts(g: Graph, priorities: map<nat, nat>)
      requires EdgesWithin(g.edges, |g.nodes|) && KeysBelow(priorities, |g.nodes|)
      requires Consistent(g.edges, priorities) && forall v :: 0 <= v < |g.nodes| ==> v in priorities
      ensures Valid() && fresh(nodes) && nodes[..] == g.nodes && edges == g.edges && this.priorities == priorities
    {
      var a := new Node[|g.nodes|](i requires 0 <= i < |g.nodes| => g.nodes[i]);
      assert a[..] == g.nodes;
      nodes := a;
      edges := g.edges;
      this.priorities := priorities;
      notComputedNodesCount := CountNotComputed(g.nodes);
    }

    /**
     * `FheGraph::new`: count the nodes not computed, run the priority pass from every sink,
     * and attach each node's priority; the lookup of a node without one panics, which
     * happens exactly when the graph has a cycle.
     */
    static method New(g: Graph) returns (r: Result<FheGraph, GraphError>)
      requires EdgesWithin(g.edges, |g.nodes|)
      ensures r.Err? <==> !Acyclic(g.edges, |g.nodes|)
      ensures r.Ok? ==> fresh(r.value) && fresh(r.value.nodes) && r.value.Valid()
      ensures r.Ok? ==> r.value.nodes[..] == g.nodes && r.value.edges == g.edges
    {
      var n := |g.nodes|;
      var successorsMaxDepth: map<nat, nat> := map[];
      for v := 0 to n
        invariant KeysBelow(successorsMaxDepth, n) && Consistent(g.edges, successorsMaxDepth)
        invariant forall p :: Settled(g.edges, successorsMaxDepth, p)
        invariant forall s :: 0 <= s < v && !HasSuccessor(g.edges, s) ==> s in successorsMaxDepth
      {
        if !HasSuccessor(g.edges, v) {
          successorsMaxDepth := InsertPredecessorsRecursively(g.edges, n, successorsMaxDepth, v);
        }
      }
      AllAssignedIffAcyclic(g.edges, n, successorsMaxDepth);
      for v := 0 to n
        invariant forall u :: 0 <= u < v ==> u in successorsMaxDepth
      {
        if v !in successorsMaxDepth {
          return Err(MissingPriority);
        }
      }
      var graph := new FheGraph.FromParts(g, successorsMaxDepth);
      return Ok(graph);
    }

    /** The priorities rank the nodes, so a valid graph is acyclic. */
    lemma ValidIsAcyclic()
      requires Valid()
      ensures Acyclic(edges, nodes.Length)
    {
      PrioritiesRank(edges, nodes.Length, priorities);
    }

    /**
     * `test_graph_init`: passes iff the graph is acyclic, every source is computed and every
     * other node is to compute.
     */
    method TestGraphInit() returns (ok: bool)
      requires Valid()
      ensures ok <==> Acyclic(edges, nodes.Length) && InitConditions(nodes[..], edges)
    {
      ValidIsAcyclic();
      for i := 0 to nodes.Length
        invariant forall v :: 0 <= v < i ==> if IsSource(edges, v) then nodes[v].Computed? else nodes[v].ToCompute?
      {
        if IsSource(edges, i) {
          if !nodes[i].Computed? {
            return false;
          }
        } else {
          if !nodes[i].ToCompute? {
            return false;
          }
        }
      }
      return true;
    }

    /** `assert_finishable`: passes iff the graph is acyclic and every source is computed. */
    method AssertFinishable() returns (ok: bool)
      requires Valid()
      ensures ok <==> Acyclic(edges, nodes.Length) && FinishableConditions(nodes[..], edges)
    {
      ValidIsAcyclic();
      for i := 0 to nodes.Length
        invariant forall v :: 0 <= v < i && IsSource(edges, v) ==> nodes[v].Computed?
      {
        if IsSource(edges, i) && !nodes[i].Computed? {
          return false;
        }
      }
      return true;
    }

    /**
     * `predecessors_list`: one `(weight, ciphertext)` pair per incoming edge, newest edge
     * first; None where the source panics on a predecessor that is not computed.
     */
    function PredecessorsList(v: nat): (r: Option<seq<WeightedCt>>)
      reads this, nodes
      requires Valid()
      ensures r.Some? <==> AllPredecessorsComputed(nodes[..], edges, v)
      ensures r.Some? ==> |r.value| == |IncomingEdges(edges, v)|
      ensures r.Some? ==>
        forall i :: 0 <= i < |r.value| ==>
          r.value[i] == WeightedCt(IncomingEdges(edges, v)[i].weight, nodes[IncomingEdges(edges, v)[i].source].ct)
    {
      CollectPredecessors(nodes[..], IncomingEdges(edges, v))
    }

    /**
     * `build_task`: snapshot the predecessors, take the node's table (`unreachable!` unless
     * it is to compute), mark it queued, and tag the task `Priority(0)`.
     */
    method BuildTask(v: nat) returns (r: Result<PrioritizedTask, GraphError>)
      requires Valid() && v < nodes.Length
      modifies nodes
      ensures Valid()
      ensures r.Err? <==> !AllPredecessorsComputed(old(nodes[..]), edges, v) || !old(nodes[v]).ToCompute?
      ensures r.Err? ==> unchanged(nodes)
      ensures r.Ok? ==> nodes[..] == old(nodes[..])[v := BootsrapQueued]
      ensures r.Ok? ==> r.value == PrioritizedTask(0, TaskFor(old(nodes[..]), edges, v))
    {
      var ctsAndWeights := PredecessorsList(v);
      if ctsAndWeights.None? {
        return Err(PredecessorNotComputed);
      }
      if !nodes[v].ToCompute? {
        return Err(Unreachable);
      }
      var lut := nodes[v].lookupTable;
      ghost var before := nodes[..];
      nodes[v] := BootsrapQueued;
      CountNotComputedSameShape(before, nodes[..]);
      return Ok(PrioritizedTask(0, IndexedCtsAndLut(v, ctsAndWeights.value, lut)));
    }

    /**
     * `init`: after `test_graph_init`, build a task for every node that is to compute and
     * has all its predecessors computed, in index order.
     */
    method Init() returns (r: Result<seq<PrioritizedTask>, GraphError>)
      requires Valid()
      modifies nodes
      ensures Valid()
      ensures r.Err? <==> !InitConditions(old(nodes[..]), edges)
      ensures r.Err? ==> unchanged(nodes)
      ensures r.Ok? ==> nodes[..] == MarkQueued(old(nodes[..]), ReadyNodes(old(nodes[..]), edges, nodes.Length))
      ensures r.Ok? ==> r.value == TasksFor(old(nodes[..]), edges, ReadyNodes(old(nodes[..]), edges, nodes.Length))
    {
      var ok := TestGraphInit();
      ValidIsAcyclic();
      if !ok {
        return Err(InitCheckFailed);
      }
      var nodesToCompute := NodesToCompute();
      var tasks := BuildTasks(nodesToCompute);
      return Ok(tasks);
    }

    /** The filter of `init`: the nodes to compute whose predecessors are all computed, ascending. */
    method NodesToCompute() returns (ready: seq<nat>)
      requires Valid()
      ensures ready == ReadyNodes(nodes[..], edges, nodes.Length)
      ensures Distinct(ready) && ReadyFor(nodes[..], edges, ready)
    {
      ghost var ns := nodes[..];
      ready := [];
      for i := 0 to nodes.Length
        invariant ready == ReadyNodes(ns, edges, i)
      {
        if nodes[i].ToCompute? && AllPredecessorsComputed(nodes[..], edges, i) {
          ready := ready + [i];
        }
      }
      ReadyNodesDistinctAndReady(ns, edges);
    }

    /**
     * The `map(|index| self.build_task(index))` of `init`, over distinct ready nodes: none of
     * the calls fails.
     */
    method BuildTasks(ready: seq<nat>) returns (tasks: seq<PrioritizedTask>)
      requires Valid() && Distinct(ready) && ReadyFor(nodes[..], edges, ready)
      modifies nodes
      ensures Valid()
      ensures nodes[..] == MarkQueued(old(nodes[..]), ready)
      ensures tasks == TasksFor(old(nodes[..]), edges, ready)
    {
      var r := BuildTasksUntilRepeat(ready);
      if r.Err? {
        assert false;
      }
      tasks := r.value;
    }

    /**
     * `commit_result`: decrement the counter, store the ciphertext of the queued node, check
     * that every successor is to compute, and build tasks for the successors whose
     * predecessors are now all computed.
     */
    method CommitResult(result: IndexedCt) returns (r: Result<seq<PrioritizedTask>, GraphError>)
      requires Valid()
      modifies this, nodes
      ensures r.Err? <==> CommitFails(old(nodes[..]), edges, old(notComputedNodesCount), result)
      ensures r.Ok? ==> Valid() && notComputedNodesCount == old(notComputedNodesCount) - 1
      ensures r.Ok? ==> result.index < nodes.Length
      ensures r.Ok? ==> CommittedSuccessorsReady(old(nodes[..]), edges, result)
      ensures r.Ok? ==> nodes[..] == MarkQueued(CommittedNodes(old(nodes[..]), result), ReadySuccessors(old(nodes[..]), edges, result))
      ensures r.Ok? ==> ReadyFor(CommittedNodes(old(nodes[..]), result), edges, ReadySuccessors(old(nodes[..]), edges, result))
      ensures r.Ok? ==> r.value == TasksFor(CommittedNodes(old(nodes[..]), result), edges, ReadySuccessors(old(nodes[..]), edges, result))
    {
      if notComputedNodesCount == 0 {
        return Err(CounterUnderflow);
      }
      notComputedNodesCount := notComputedNodesCount - 1;
      var index := result.index;
      if index >= nodes.Length {
        return Err(NoSuchNode);
      }
      if !nodes[index].BootsrapQueued? {
        return Err(NotQueued);
      }
      ghost var before := nodes[..];
      nodes[index] := Computed(result.ct);
      CountNotComputedAfterCompute(before, index, result.ct);
      assert nodes[..] == CommittedNodes(before, result);
      var filtered := FilterSuccessors(nodes[..], edges, OutgoingTargets(edges, index));
      if filtered.None? {
        return Err(SuccessorNotToCompute);
      }
      ReadyAmongMembers(nodes[..], edges, OutgoingTargets(edges, index));
      OutgoingTargetsWithin(edges, nodes.Length, index);
      var tasks := BuildTasksUntilRepeat(filtered.value);
      if tasks.Err? {
        return Err(Unreachable);
      }
      return Ok(tasks.value);
    }

    /**
     * The `build_task` calls of `commit_result`: every node to compute is built once; a node
     * listed twice is no longer to compute the second time and the call hits `unreachable!`.
     */
    method BuildTasksUntilRepeat(ready: seq<nat>) returns (r: Result<seq<PrioritizedTask>, GraphError>)
      requires Valid() && ReadyFor(nodes[..], edges, ready)
      modifies nodes
      ensures Valid()
      ensures r.Err? <==> !Distinct(ready)
      ensures r.Ok? ==> nodes[..] == MarkQueued(old(nodes[..]), ready)
      ensures r.Ok? ==> r.value == TasksFor(old(nodes[..]), edges, ready)
    {
      ghost var start := nodes[..];
      var tasks: seq<PrioritizedTask> := [];
      for t := 0 to |ready|
        invariant Valid() && Distinct(ready[..t])
        invariant nodes[..] == MarkQueued(start, ready[..t])
        invariant ReadyFor(start, edges, ready[..t]) && tasks == TasksFor(start, edges, ready[..t])
      {
        var built := BuildNext(start, ready, t, tasks);
        if built.Err? {
          return Err(built.error);
        }
        tasks := built.value;
      }
      assert ready[..|ready|] == ready;
      return Ok(tasks);
    }

    /**
     * One iteration of the `build_task` loop: build the next listed node and append its task,
     * or find it built already.
     */
    method BuildNext(ghost start: seq<Node>, ready: seq<nat>, t: nat, tasks: seq<PrioritizedTask>)
      returns (r: Result<seq<PrioritizedTask>, GraphError>)
      requires Valid() && t < |ready| && ReadyFor(start, edges, ready) && Distinct(ready[..t])
      requires ReadyFor(start, edges, ready[..t]) && tasks == TasksFor(start, edges, ready[..t])
      requires nodes[..] == MarkQueued(start, ready[..t])
      modifies nodes
      ensures Valid()
      ensures r.Err? ==> !Distinct(ready)
      ensures r.Ok? ==> Distinct(ready[..t + 1]) && nodes[..] == MarkQueued(start, ready[..t + 1])
      ensures r.Ok? ==> ReadyFor(start, edges, ready[..t + 1]) && r.value == TasksFor(start, edges, ready[..t + 1])
    {
      var v := ready[t];
      assert ready[..t + 1] == ready[..t] + [v];
      assert v in ready;
      MarkQueuedKeepsPredecessors(start, edges, ready[..t], v);
      var built := BuildTask(v);
      if built.Err? {
        RepeatIsNotDistinct(ready, t);
        return Err(built.error);
      }
      MarkQueuedAppend(start, ready[..t], v);
      DistinctAppend(ready[..t], v);
      TasksForAppend(start, edges, ready[..t], v);
      r := Ok(tasks + [built.value]);
    }

    /** `is_finished`: the counter is zero, that is, every node is computed. */
    function IsFinished(): (r: bool)
      reads this, nodes
      requires Valid()
      ensures r <==> forall v :: 0 <= v < nodes.Length ==> nodes[v].Computed?
    {
      CountNotComputedZero(nodes[..]);
      notComputedNodesCount == 0
    }
  }

  lemma ReadyAmongStep(ns: seq<Node>, edges: seq<Edge>, candidates: seq<nat>, i: nat)
    requires EdgesWithin(edges, |ns|) && i < |candidates|
    ensures ReadyAmong(ns, edges, candidates[..i + 1]) == ReadyAmong(ns, edges, candidates[..i]) +
      (if AllPredecessorsComputed(ns, edges, candidates[i]) then [candidates[i]] else [])
  {
    assert candidates[..i + 1][..i] == candidates[..i];
  }

  predicate IsToCompute(ns: seq<Node>, v: nat)
  {
    v < |ns| && ns[v].ToCompute?
  }

  /** A node of ns that is to compute and has all its predecessors computed. */
  predicate ReadyNode(ns: seq<Node>, edges: seq<Edge>, v: nat)
  {
    EdgesWithin(edges, |ns|) && v < |ns| && ns[v].ToCompute? && AllPredecessorsComputed(ns, edges, v)
  }

  /** Every listed node is ready. */
  predicate ReadyFor(ns: seq<Node>, edges: seq<Edge>, ready: seq<nat>)
  {
    EdgesWithin(edges, |ns|) && forall v :: v in ready ==> ReadyNode(ns, edges, v)
  }

  lemma ReadyForPrefix(ns: seq<Node>, edges: seq<Edge>, ready: seq<nat>, t: nat)
    requires ReadyFor(ns, edges, ready) && t <= |ready|
    ensures ReadyFor(ns, edges, ready[..t])
  {
    assert forall v :: v in ready[..t] ==> v in ready;
  }

  /** The tasks `build_task` makes for the listed ready nodes, in order. */
  function TasksFor(ns: seq<Node>, edges: seq<Edge>, ready: seq<nat>): (r: seq<PrioritizedTask>)
    requires ReadyFor(ns, edges, ready)
    ensures |r| == |ready|
    ensures forall i :: 0 <= i < |ready| ==> r[i].priority == 0 && r[i].task.index == ready[i]
  {
    if ready == [] then []
    else
      var last := ready[|ready| - 1];
      assert last in ready;
      ReadyForPrefix(ns, edges, ready, |ready| - 1);
      TasksFor(ns, edges, ready[..|ready| - 1]) + [PrioritizedTask(0, TaskFor(ns, edges, last))]
  }

  /** Task i of `TasksFor` is the `build_task` task of the i-th listed node, at `Priority(0)`. */
  lemma {:induction false} TasksForAt(ns: seq<Node>, edges: seq<Edge>, ready: seq<nat>, i: nat)
    requires ReadyFor(ns, edges, ready) && i < |ready|
    ensures ReadyNode(ns, edges, ready[i])
    ensures TasksFor(ns, edges, ready)[i] == PrioritizedTask(0, TaskFor(ns, edges, ready[i]))
    decreases |ready|
  {
    assert ready[i] in ready;
    if i < |ready| - 1 {
      ReadyForPrefix(ns, edges, ready, |ready| - 1);
      TasksForAt(ns, edges, ready[..|ready| - 1], i);
    }
  }

  lemma TasksForAppend(ns: seq<Node>, edges: seq<Edge>, ready: seq<nat>, v: nat)
    requires ReadyFor(ns, edges, ready) && ReadyNode(ns, edges, v)
    ensures ReadyFor(ns, edges, ready + [v])
    ensures TasksFor(ns, edges, ready + [v]) == TasksFor(ns, edges, ready) + [PrioritizedTask(0, TaskFor(ns, edges, v))]
  {
    assert (ready + [v])[..|ready|] == ready;
  }

  /** Queuing one more node is setting it to `BootsrapQueued`. */
  lemma MarkQueuedAppend(ns: seq<Node>, done: seq<nat>, v: nat)
    requires v < |ns|
    ensures MarkQueued(ns, done)[v := BootsrapQueued] == MarkQueued(ns, done + [v])
  {
    assert forall i :: i in done + [v] <==> i in done || i == v;
  }

  lemma RepeatIsNotDistinct(s: seq<nat>, t: nat)
    requires t < |s| && s[t] in s[..t]
    ensures !Distinct(s)
  {
    var j :| 0 <= j < t && s[..t][j] == s[t];
  }

  lemma DistinctAppend(s: seq<nat>, v: nat)
    requires Distinct(s) && v !in s
    ensures Distinct(s + [v])
  {
  }

  /** The state after `commit_result` stores its ciphertext, and every successor there is to compute. */
  ghost predicate CommittedSuccessorsReady(ns: seq<Node>, edges: seq<Edge>, result: IndexedCt)
  {
    result.index < |ns| && EdgesWithin(edges, |ns|) &&
    forall t :: t in OutgoingTargets(edges, result.index) ==> CommittedNodes(ns, result)[t].ToCompute?
  }

  /** The successors `commit_result` builds tasks for, newest edge first. */
  function ReadySuccessors(ns: seq<Node>, edges: seq<Edge>, result: IndexedCt): (r: seq<nat>)
    requires result.index < |ns| && EdgesWithin(edges, |ns|)
  {
    ReadyAmong(CommittedNodes(ns, result), edges, OutgoingTargets(edges, result.index))
  }

  /**
   * Queuing the listed nodes, all to compute, changes no computed node, so a ready node v is
   * still ready and makes the same task unless it was listed.
   */
  lemma MarkQueuedKeepsPredecessors(start: seq<Node>, edges: seq<Edge>, done: seq<nat>, v: nat)
    requires ReadyFor(start, edges, done) && ReadyNode(start, edges, v)
    ensures var now := MarkQueued(start, done);
      AllPredecessorsComputed(now, edges, v) &&
      (v !in done ==> now[v].ToCompute? && TaskFor(now, edges, v) == TaskFor(start, edges, v)) &&
      (v in done ==> !now[v].ToCompute?)
  {
    var now := MarkQueued(start, done);
    forall i | 0 <= i < |start| && start[i].Computed?
      ensures now[i] == start[i]
    {
      assert i !in done;
    }
    if v !in done {
      CollectPredecessorsStable(start, now, IncomingEdges(edges, v));
    }
  }
}
