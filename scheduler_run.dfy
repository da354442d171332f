/**
 * A sequential run of the scheduler: build the graph, `init`, then take tasks one at a time,
 * evaluate them with `multisum` and `pbs`, and hand the result to `commit_result` until
 * `is_finished`. The master/worker loops that do this over MPI are not part of this model;
 * the run is a harness over the graph operations, processing tasks in FIFO order.
 */
module SchedulerRun {
  import opened Common
  import opened PbsTasks
  import opened AsyncPbsGraph

  /** No two edges leave v for the same node. */
  predicate SimpleOutgoing(edges: seq<Edge>, v: nat)
  {
    forall e, f :: 0 <= e < f < |edges| && edges[e].source == v && edges[f].source == v ==> edges[e].target != edges[f].target
  }

  /**
   * Parallel edges leave only sources. Sources start computed and are never committed, so their
   * outgoing edges never reach `commit_result`.
   */
  predicate ParallelEdgesOnlyFromSources(edges: seq<Edge>)
  {
    forall e, f :: 0 <= e < f < |edges| && edges[e].source == edges[f].source && edges[e].target == edges[f].target ==>
      IsSource(edges, edges[e].source)
  }

  /** Parallel edges leave only computed nodes, which are never committed again. */
  ghost predicate ParallelEdgesLeaveComputed(ns: seq<Node>, edges: seq<Edge>)
    requires EdgesWithin(edges, |ns|)
  {
    forall e, f :: 0 <= e < f < |edges| && edges[e].source == edges[f].source && edges[e].target == edges[f].target ==>
      ns[edges[e].source].Computed?
  }

  /** A node that is not computed has no parallel edges leaving it. */
  lemma NotComputedIsSimple(ns: seq<Node>, edges: seq<Edge>, u: nat)
    requires EdgesWithin(edges, |ns|) && ParallelEdgesLeaveComputed(ns, edges) && u < |ns| && !ns[u].Computed?
    ensures SimpleOutgoing(edges, u)
  {
  }

  /** Right after `init`, the sources are computed, so parallel edges leave only computed nodes. */
  lemma StartParallelEdgesLeaveComputed(ns: seq<Node>, edges: seq<Edge>, started: seq<Node>)
    requires EdgesWithin(edges, |ns|) && InitConditions(ns, edges) && ParallelEdgesOnlyFromSources(edges)
    requires started == MarkQueued(ns, ReadyNodes(ns, edges, |ns|))
    ensures |started| == |ns| && ParallelEdgesLeaveComputed(started, edges)
  {
    MarkQueuedKeepsComputed(ns, ReadyNodes(ns, edges, |ns|));
  }

  /** Computing one more node keeps parallel edges leaving only computed nodes. */
  lemma ParallelEdgesStayComputed(before: seq<Node>, after: seq<Node>, edges: seq<Edge>, u: nat)
    requires EdgesWithin(edges, |before|) && ParallelEdgesLeaveComputed(before, edges) && ComputesOnly(before, after, u)
    ensures EdgesWithin(edges, |after|) && ParallelEdgesLeaveComputed(after, edges)
  {
  }

  /** The nodes the pending tasks are for, in queue order. */
  function QueuedIndices(queue: seq<PrioritizedTask>): (r: seq<nat>)
    ensures |r| == |queue| && forall i :: 0 <= i < |queue| ==> r[i] == queue[i].task.index
  {
    seq(|queue|, i requires 0 <= i < |queue| => queue[i].task.index)
  }

  /** The pending tasks are for exactly the queued nodes, one task each. */
  ghost predicate QueueMatches(ns: seq<Node>, queue: seq<PrioritizedTask>)
  {
    Distinct(QueuedIndices(queue)) &&
    (forall v :: v in QueuedIndices(queue) ==> v < |ns| && ns[v].BootsrapQueued?) &&
    (forall v :: 0 <= v < |ns| && ns[v].BootsrapQueued? ==> v in QueuedIndices(queue))
  }

  /** Every pending task has at least one weighted ciphertext, so `multisum` cannot fail. */
  predicate TasksNonEmpty(queue: seq<PrioritizedTask>)
  {
    forall i :: 0 <= i < |queue| ==> |queue[i].task.ctsAndWeights| >= 1
  }

  /** The successors of a node not yet computed are still to compute. */
  ghost predicate SuccessorsWait(ns: seq<Node>, edges: seq<Edge>)
    requires EdgesWithin(edges, |ns|)
  {
    forall e :: 0 <= e < |edges| && !ns[edges[e].source].Computed? ==> ns[edges[e].target].ToCompute?
  }

  /** A node to compute is no source and still waits for a predecessor. */
  ghost predicate ToComputeWaits(ns: seq<Node>, edges: seq<Edge>)
    requires EdgesWithin(edges, |ns|)
  {
    forall v :: 0 <= v < |ns| && ns[v].ToCompute? ==> !IsSource(edges, v) && !AllPredecessorsComputed(ns, edges, v)
  }

  /** What holds between two steps of a run. */
  ghost predicate Schedulable(ns: seq<Node>, edges: seq<Edge>, queue: seq<PrioritizedTask>)
  {
    EdgesWithin(edges, |ns|) && QueueMatches(ns, queue) && TasksNonEmpty(queue) &&
    SuccessorsWait(ns, edges) && ToComputeWaits(ns, edges)
  }

  lemma NonSourceHasIncoming(edges: seq<Edge>, v: nat)
    requires !IsSource(edges, v)
    ensures |IncomingEdges(edges, v)| >= 1
  {
    var e :| 0 <= e < |edges| && edges[e].target == v;
    assert edges[e] in IncomingEdges(edges, v);
  }

  /** Tasks built for ready nodes that are no sources are not empty. */
  lemma TasksForNonEmpty(ns: seq<Node>, edges: seq<Edge>, ready: seq<nat>)
    requires ReadyFor(ns, edges, ready) && forall v :: v in ready ==> !IsSource(edges, v)
    ensures TasksNonEmpty(TasksFor(ns, edges, ready))
  {
    forall i | 0 <= i < |ready|
      ensures |TasksFor(ns, edges, ready)[i].task.ctsAndWeights| >= 1
    {
      TasksForAt(ns, edges, ready, i);
      assert ready[i] in ready;
      NonSourceHasIncoming(edges, ready[i]);
    }
  }

  /** Queuing nodes that are not computed changes no node's computed status. */
  lemma MarkQueuedKeepsComputed(ns: seq<Node>, queued: seq<nat>)
    requires forall v :: v in queued && v < |ns| ==> !ns[v].Computed?
    ensures forall w :: 0 <= w < |ns| ==> (MarkQueued(ns, queued)[w].Computed? <==> ns[w].Computed?)
  {
  }

  /**
   * Queuing exactly the ready nodes keeps every other node to compute waiting, and the
   * successors of nodes not computed still to compute.
   */
  lemma QueuingKeepsWaiting(base: seq<Node>, edges: seq<Edge>, ready: seq<nat>)
    requires EdgesWithin(edges, |base|) && SuccessorsWait(base, edges) && ReadyFor(base, edges, ready)
    requires forall v :: 0 <= v < |base| && base[v].ToCompute? && v !in ready ==>
      !IsSource(edges, v) && !AllPredecessorsComputed(base, edges, v)
    ensures SuccessorsWait(MarkQueued(base, ready), edges) && ToComputeWaits(MarkQueued(base, ready), edges)
  {
    var ns' := MarkQueued(base, ready);
    MarkQueuedKeepsComputed(base, ready);
    forall e | 0 <= e < |edges| && !ns'[edges[e].source].Computed?
      ensures ns'[edges[e].target].ToCompute?
    {
      var t := edges[e].target;
      assert edges[e] in IncomingEdges(edges, t);
      assert !AllPredecessorsComputed(base, edges, t);
    }
    forall v | 0 <= v < |base| && ns'[v].ToCompute?
      ensures !IsSource(edges, v) && !AllPredecessorsComputed(ns', edges, v)
    {
      var x :| x in IncomingEdges(edges, v) && !base[x.source].Computed?;
    }
  }

  /** Without parallel edges leaving it, the successors of a node are listed once each. */
  lemma {:induction false} OutgoingTargetsDistinct(edges: seq<Edge>, v: nat)
    requires SimpleOutgoing(edges, v)
    ensures Distinct(OutgoingTargets(edges, v))
  {
    if edges != [] {
      var prefix := edges[..|edges| - 1];
      var last := edges[|edges| - 1];
      assert SimpleOutgoing(prefix, v);
      OutgoingTargetsDistinct(prefix, v);
      if last.source == v {
        forall e | 0 <= e < |prefix| && prefix[e].source == v
          ensures prefix[e].target != last.target
        {
          assert edges[e] == prefix[e];
        }
        assert last.target !in OutgoingTargets(prefix, v);
      }
      assert OutgoingTargets(edges, v) == (if last.source == v then [last.target] else []) + OutgoingTargets(prefix, v);
    }
  }

  lemma DistinctConcat(a: seq<nat>, b: seq<nat>)
    requires Distinct(a) && Distinct(b) && forall x :: x in a ==> x !in b
    ensures Distinct(a + b)
  {
    forall i, j | 0 <= i < j < |a + b|
      ensures (a + b)[i] != (a + b)[j]
    {
      if i < |a| && j >= |a| {
        assert (a + b)[i] in a && (a + b)[j] in b;
      }
    }
  }

  /** Filtering keeps distinct candidates distinct. */
  lemma {:induction false} ReadyAmongDistinct(ns: seq<Node>, edges: seq<Edge>, candidates: seq<nat>)
    requires EdgesWithin(edges, |ns|) && Distinct(candidates)
    ensures Distinct(ReadyAmong(ns, edges, candidates))
  {
    if candidates != [] {
      var prefix := candidates[..|candidates| - 1];
      var c := candidates[|candidates| - 1];
      ReadyAmongDistinct(ns, edges, prefix);
      ReadyAmongMembers(ns, edges, prefix);
      assert c !in prefix;
    }
  }

  /** After `init` on a graph that passes its checks, the run can start. */
  lemma InitEstablishes(ns: seq<Node>, edges: seq<Edge>)
    requires EdgesWithin(edges, |ns|) && InitConditions(ns, edges)
    ensures ReadyFor(ns, edges, ReadyNodes(ns, edges, |ns|))
    ensures Schedulable(MarkQueued(ns, ReadyNodes(ns, edges, |ns|)), edges, TasksFor(ns, edges, ReadyNodes(ns, edges, |ns|)))
  {
    var ready := ReadyNodes(ns, edges, |ns|);
    assert ReadyFor(ns, edges, ready) by {
      forall v | v in ready
        ensures ReadyNode(ns, edges, v)
      {
        var i :| 0 <= i < |ready| && ready[i] == v;
      }
    }
    var queue := TasksFor(ns, edges, ready);
    assert QueuedIndices(queue) == ready;
    InitQueueMatches(ns, edges, ready);
    TasksForNonEmpty(ns, edges, ready);
    InitSuccessorsWait(ns, edges);
    QueuingKeepsWaiting(ns, edges, ready);
  }

  /** Queuing the ready nodes of a freshly checked graph queues exactly them, once each. */
  lemma InitQueueMatches(ns: seq<Node>, edges: seq<Edge>, ready: seq<nat>)
    requires EdgesWithin(edges, |ns|) && InitConditions(ns, edges) && ready == ReadyNodes(ns, edges, |ns|)
    ensures Distinct(ready)
    ensures forall v :: v in ready ==> v < |ns| && MarkQueued(ns, ready)[v].BootsrapQueued?
    ensures forall v :: 0 <= v < |ns| && MarkQueued(ns, ready)[v].BootsrapQueued? ==> v in ready
  {
  }

  /** Before any commit only the sources are computed, and every edge ends in a node to compute. */
  lemma InitSuccessorsWait(ns: seq<Node>, edges: seq<Edge>)
    requires EdgesWithin(edges, |ns|) && InitConditions(ns, edges)
    ensures SuccessorsWait(ns, edges)
  {
    forall e | 0 <= e < |edges|
      ensures ns[edges[e].target].ToCompute?
    {
      assert !IsSource(edges, edges[e].target);
    }
  }

  /** The state and the pending tasks right after committing the task at the head of the queue. */
  function CommitStep(ns: seq<Node>, edges: seq<Edge>, queue: seq<PrioritizedTask>, ct: Ciphertext): (r: (seq<Node>, seq<PrioritizedTask>))
    requires |queue| >= 1 && queue[0].task.index < |ns| && EdgesWithin(edges, |ns|)
    requires ReadyFor(CommittedNodes(ns, IndexedCt(queue[0].task.index, ct)), edges,
                      ReadySuccessors(ns, edges, IndexedCt(queue[0].task.index, ct)))
  {
    var result := IndexedCt(queue[0].task.index, ct);
    var committed := CommittedNodes(ns, result);
    var ready := ReadySuccessors(ns, edges, result);
    (MarkQueued(committed, ready), queue[1..] + TasksFor(committed, edges, ready))
  }

  /** The successors of the committed node are all to compute, and the ready ones are distinct. */
  lemma CommitSucceeds(ns: seq<Node>, edges: seq<Edge>, queue: seq<PrioritizedTask>, ct: Ciphertext)
    requires Schedulable(ns, edges, queue) && |queue| >= 1 && ParallelEdgesLeaveComputed(ns, edges)
    ensures queue[0].task.index < |ns| && ns[queue[0].task.index].BootsrapQueued?
    ensures !CommitFails(ns, edges, CountNotComputed(ns), IndexedCt(queue[0].task.index, ct))
    ensures ReadyFor(CommittedNodes(ns, IndexedCt(queue[0].task.index, ct)), edges,
                     ReadySuccessors(ns, edges, IndexedCt(queue[0].task.index, ct)))
    ensures Distinct(ReadySuccessors(ns, edges, IndexedCt(queue[0].task.index, ct)))
  {
    var u := queue[0].task.index;
    assert u in QueuedIndices(queue);
    CountNotComputedZero(ns);
    var committed := CommittedNodes(ns, IndexedCt(u, ct));
    var successors := OutgoingTargets(edges, u);
    SuccessorsStillToCompute(ns, edges, u, ct);
    NotComputedIsSimple(ns, edges, u);
    OutgoingTargetsDistinct(edges, u);
    ReadyAmongDistinct(committed, edges, successors);
    ReadyAmongMembers(committed, edges, successors);
  }

  /** The successors of a node not computed are to compute, and stay so when that node is committed. */
  lemma SuccessorsStillToCompute(ns: seq<Node>, edges: seq<Edge>, u: nat, ct: Ciphertext)
    requires EdgesWithin(edges, |ns|) && SuccessorsWait(ns, edges) && u < |ns| && ns[u].BootsrapQueued?
    ensures forall t :: t in OutgoingTargets(edges, u) ==> IsToCompute(CommittedNodes(ns, IndexedCt(u, ct)), t)
  {
    forall t | t in OutgoingTargets(edges, u)
      ensures IsToCompute(CommittedNodes(ns, IndexedCt(u, ct)), t)
    {
      var e :| 0 <= e < |edges| && edges[e].source == u && edges[e].target == t;
    }
  }

  /** After a commit the pending tasks still match the queued nodes. */
  lemma CommitKeepsQueue(ns: seq<Node>, edges: seq<Edge>, queue: seq<PrioritizedTask>, ct: Ciphertext)
    requires Schedulable(ns, edges, queue) && |queue| >= 1 && ParallelEdgesLeaveComputed(ns, edges)
    requires queue[0].task.index < |ns| && ns[queue[0].task.index].BootsrapQueued?
    requires ReadyFor(CommittedNodes(ns, IndexedCt(queue[0].task.index, ct)), edges,
                      ReadySuccessors(ns, edges, IndexedCt(queue[0].task.index, ct)))
    requires Distinct(ReadySuccessors(ns, edges, IndexedCt(queue[0].task.index, ct)))
    ensures var (ns', queue') := CommitStep(ns, edges, queue, ct); QueueMatches(ns', queue')
  {
    var u := queue[0].task.index;
    var result := IndexedCt(u, ct);
    var committed := CommittedNodes(ns, result);
    var ready := ReadySuccessors(ns, edges, result);
    var tasks := TasksFor(committed, edges, ready);
    QueuedIndicesAfterCommit(queue, tasks, ready);
    assert forall v :: v in ready ==> ReadyNode(committed, edges, v);
    QueueMatchesStep(ns, QueuedIndices(queue), ct, ready);
  }

  /** After a commit every pending task still has a weighted ciphertext. */
  lemma CommitKeepsTasks(ns: seq<Node>, edges: seq<Edge>, queue: seq<PrioritizedTask>, ct: Ciphertext)
    requires Schedulable(ns, edges, queue) && |queue| >= 1
    requires queue[0].task.index < |ns|
    requires ReadyFor(CommittedNodes(ns, IndexedCt(queue[0].task.index, ct)), edges,
                      ReadySuccessors(ns, edges, IndexedCt(queue[0].task.index, ct)))
    ensures TasksNonEmpty(CommitStep(ns, edges, queue, ct).1)
  {
    var result := IndexedCt(queue[0].task.index, ct);
    var committed := CommittedNodes(ns, result);
    var ready := ReadySuccessors(ns, edges, result);
    var tasks := TasksFor(committed, edges, ready);
    assert forall v :: v in ready ==> ReadyNode(committed, edges, v) && !IsSource(edges, v);
    TasksForNonEmpty(committed, edges, ready);
    TasksNonEmptyConcat(queue[1..], tasks);
  }

  lemma QueuedIndicesAfterCommit(queue: seq<PrioritizedTask>, tasks: seq<PrioritizedTask>, ready: seq<nat>)
    requires |queue| >= 1 && QueuedIndices(tasks) == ready
    ensures QueuedIndices(queue[1..] + tasks) == QueuedIndices(queue)[1..] + ready
  {
  }

  lemma TasksNonEmptyConcat(a: seq<PrioritizedTask>, b: seq<PrioritizedTask>)
    requires TasksNonEmpty(a) && TasksNonEmpty(b)
    ensures TasksNonEmpty(a + b)
  {
    forall i | 0 <= i < |a + b|
      ensures |(a + b)[i].task.ctsAndWeights| >= 1
    {
      if i >= |a| {
        assert (a + b)[i] == b[i - |a|];
      }
    }
  }

  /**
   * The queued nodes after a commit: the head leaves the queue as computed, the ready
   * successors join it at the back, and the two lists stay disjoint.
   */
  lemma QueueMatchesStep(ns: seq<Node>, pending: seq<nat>, ct: Ciphertext, ready: seq<nat>)
    requires Distinct(pending) && |pending| >= 1 && pending[0] < |ns|
    requires forall v :: v in pending ==> v < |ns| && ns[v].BootsrapQueued?
    requires forall v :: 0 <= v < |ns| && ns[v].BootsrapQueued? ==> v in pending
    requires Distinct(ready) && forall v :: v in ready ==> v < |ns| && ns[pending[0] := Computed(ct)][v].ToCompute?
    ensures var ns' := MarkQueued(ns[pending[0] := Computed(ct)], ready);
      Distinct(pending[1..] + ready) &&
      (forall v :: v in pending[1..] + ready ==> v < |ns'| && ns'[v].BootsrapQueued?) &&
      (forall v :: 0 <= v < |ns'| && ns'[v].BootsrapQueued? ==> v in pending[1..] + ready)
  {
    var u := pending[0];
    var ns' := MarkQueued(ns[u := Computed(ct)], ready);
    forall v | v in pending[1..]
      ensures v in pending && v != u
    {
      var k :| 0 <= k < |pending[1..]| && pending[1..][k] == v;
      assert pending[k + 1] == v;
    }
    forall v | v in pending && v != u
      ensures v in pending[1..]
    {
      var k :| 0 <= k < |pending| && pending[k] == v;
      assert pending[1..][k - 1] == v;
    }
    DistinctConcat(pending[1..], ready);
  }

  /** After a commit the nodes to compute still wait, and so do the successors of nodes not computed. */
  lemma CommitKeepsWaiting(ns: seq<Node>, edges: seq<Edge>, queue: seq<PrioritizedTask>, ct: Ciphertext)
    requires Schedulable(ns, edges, queue) && |queue| >= 1
    requires queue[0].task.index < |ns| && ns[queue[0].task.index].BootsrapQueued?
    requires ReadyFor(CommittedNodes(ns, IndexedCt(queue[0].task.index, ct)), edges,
                      ReadySuccessors(ns, edges, IndexedCt(queue[0].task.index, ct)))
    ensures var (ns', queue') := CommitStep(ns, edges, queue, ct); SuccessorsWait(ns', edges) && ToComputeWaits(ns', edges)
  {
    var u := queue[0].task.index;
    var result := IndexedCt(u, ct);
    var committed := CommittedNodes(ns, result);
    var successors := OutgoingTargets(edges, u);
    var ready := ReadySuccessors(ns, edges, result);
    ReadyAmongMembers(committed, edges, successors);
    forall v | 0 <= v < |committed| && committed[v].ToCompute? && v !in ready
      ensures !IsSource(edges, v) && !AllPredecessorsComputed(committed, edges, v)
    {
      if v !in successors {
        var x :| x in IncomingEdges(edges, v) && !ns[x.source].Computed?;
        var e :| 0 <= e < |edges| && edges[e] == x;
      }
    }
    QueuingKeepsWaiting(committed, edges, ready);
  }

  /** A commit computes the node at the head of the queue and changes no computed node. */
  lemma CommitOnlyComputesHead(ns: seq<Node>, edges: seq<Edge>, queue: seq<PrioritizedTask>, ct: Ciphertext)
    requires Schedulable(ns, edges, queue) && |queue| >= 1 && ParallelEdgesLeaveComputed(ns, edges)
    ensures queue[0].task.index < |ns| && !ns[queue[0].task.index].Computed?
    ensures ReadyFor(CommittedNodes(ns, IndexedCt(queue[0].task.index, ct)), edges,
                     ReadySuccessors(ns, edges, IndexedCt(queue[0].task.index, ct)))
    ensures var ns' := CommitStep(ns, edges, queue, ct).0;
      |ns'| == |ns| &&
      (forall w :: 0 <= w < |ns| ==> (ns'[w].Computed? <==> ns[w].Computed? || w == queue[0].task.index)) &&
      (forall w :: 0 <= w < |ns| && ns[w].Computed? ==> ns'[w] == ns[w])
  {
    CommitSucceeds(ns, edges, queue, ct);
    var u := queue[0].task.index;
    var committed := CommittedNodes(ns, IndexedCt(u, ct));
    MarkQueuedKeepsComputed(committed, ReadySuccessors(ns, edges, IndexedCt(u, ct)));
  }

  /**
   * Committing the result of the task at the head of the queue never fails (given that
   * parallel edges leave only computed nodes), and the run can go on.
   */
  lemma CommitPreserves(ns: seq<Node>, edges: seq<Edge>, queue: seq<PrioritizedTask>, ct: Ciphertext)
    requires Schedulable(ns, edges, queue) && |queue| >= 1 && ParallelEdgesLeaveComputed(ns, edges)
    ensures queue[0].task.index < |ns|
    ensures !CommitFails(ns, edges, CountNotComputed(ns), IndexedCt(queue[0].task.index, ct))
    ensures ReadyFor(CommittedNodes(ns, IndexedCt(queue[0].task.index, ct)), edges,
                     ReadySuccessors(ns, edges, IndexedCt(queue[0].task.index, ct)))
    ensures var (ns', queue') := CommitStep(ns, edges, queue, ct); Schedulable(ns', edges, queue')
  {
    CommitSucceeds(ns, edges, queue, ct);
    CommitKeepsQueue(ns, edges, queue, ct);
    CommitKeepsTasks(ns, edges, queue, ct);
    CommitKeepsWaiting(ns, edges, queue, ct);
  }

  /**
   * A node not yet computed leaves a task pending: following predecessors that are not
   * computed climbs the ranking of an acyclic graph and must reach a queued node.
   */
  lemma {:induction false} PendingWhileUnfinished(ns: seq<Node>, edges: seq<Edge>, queue: seq<PrioritizedTask>,
                                                  rank: seq<nat>, v: nat)
    requires EdgesWithin(edges, |ns|) && QueueMatches(ns, queue) && ToComputeWaits(ns, edges)
    requires IsRanking(edges, |ns|, rank) && v < |ns| && !ns[v].Computed?
    ensures |queue| >= 1
    decreases set w | 0 <= w < |ns| && rank[w] > rank[v]
  {
    if ns[v].BootsrapQueued? {
      assert v in QueuedIndices(queue);
    } else {
      var p := WaitingPredecessor(ns, edges, rank, v);
      RankClimbs(|ns|, rank, v, p);
      PendingWhileUnfinished(ns, edges, queue, rank, p);
    }
  }

  /** A waiting node has a predecessor that is not computed, higher in the ranking. */
  lemma WaitingPredecessor(ns: seq<Node>, edges: seq<Edge>, rank: seq<nat>, v: nat) returns (p: nat)
    requires EdgesWithin(edges, |ns|) && IsRanking(edges, |ns|, rank) && v < |ns|
    requires !AllPredecessorsComputed(ns, edges, v)
    ensures p < |ns| && !ns[p].Computed? && rank[p] > rank[v]
  {
    var x :| x in IncomingEdges(edges, v) && !ns[x.source].Computed?;
    var e :| 0 <= e < |edges| && edges[e] == x;
    p := x.source;
  }

  lemma RankClimbs(n: nat, rank: seq<nat>, v: nat, p: nat)
    requires |rank| == n && v < n && p < n && rank[p] > rank[v]
    ensures (set w | 0 <= w < n && rank[w] > rank[p]) < (set w | 0 <= w < n && rank[w] > rank[v])
  {
    var above, abovePredecessor := set w | 0 <= w < n && rank[w] > rank[v], set w | 0 <= w < n && rank[w] > rank[p];
    assert p in above && p !in abovePredecessor;
    assert forall w :: w in abovePredecessor ==> w in above;
  }

  /**
   * The nodes committed so far, each once, are exactly those computed now that were not at
   * the start; the nodes computed at the start keep their ciphertexts.
   */
  ghost predicate CommittedOnce(initial: seq<Node>, now: seq<Node>, log: seq<nat>)
  {
    |now| == |initial| && Distinct(log) &&
    (forall v :: v in log <==> 0 <= v < |initial| && !initial[v].Computed? && now[v].Computed?) &&
    (forall v :: 0 <= v < |initial| && initial[v].Computed? ==> now[v] == initial[v])
  }

  /**
   * From `before` to `after` exactly node u, which was not computed, becomes computed, and no
   * computed node changes.
   */
  ghost predicate ComputesOnly(before: seq<Node>, after: seq<Node>, u: nat)
  {
    u < |before| && !before[u].Computed? && |after| == |before| &&
    (forall w :: 0 <= w < |before| ==> (after[w].Computed? <==> before[w].Computed? || w == u)) &&
    (forall w :: 0 <= w < |before| && before[w].Computed? ==> after[w] == before[w])
  }

  /** Committing one uncomputed node, and changing no computed one, extends the log by that node. */
  lemma CommittedOnceStep(initial: seq<Node>, before: seq<Node>, after: seq<Node>, log: seq<nat>, u: nat)
    requires CommittedOnce(initial, before, log) && ComputesOnly(before, after, u)
    ensures CommittedOnce(initial, after, log + [u])
  {
    DistinctAppend(log, u);
  }

  /** When every node is computed, the log lists exactly the initially uncomputed nodes, once each. */
  lemma CommittedOnceAtEnd(initial: seq<Node>, now: seq<Node>, log: seq<nat>)
    requires CommittedOnce(initial, now, log) && forall v :: 0 <= v < |now| ==> now[v].Computed?
    ensures Distinct(log) && forall v :: v in log <==> 0 <= v < |initial| && !initial[v].Computed?
    ensures forall v :: 0 <= v < |initial| && initial[v].Computed? ==> now[v] == initial[v]
  {
  }

  /** Right after `init`, the queued state is schedulable and nothing has been committed yet. */
  lemma StartEstablishes(ns: seq<Node>, edges: seq<Edge>, started: seq<Node>, queue: seq<PrioritizedTask>)
    requires EdgesWithin(edges, |ns|) && InitConditions(ns, edges)
    requires started == MarkQueued(ns, ReadyNodes(ns, edges, |ns|))
    requires queue == TasksFor(ns, edges, ReadyNodes(ns, edges, |ns|))
    ensures Schedulable(started, edges, queue) && CommittedOnce(ns, started, [])
  {
    InitEstablishes(ns, edges);
    MarkQueuedKeepsComputed(ns, ReadyNodes(ns, edges, |ns|));
  }

  /**
   * The run: `FheGraph::new`, `init`, then for each pending task `multisum`, `pbs` and
   * `commit_result`, until `is_finished`. It fails exactly where `new` or `init` panic; once
   * started it never fails, it ends with every node computed, it commits every node that was
   * not computed at the start exactly once, and the source ciphertexts stay as given.
   */
  method Run(g: Graph, ops: ServerKeyOps, luts: Luts) returns (r: Result<seq<Node>, GraphError>, ghost log: seq<nat>)
    requires EdgesWithin(g.edges, |g.nodes|) && ParallelEdgesOnlyFromSources(g.edges)
    ensures r.Err? <==> !Acyclic(g.edges, |g.nodes|) || !InitConditions(g.nodes, g.edges)
    ensures r.Ok? ==> |r.value| == |g.nodes| && forall v :: 0 <= v < |r.value| ==> r.value[v].Computed?
    ensures r.Ok? ==> forall v :: 0 <= v < |g.nodes| && g.nodes[v].Computed? ==> r.value[v] == g.nodes[v]
    ensures r.Ok? ==> Distinct(log) && forall v :: v in log <==> 0 <= v < |g.nodes| && !g.nodes[v].Computed?
  {
    log := [];
    var created := FheGraph.New(g);
    if created.Err? {
      return Err(created.error), log;
    }
    var graph := created.value;
    graph.ValidIsAcyclic();
    assert graph.nodes[..] == g.nodes && graph.edges == g.edges;
    var initial := graph.Init();
    if initial.Err? {
      assert !InitConditions(g.nodes, g.edges);
      return Err(initial.error), log;
    }
    var queue := initial.value;
    assert InitConditions(g.nodes, g.edges);
    StartEstablishes(g.nodes, g.edges, graph.nodes[..], queue);
    StartParallelEdgesLeaveComputed(g.nodes, g.edges, graph.nodes[..]);
    ghost var rank :| IsRanking(g.edges, |g.nodes|, rank);
    log := Drive(graph, queue, ops, luts, g.nodes, rank);
    CommittedOnceAtEnd(g.nodes, graph.nodes[..], log);
    return Ok(graph.nodes[..]), log;
  }

  /**
   * The loop of the run: one `Step` per pending task until `is_finished`. Each turn computes one
   * node that was not computed before, so the count of nodes left to compute bounds the turns.
   */
  method Drive(graph: FheGraph, queue0: seq<PrioritizedTask>, ops: ServerKeyOps, luts: Luts,
               ghost initial: seq<Node>, ghost rank: seq<nat>)
    returns (ghost log: seq<nat>)
    requires graph.Valid() && IsRanking(graph.edges, graph.nodes.Length, rank)
    requires Schedulable(graph.nodes[..], graph.edges, queue0) && ParallelEdgesLeaveComputed(graph.nodes[..], graph.edges)
    requires CommittedOnce(initial, graph.nodes[..], [])
    modifies graph, graph.nodes
    ensures graph.Valid() && forall v :: 0 <= v < graph.nodes.Length ==> graph.nodes[v].Computed?
    ensures CommittedOnce(initial, graph.nodes[..], log)
  {
    log := [];
    var queue := queue0;
    while !graph.IsFinished()
      invariant graph.Valid() && Schedulable(graph.nodes[..], graph.edges, queue)
      invariant ParallelEdgesLeaveComputed(graph.nodes[..], graph.edges)
      invariant CommittedOnce(initial, graph.nodes[..], log)
      decreases graph.notComputedNodesCount
    {
      ghost var unfinished :| 0 <= unfinished < graph.nodes.Length && !graph.nodes[unfinished].Computed?;
      PendingWhileUnfinished(graph.nodes[..], graph.edges, queue, rank, unfinished);
      ghost var before := graph.nodes[..];
      ghost var u;
      queue, u := Step(graph, queue, ops, luts);
      CommittedOnceStep(initial, before, graph.nodes[..], log, u);
      ParallelEdgesStayComputed(before, graph.nodes[..], graph.edges, u);
      log := log + [u];
    }
  }

  /**
   * One turn of the run: `multisum` and `pbs` on the task at the head of the queue, then
   * `commit_result`, whose new tasks join the back of the queue.
   */
  method Step(graph: FheGraph, queue: seq<PrioritizedTask>, ops: ServerKeyOps, luts: Luts)
    returns (queue': seq<PrioritizedTask>, ghost u: nat)
    requires graph.Valid() && Schedulable(graph.nodes[..], graph.edges, queue)
    requires ParallelEdgesLeaveComputed(graph.nodes[..], graph.edges)
    requires |queue| >= 1
    modifies graph, graph.nodes
    ensures graph.Valid() && Schedulable(graph.nodes[..], graph.edges, queue')
    ensures graph.notComputedNodesCount < old(graph.notComputedNodesCount)
    ensures u == queue[0].task.index && ComputesOnly(old(graph.nodes[..]), graph.nodes[..], u)
  {
    var head := queue[0];
    var summed := Multisum(head.task, ops);
    if summed.Err? {
      assert false;
    }
    var result := Pbs(summed.value, ops, luts);
    u := result.index;
    ghost var before := graph.nodes[..];
    CommitPreserves(before, graph.edges, queue, result.ct);
    CommitOnlyComputesHead(before, graph.edges, queue, result.ct);
    var tasks := graph.CommitResult(result);
    if tasks.Err? {
      assert false;
    }
    assert (graph.nodes[..], queue[1..] + tasks.value) == CommitStep(before, graph.edges, queue, result.ct);
    assert ComputesOnly(before, graph.nodes[..], u);
    queue' := queue[1..] + tasks.value;
  }
}
