/**
 * The goal-distance labelling of the explorer with distances: a breadth-first search run
 * backwards from every goal over the reverse transition graph. The graph maps a node to the
 * list of its predecessors and reads as empty where it has no entry (a `defaultdict(list)`).
 */
module GoalDistance {
  import opened Text

  /** `graph[v]` of a `defaultdict(list)`: the stored list, or the empty one. */
  function Adj<N(!new)>(graph: map<N, seq<N>>, v: N): seq<N>
  {
    if v in graph then graph[v] else []
  }

  /** A forward path `p[0] -> ... -> p[|p| - 1]` that ends in a goal, read off the reverse graph. */
  ghost predicate PathToGoal<N(!new)>(rev: map<N, seq<N>>, goals: seq<N>, p: seq<N>)
  {
    && |p| >= 1
    && p[|p| - 1] in goals
    && forall k :: 0 <= k < |p| - 1 ==> p[k] in Adj(rev, p[k + 1])
  }

  /** `v` reaches a goal in exactly `n` steps. */
  ghost predicate Reaches<N(!new)>(rev: map<N, seq<N>>, goals: seq<N>, v: N, n: nat)
  {
    exists p :: PathToGoal(rev, goals, p) && p[0] == v && |p| == n + 1
  }

  lemma ReachesGoal<N(!new)>(rev: map<N, seq<N>>, goals: seq<N>, g: N)
    requires g in goals
    ensures Reaches(rev, goals, g, 0)
  {
    assert PathToGoal(rev, goals, [g]);
  }

  /** A predecessor of a node `n` steps from a goal is at most `n + 1` steps from it. */
  lemma ReachesStep<N(!new)>(rev: map<N, seq<N>>, goals: seq<N>, u: N, w: N, n: nat)
    requires u in Adj(rev, w) && Reaches(rev, goals, w, n)
    ensures Reaches(rev, goals, u, n + 1)
  {
    var p :| PathToGoal(rev, goals, p) && p[0] == w && |p| == n + 1;
    var q := [u] + p;
    assert q[1..] == p;
    assert PathToGoal(rev, goals, q);
  }

  /** Every node that can occur: the goals and every listed predecessor. */
  ghost function Nodes<N(!new)>(rev: map<N, seq<N>>, goals: seq<N>): set<N>
  {
    Elems(goals) + set v, k | v in rev && 0 <= k < |rev[v]| :: rev[v][k]
  }

  /** Labels that are final: every predecessor of `v` is labelled, at most one step further. */
  ghost predicate Settled<N(!new)>(rev: map<N, seq<N>>, dist: map<N, nat>, v: N)
    requires v in dist
  {
    forall u :: u in Adj(rev, v) ==> u in dist && dist[u] <= dist[v] + 1
  }

  /** When every label is settled and the goals are at 0, each path bounds the label of its start. */
  lemma {:induction false} SettledComplete<N(!new)>(rev: map<N, seq<N>>, goals: seq<N>, dist: map<N, nat>, p: seq<N>)
    requires forall g :: g in goals ==> g in dist && dist[g] == 0
    requires forall v :: v in dist ==> Settled(rev, dist, v)
    requires PathToGoal(rev, goals, p)
    ensures p[0] in dist && dist[p[0]] <= |p| - 1
    decreases |p|
  {
    if |p| > 1 {
      var q := p[1..];
      assert PathToGoal(rev, goals, q) by {
        forall k | 0 <= k < |q| - 1 ensures q[k] in Adj(rev, q[k + 1]) {
          assert p[k + 1] in Adj(rev, p[k + 2]);
        }
      }
      SettledComplete(rev, goals, dist, q);
      assert p[0] in Adj(rev, p[1]);
    }
  }

  lemma Complete<N(!new)>(rev: map<N, seq<N>>, goals: seq<N>, dist: map<N, nat>)
    requires forall g :: g in goals ==> g in dist && dist[g] == 0
    requires forall v :: v in dist ==> Settled(rev, dist, v)
    ensures forall v, n :: Reaches(rev, goals, v, n) ==> v in dist && dist[v] <= n
  {
    forall v, n | Reaches(rev, goals, v, n) ensures v in dist && dist[v] <= n {
      var p :| PathToGoal(rev, goals, p) && p[0] == v && |p| == n + 1;
      SettledComplete(rev, goals, dist, p);
    }
  }

  /** Labels are lengths of real paths. */
  ghost predicate Sound<N(!new)>(rev: map<N, seq<N>>, goals: seq<N>, dist: map<N, nat>)
  {
    forall v :: v in dist ==> Reaches(rev, goals, v, dist[v])
  }

  /** The queue is ordered by label and spans at most one level above its head. */
  ghost predicate Layered<N(!new)>(dist: map<N, nat>, queue: seq<N>, low: nat)
  {
    && (forall i :: 0 <= i < |queue| ==> queue[i] in dist && low <= dist[queue[i]] <= low + 1)
    && (forall i, j :: 0 <= i < j < |queue| ==> dist[queue[i]] <= dist[queue[j]])
    && (forall v :: v in dist ==> dist[v] <= low + 1)
  }

  /** Labels every goal with distance 0 and queues the goals in their order (lines 97-99 of the distance explorer). */
  method LabelGoals<N(==,!new)>(goals: seq<N>) returns (dist: map<N, nat>, queue: seq<N>)
    ensures dist.Keys == Elems(goals) && forall v :: v in dist ==> dist[v] == 0
    ensures queue == goals
  {
    dist := map[];
    queue := [];
    for k := 0 to |goals|
      invariant dist.Keys == Elems(goals[..k]) && forall v :: v in dist ==> dist[v] == 0
      invariant queue == goals[..k]
    {
      assert goals[..k + 1] == goals[..k] + [goals[k]];
      dist := dist[goals[k] := 0];
      queue := queue + [goals[k]];
    }
    assert goals[..|goals|] == goals;
  }

  /** What the inner loop keeps: old labels unchanged, new ones queued, labels sound and layered. */
  ghost predicate Scanning<N(!new)>(rev: map<N, seq<N>>, goals: seq<N>, nodes: set<N>, dist0: map<N, nat>,
                                    queue0: seq<N>, low: nat, dist: map<N, nat>, queue: seq<N>)
  {
    && (forall v :: v in dist0 ==> v in dist && dist[v] == dist0[v])
    && dist.Keys <= nodes && Sound(rev, goals, dist) && Layered(dist, queue, low)
    && queue0 <= queue && (forall v :: v in dist && v !in dist0 ==> v in queue)
    && 2 * |nodes - dist.Keys| + |queue| <= 2 * |nodes - dist0.Keys| + |queue0|
  }

  /** One predecessor of the head: labelled with the next level and queued unless already labelled. */
  method VisitPredecessor<N(==,!new)>(goals: seq<N>, rev: map<N, seq<N>>, current: N, j: nat, ghost nodes: set<N>,
                                      ghost dist0: map<N, nat>, ghost queue0: seq<N>, dist: map<N, nat>, queue: seq<N>)
    returns (dist': map<N, nat>, queue': seq<N>)
    requires nodes == Nodes(rev, goals) && current in dist0 && j < |Adj(rev, current)|
    requires Scanning(rev, goals, nodes, dist0, queue0, dist0[current], dist, queue)
    ensures Scanning(rev, goals, nodes, dist0, queue0, dist0[current], dist', queue')
    ensures forall v :: v in dist ==> v in dist' && dist'[v] == dist[v]
    ensures Adj(rev, current)[j] in dist' && dist'[Adj(rev, current)[j]] <= dist0[current] + 1
    ensures Adj(rev, current)[j] !in dist ==>
              dist'[Adj(rev, current)[j]] == dist0[current] + 1 && queue' == queue + [Adj(rev, current)[j]]
    ensures Adj(rev, current)[j] in dist ==> dist' == dist && queue' == queue
  {
    ScanningHead(rev, goals, nodes, dist0, queue0, current, dist, queue);
    var predecessor := Adj(rev, current)[j];
    dist', queue' := dist, queue;
    if predecessor !in dist {
      dist' := dist[predecessor := dist[current] + 1];
      queue' := queue + [predecessor];
    }
    VisitOutcome(goals, rev, current, j, nodes, dist0, queue0, dist, queue, dist', queue');
  }

  lemma ScanningHead<N(!new)>(rev: map<N, seq<N>>, goals: seq<N>, nodes: set<N>, dist0: map<N, nat>,
                              queue0: seq<N>, current: N, dist: map<N, nat>, queue: seq<N>)
    requires current in dist0 && Scanning(rev, goals, nodes, dist0, queue0, dist0[current], dist, queue)
    ensures current in dist && dist[current] == dist0[current]
  {
  }

  /** The outcome of one predecessor: labelled and queued if it was new, nothing changed otherwise. */
  lemma VisitOutcome<N(!new)>(goals: seq<N>, rev: map<N, seq<N>>, current: N, j: nat, nodes: set<N>,
                              dist0: map<N, nat>, queue0: seq<N>, dist: map<N, nat>, queue: seq<N>,
                              dist': map<N, nat>, queue': seq<N>)
    requires nodes == Nodes(rev, goals) && current in dist0 && j < |Adj(rev, current)|
    requires Scanning(rev, goals, nodes, dist0, queue0, dist0[current], dist, queue)
    requires Adj(rev, current)[j] !in dist ==>
               dist' == dist[Adj(rev, current)[j] := dist0[current] + 1] && queue' == queue + [Adj(rev, current)[j]]
    requires Adj(rev, current)[j] in dist ==> dist' == dist && queue' == queue
    ensures Scanning(rev, goals, nodes, dist0, queue0, dist0[current], dist', queue')
    ensures forall v :: v in dist ==> v in dist' && dist'[v] == dist[v]
    ensures Adj(rev, current)[j] in dist' && dist'[Adj(rev, current)[j]] <= dist0[current] + 1
    ensures Adj(rev, current)[j] !in dist ==>
              dist'[Adj(rev, current)[j]] == dist0[current] + 1 && queue' == queue + [Adj(rev, current)[j]]
    ensures Adj(rev, current)[j] in dist ==> dist' == dist && queue' == queue
  {
    var p, low := Adj(rev, current)[j], dist0[current];
    if p !in dist {
      PredIsNode(rev, goals, current, j);
      ReachesStep(rev, goals, p, current, low);
      LabelAdded(rev, goals, nodes, dist, queue, low, p);
    }
  }

  /** The inner loop over `reverse_graph[current]`: unlabelled predecessors get the next level. */
  method ScanPredecessors<N(==,!new)>(goals: seq<N>, rev: map<N, seq<N>>, current: N, dist0: map<N, nat>,
                                         queue0: seq<N>, ghost nodes: set<N>)
    returns (dist: map<N, nat>, queue: seq<N>)
    requires nodes == Nodes(rev, goals) && dist0.Keys <= nodes
    requires current in dist0 && Sound(rev, goals, dist0) && Layered(dist0, queue0, dist0[current])
    ensures forall v :: v in dist0 ==> v in dist && dist[v] == dist0[v]
    ensures dist.Keys <= nodes && Sound(rev, goals, dist) && Layered(dist, queue, dist0[current])
    ensures queue0 <= queue && forall v :: v in dist && v !in dist0 ==> v in queue
    ensures Settled(rev, dist, current)
    ensures 2 * |nodes - dist.Keys| + |queue| <= 2 * |nodes - dist0.Keys| + |queue0|
  {
    dist, queue := dist0, queue0;
    var preds := Adj(rev, current);
    for j := 0 to |preds|
      invariant Scanning(rev, goals, nodes, dist0, queue0, dist0[current], dist, queue)
      invariant forall i :: 0 <= i < j ==> preds[i] in dist && dist[preds[i]] <= dist0[current] + 1
    {
      ghost var before := dist;
      dist, queue := VisitPredecessor(goals, rev, current, j, nodes, dist0, queue0, dist, queue);
      LabelledPrefix(preds, j, before, dist, dist0[current] + 1);
    }
    ScanDone(rev, goals, nodes, dist0, queue0, current, dist, queue);
  }

  /** Labels kept, plus one more labelled entry, extend the labelled prefix by one. */
  lemma LabelledPrefix<N>(preds: seq<N>, j: nat, before: map<N, nat>, dist: map<N, nat>, bound: nat)
    requires j < |preds|
    requires forall i :: 0 <= i < j ==> preds[i] in before && before[preds[i]] <= bound
    requires forall v :: v in before ==> v in dist && dist[v] == before[v]
    requires preds[j] in dist && dist[preds[j]] <= bound
    ensures forall i :: 0 <= i < j + 1 ==> preds[i] in dist && dist[preds[i]] <= bound
  {
  }

  /** A scan that labelled every predecessor within one level of the head has settled the head. */
  lemma ScanDone<N(!new)>(rev: map<N, seq<N>>, goals: seq<N>, nodes: set<N>, dist0: map<N, nat>, queue0: seq<N>,
                          current: N, dist: map<N, nat>, queue: seq<N>)
    requires current in dist0
    requires Scanning(rev, goals, nodes, dist0, queue0, dist0[current], dist, queue)
    requires forall i :: 0 <= i < |Adj(rev, current)| ==> Adj(rev, current)[i] in dist && dist[Adj(rev, current)[i]] <= dist0[current] + 1
    ensures forall v :: v in dist0 ==> v in dist && dist[v] == dist0[v]
    ensures dist.Keys <= nodes && Sound(rev, goals, dist) && Layered(dist, queue, dist0[current])
    ensures queue0 <= queue && forall v :: v in dist && v !in dist0 ==> v in queue
    ensures Settled(rev, dist, current)
    ensures 2 * |nodes - dist.Keys| + |queue| <= 2 * |nodes - dist0.Keys| + |queue0|
  {
    assert Settled(rev, dist, current);
  }

  /** Labelling an unlabelled node one level above the head keeps the queue layered and the labels sound. */
  lemma LabelAdded<N(!new)>(rev: map<N, seq<N>>, goals: seq<N>, nodes: set<N>, dist: map<N, nat>,
                            queue: seq<N>, low: nat, p: N)
    requires p !in dist && p in nodes && dist.Keys <= nodes && Reaches(rev, goals, p, low + 1)
    requires Sound(rev, goals, dist) && Layered(dist, queue, low)
    ensures dist[p := low + 1].Keys <= nodes && Sound(rev, goals, dist[p := low + 1])
    ensures Layered(dist[p := low + 1], queue + [p], low)
    ensures |nodes - dist[p := low + 1].Keys| == |nodes - dist.Keys| - 1
  {
    assert nodes - dist[p := low + 1].Keys == (nodes - dist.Keys) - {p};
  }

  /** Scanning the head settles it and leaves every other settled label settled. */
  lemma SettledKept<N(!new)>(rev: map<N, seq<N>>, dist0: map<N, nat>, dist: map<N, nat>, current: N,
                             before: seq<N>, queue0: seq<N>, queue: seq<N>)
    requires forall v {:trigger Settled(rev, dist0, v)} :: v in dist0 && v !in before ==> Settled(rev, dist0, v)
    requires before != [] && before[0] == current && queue0 == before[1..]
    requires forall v :: v in dist0 ==> v in dist && dist[v] == dist0[v]
    requires queue0 <= queue && forall v :: v in dist && v !in dist0 ==> v in queue
    requires current in dist && Settled(rev, dist, current)
    ensures forall v {:trigger Settled(rev, dist, v)} :: v in dist && v !in queue ==> Settled(rev, dist, v)
  {
    forall v | v in dist && v !in queue ensures Settled(rev, dist, v) {
      if v != current {
        assert before == [current] + queue0;
        assert Settled(rev, dist0, v);
      }
    }
  }

  /** What the distance loop keeps: goals at 0, sound labels, a layered queue, settled labels outside it. */
  ghost predicate Labelling<N(!new)>(rev: map<N, seq<N>>, goals: seq<N>, nodes: set<N>, dist: map<N, nat>, queue: seq<N>)
  {
    && (forall g :: g in goals ==> g in dist && dist[g] == 0)
    && dist.Keys <= nodes && Sound(rev, goals, dist)
    && (queue != [] ==> queue[0] in dist && Layered(dist, queue, dist[queue[0]]))
    && forall v {:trigger Settled(rev, dist, v)} :: v in dist && v !in queue ==> Settled(rev, dist, v)
  }

  /** One turn of the distance loop: `current = queue.popleft()` and the scan of its predecessors. */
  method VisitHead<N(==,!new)>(goals: seq<N>, rev: map<N, seq<N>>, ghost nodes: set<N>, dist: map<N, nat>, queue: seq<N>)
    returns (dist': map<N, nat>, queue': seq<N>)
    requires nodes == Nodes(rev, goals) && queue != [] && Labelling(rev, goals, nodes, dist, queue)
    ensures Labelling(rev, goals, nodes, dist', queue')
    ensures 2 * |nodes - dist'.Keys| + |queue'| < 2 * |nodes - dist.Keys| + |queue|
  {
    var current := queue[0];
    LayeredTail(dist, queue, dist[current]);
    dist', queue' := ScanPredecessors(goals, rev, current, dist, queue[1..], nodes);
    SettledKept(rev, dist, dist', current, queue, queue[1..], queue');
    LayeredNext(dist', queue', dist[current]);
  }

  /**
   * The distance loop: goals get 0; a node taken from the front of the queue labels each
   * unlabelled predecessor with its own label plus one and appends it. On exit a node is
   * labelled exactly when it reaches a goal, and its label is the length of a shortest path.
   */
  method LabelDistances<N(==,!new)>(goals: seq<N>, rev: map<N, seq<N>>) returns (dist: map<N, nat>)
    ensures forall g :: g in goals ==> g in dist && dist[g] == 0
    ensures forall v :: v in dist ==> Reaches(rev, goals, v, dist[v])
    ensures forall v, n :: Reaches(rev, goals, v, n) ==> v in dist && dist[v] <= n
  {
    var queue;
    dist, queue := LabelGoals(goals);
    ghost var nodes := Nodes(rev, goals);
    GoalsLabelled(rev, goals, nodes, dist);
    while queue != []
      invariant Labelling(rev, goals, nodes, dist, queue)
      decreases 2 * |nodes - dist.Keys| + |queue|
    {
      dist, queue := VisitHead(goals, rev, nodes, dist, queue);
    }
    Finished(rev, goals, nodes, dist);
  }

  /** With the queue empty every label is settled, so the labels are the shortest distances. */
  lemma Finished<N(!new)>(rev: map<N, seq<N>>, goals: seq<N>, nodes: set<N>, dist: map<N, nat>)
    requires Labelling(rev, goals, nodes, dist, [])
    ensures forall g :: g in goals ==> g in dist && dist[g] == 0
    ensures forall v :: v in dist ==> Reaches(rev, goals, v, dist[v])
    ensures forall v, n :: Reaches(rev, goals, v, n) ==> v in dist && dist[v] <= n
  {
    Complete(rev, goals, dist);
  }

  /** The goals labelled 0 and queued in order start the loop. */
  lemma GoalsLabelled<N(!new)>(rev: map<N, seq<N>>, goals: seq<N>, nodes: set<N>, dist: map<N, nat>)
    requires nodes == Nodes(rev, goals)
    requires dist.Keys == Elems(goals) && forall v :: v in dist ==> dist[v] == 0
    ensures Labelling(rev, goals, nodes, dist, goals)
  {
    forall v | v in dist ensures Reaches(rev, goals, v, dist[v]) {
      ReachesGoal(rev, goals, v);
    }
  }

  lemma PredIsNode<N(!new)>(rev: map<N, seq<N>>, goals: seq<N>, v: N, j: nat)
    requires j < |Adj(rev, v)|
    ensures Adj(rev, v)[j] in Nodes(rev, goals)
  {
  }

  lemma LayeredTail<N(!new)>(dist: map<N, nat>, queue: seq<N>, low: nat)
    requires Layered(dist, queue, low) && queue != []
    ensures Layered(dist, queue[1..], low)
  {
  }

  /** After the head is consumed the queue is layered at the label of its new head. */
  lemma LayeredNext<N(!new)>(dist: map<N, nat>, queue: seq<N>, low: nat)
    requires Layered(dist, queue, low)
    ensures queue != [] ==> Layered(dist, queue, dist[queue[0]])
  {
  }

  /** Labels that are shortest distances exceed the label of no labelled successor by more than one. */
  lemma DistanceUpper<N(!new)>(rev: map<N, seq<N>>, goals: seq<N>, dist: map<N, nat>)
    requires forall v :: v in dist ==> Reaches(rev, goals, v, dist[v])
    requires forall v, n :: Reaches(rev, goals, v, n) ==> v in dist && dist[v] <= n
    ensures forall v, u :: v in dist && u in dist && v in Adj(rev, u) ==> dist[v] <= dist[u] + 1
  {
    forall v, u | v in dist && u in dist && v in Adj(rev, u) ensures dist[v] <= dist[u] + 1 {
      ReachesStep(rev, goals, v, u, dist[u]);
    }
  }

  /**
   * The distance equation: a labelled node that is not a goal is one more than some labelled
   * successor, and by `DistanceUpper` at most one more than any.
   */
  lemma DistanceEquation<N(!new)>(rev: map<N, seq<N>>, goals: seq<N>, dist: map<N, nat>)
    requires forall v :: v in dist ==> Reaches(rev, goals, v, dist[v])
    requires forall v, n :: Reaches(rev, goals, v, n) ==> v in dist && dist[v] <= n
    ensures forall v :: v in dist && v !in goals ==>
              dist[v] >= 1 && exists u :: v in Adj(rev, u) && u in dist && dist[u] + 1 == dist[v]
  {
    forall v | v in dist && v !in goals
      ensures dist[v] >= 1 && exists u :: v in Adj(rev, u) && u in dist && dist[u] + 1 == dist[v]
    {
      var u := NextOnPath(rev, goals, v, dist[v]);
      ReachesStep(rev, goals, v, u, dist[u]);
    }
  }

  /** The second node of a path of length `n` from a non-goal: a successor `n - 1` steps from a goal. */
  lemma NextOnPath<N(!new)>(rev: map<N, seq<N>>, goals: seq<N>, v: N, n: nat) returns (u: N)
    requires v !in goals && Reaches(rev, goals, v, n)
    ensures n >= 1 && v in Adj(rev, u) && Reaches(rev, goals, u, n - 1)
  {
    var p :| PathToGoal(rev, goals, p) && p[0] == v && |p| == n + 1;
    var q := p[1..];
    assert PathToGoal(rev, goals, q) by {
      forall k | 0 <= k < |q| - 1 ensures q[k] in Adj(rev, q[k + 1]) {
        assert p[k + 1] in Adj(rev, p[k + 2]);
      }
    }
    u := p[1];
  }
}
