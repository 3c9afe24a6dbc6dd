/**
 * The breadth-first exploration of a planning problem's state space. The simulator of the
 * planning library is a parameter: the list of states its applicable actions lead to (in the
 * order the library lists the actions), the goal test, and the `__hash__` of a state. A FIFO
 * queue and a visited set drive the search; a goal state is recorded and never expanded; a
 * non-goal state records one transition per applicable action, duplicates included.
 */
module Explorer {
  import opened Text
  import opened StateIdentity
  import opened GoalDistance

  datatype Simulator<!S> = Simulator(successors: S -> seq<S>, isGoal: S -> bool, hash: S -> int)

  /** `get_state_id(problem_name, s)`. */
  function Id<S>(sim: Simulator<S>, name: string, s: S): string
  {
    StateId(name, sim.hash(s))
  }

  /** The states the search moves to from `s`: none for a goal, else one per applicable action. */
  function Expanded<S>(sim: Simulator<S>, s: S): seq<S>
  {
    if sim.isGoal(s) then [] else sim.successors(s)
  }

  /** The identifiers of a list of states, in order. */
  function Ids<S>(sim: Simulator<S>, name: string, xs: seq<S>): (r: seq<string>)
    ensures |r| == |xs| && forall k :: 0 <= k < |xs| ==> r[k] == Id(sim, name, xs[k])
  {
    seq(|xs|, k requires 0 <= k < |xs| => Id(sim, name, xs[k]))
  }

  // ---------------------------------------------------------------------------
  // What the search records
  // ---------------------------------------------------------------------------

  /** The `(curr_id, new_id)` pairs recorded while expanding `s`. */
  function Out<S>(sim: Simulator<S>, name: string, s: S): (r: seq<(string, string)>)
    ensures |r| == |Expanded(sim, s)|
    ensures forall k :: 0 <= k < |r| ==> r[k] == (Id(sim, name, s), Id(sim, name, Expanded(sim, s)[k]))
  {
    Pairs(Id(sim, name, s), Ids(sim, name, Expanded(sim, s)))
  }

  /** The pairs `(a, y)` for the elements `y` of `ys`, in order. */
  function Pairs(a: string, ys: seq<string>): (r: seq<(string, string)>)
    ensures |r| == |ys| && forall k :: 0 <= k < |ys| ==> r[k] == (a, ys[k])
  {
    seq(|ys|, k requires 0 <= k < |ys| => (a, ys[k]))
  }

  /** The pairs recorded while expanding the states of `order`, one after the other. */
  function Edges<S>(sim: Simulator<S>, name: string, order: seq<S>): seq<(string, string)>
  {
    if order == [] then []
    else Edges(sim, name, order[..|order| - 1]) + Out(sim, name, order[|order| - 1])
  }

  /** `f"transition({curr_id}, {new_id})."`. */
  function TransitionFact(e: (string, string)): string
  {
    "transition(" + e.0 + ", " + e.1 + ")."
  }

  /** The `transition(...)` lines of a list of pairs. */
  function Lines(es: seq<(string, string)>): (r: seq<string>)
    ensures |r| == |es| && forall k :: 0 <= k < |es| ==> r[k] == TransitionFact(es[k])
  {
    seq(|es|, k requires 0 <= k < |es| => TransitionFact(es[k]))
  }

  /** The `goal(...)` lines written while the states of `order` are taken from the queue. */
  function GoalLines<S>(sim: Simulator<S>, name: string, order: seq<S>): seq<string>
  {
    if order == [] then []
    else
      var s := order[|order| - 1];
      GoalLines(sim, name, order[..|order| - 1]) + (if sim.isGoal(s) then [GoalFact(Id(sim, name, s))] else [])
  }

  /** The identifiers of the goal states of `order`, in order. */
  function GoalStateIds<S>(sim: Simulator<S>, name: string, order: seq<S>): seq<string>
  {
    if order == [] then []
    else
      var s := order[|order| - 1];
      GoalStateIds(sim, name, order[..|order| - 1]) + (if sim.isGoal(s) then [Id(sim, name, s)] else [])
  }

  /** The identifiers sliced out of each `goal(...)` line, in order (line 92 of the distance explorer). */
  function GoalIds(lines: seq<string>): (r: seq<string>)
    ensures |r| == |lines|
  {
    seq(|lines|, k requires 0 <= k < |lines| => GoalIdOf(lines[k]))
  }

  /** The goal-id slice recovers the identifier of every goal state, in the order they were found. */
  lemma {:induction false} GoalIdsOfGoalLines<S>(sim: Simulator<S>, name: string, order: seq<S>)
    ensures GoalIds(GoalLines(sim, name, order)) == GoalStateIds(sim, name, order)
  {
    if order != [] {
      var s := order[|order| - 1];
      GoalIdsOfGoalLines(sim, name, order[..|order| - 1]);
      if sim.isGoal(s) {
        GoalIdOfGoalFact(Id(sim, name, s));
      }
    }
  }

  /** The pair `e` was recorded while expanding `s`: `s` is no goal and `e` leads to a successor. */
  predicate RecordedFrom<S>(sim: Simulator<S>, name: string, s: S, e: (string, string))
  {
    !sim.isGoal(s) && e.0 == Id(sim, name, s) && e.1 in Ids(sim, name, sim.successors(s))
  }

  lemma OutRecordedFrom<S>(sim: Simulator<S>, name: string, s: S, j: nat)
    requires j < |Out(sim, name, s)|
    ensures RecordedFrom(sim, name, s, Out(sim, name, s)[j])
  {
    var ids := Ids(sim, name, sim.successors(s));
    assert ids[j] == Out(sim, name, s)[j].1;
  }

  /**
   * Every recorded transition leaves a state of `order` that is not a goal, towards one of
   * that state's successors: goal states are never expanded.
   */
  lemma {:induction false} EdgeSource<S>(sim: Simulator<S>, name: string, order: seq<S>, k: nat)
    requires k < |Edges(sim, name, order)|
    ensures exists i :: 0 <= i < |order| && RecordedFrom(sim, name, order[i], Edges(sim, name, order)[k])
    decreases |order|
  {
    var front := order[..|order| - 1];
    var last := order[|order| - 1];
    var es := Edges(sim, name, front);
    var out := Out(sim, name, last);
    assert Edges(sim, name, order) == es + out;
    if k < |es| {
      EdgeSource(sim, name, front, k);
      var i :| 0 <= i < |front| && RecordedFrom(sim, name, front[i], es[k]);
      assert order[i] == front[i];
      assert (es + out)[k] == es[k];
    } else {
      var j := k - |es|;
      assert (es + out)[k] == out[j];
      OutRecordedFrom(sim, name, last, j);
      assert order[|order| - 1] == last;
    }
  }

  // ---------------------------------------------------------------------------
  // The order of discovery
  // ---------------------------------------------------------------------------

  /**
   * The states of `xs` that the inner loop appends to the queue: those not yet visited and
   * not met earlier in `xs`, in the order met.
   */
  function NewFrom<S(==)>(visited: set<S>, xs: seq<S>): (r: seq<S>)
  {
    if xs == [] then []
    else
      var front, x := xs[..|xs| - 1], xs[|xs| - 1];
      NewFrom(visited, front) + (if x in visited || x in front then [] else [x])
  }

  /** The appended states are new, distinct, and together with the visited ones cover `xs`. */
  lemma {:induction false} NewFromFacts<S>(visited: set<S>, xs: seq<S>)
    ensures NoDup(NewFrom(visited, xs))
    ensures Elems(NewFrom(visited, xs)) == Elems(xs) - visited
  {
    if xs != [] {
      var front, x := xs[..|xs| - 1], xs[|xs| - 1];
      var y := NewFrom(visited, front);
      NewFromFacts(visited, front);
      assert xs == front + [x];
      assert Elems(xs) == Elems(front) + {x};
      if x !in visited && x !in front {
        assert Elems(y + [x]) == Elems(y) + {x};
        NoDupAppend(y, [x]);
      } else {
        assert NewFrom(visited, xs) == y;
        assert x in visited || x in Elems(front);
      }
    }
  }

  /** One more element of `xs`: appended exactly when it is not yet visited. */
  lemma NewFromStep<S>(visited0: set<S>, xs: seq<S>, k: nat, visited: set<S>)
    requires k < |xs| && visited == visited0 + Elems(xs[..k])
    ensures NewFrom(visited0, xs[..k + 1]) == NewFrom(visited0, xs[..k]) + (if xs[k] in visited then [] else [xs[k]])
    ensures visited0 + Elems(xs[..k + 1]) == visited + {xs[k]}
  {
    assert xs[..k + 1][..k] == xs[..k];
    assert xs[..k + 1] == xs[..k] + [xs[k]];
    assert Elems(xs[..k + 1]) == Elems(xs[..k]) + {xs[k]};
  }

  /**
   * The queue contents ever enqueued when the states of `order` have been taken from the
   * queue in turn: the initial state, then what each expansion appends.
   */
  function Discovered<S(==)>(sim: Simulator<S>, init: S, order: seq<S>): (r: seq<S>)
    ensures |r| >= 1 && r[0] == init
  {
    if order == [] then [init]
    else
      var d := Discovered(sim, init, order[..|order| - 1]);
      d + NewFrom(Elems(d), Expanded(sim, order[|order| - 1]))
  }

  /** Whatever a state of `order` leads to is among the discovered states. */
  lemma {:induction false} DiscoveredCovers<S>(sim: Simulator<S>, init: S, order: seq<S>, i: nat, k: nat)
    requires i < |order| && k < |Expanded(sim, order[i])|
    ensures Expanded(sim, order[i])[k] in Discovered(sim, init, order)
  {
    var front := order[..|order| - 1];
    var d := Discovered(sim, init, front);
    var x := Expanded(sim, order[i])[k];
    if i < |front| {
      DiscoveredCovers(sim, init, front, i, k);
      assert order[i] == front[i];
    } else {
      NewFromFacts(Elems(d), Expanded(sim, order[i]));
      if x !in d {
        assert x in Elems(NewFrom(Elems(d), Expanded(sim, order[i])));
      }
    }
    assert Discovered(sim, init, order) == d + NewFrom(Elems(d), Expanded(sim, order[|order| - 1]));
  }

  // ---------------------------------------------------------------------------
  // Reachability
  // ---------------------------------------------------------------------------

  /** A run of the search: every step goes from a non-goal state to one of its successors. */
  ghost predicate Run<S(!new)>(sim: Simulator<S>, p: seq<S>)
  {
    |p| >= 1 && forall k :: 0 <= k < |p| - 1 ==> p[k + 1] in Expanded(sim, p[k])
  }

  ghost predicate Reachable<S(!new)>(sim: Simulator<S>, init: S, s: S)
  {
    exists p :: Run(sim, p) && p[0] == init && p[|p| - 1] == s
  }

  lemma ReachInit<S(!new)>(sim: Simulator<S>, init: S)
    ensures Reachable(sim, init, init)
  {
    assert Run(sim, [init]);
  }

  lemma ReachStep<S(!new)>(sim: Simulator<S>, init: S, s: S, t: S)
    requires Reachable(sim, init, s) && t in Expanded(sim, s)
    ensures Reachable(sim, init, t)
  {
    var p :| Run(sim, p) && p[0] == init && p[|p| - 1] == s;
    var q := p + [t];
    assert q[..|p|] == p;
    assert Run(sim, q);
  }

  /** A set that holds the initial state and what its states lead to holds every reachable state. */
  lemma ReachClosed<S(!new)>(sim: Simulator<S>, init: S, visited: set<S>)
    requires init in visited
    requires forall s, k :: s in visited && 0 <= k < |Expanded(sim, s)| ==> Expanded(sim, s)[k] in visited
    ensures forall s :: Reachable(sim, init, s) ==> s in visited
  {
    forall s | Reachable(sim, init, s) ensures s in visited {
      var p :| Run(sim, p) && p[0] == init && p[|p| - 1] == s;
      RunInside(sim, visited, p, |p| - 1);
    }
  }

  lemma {:induction false} RunInside<S(!new)>(sim: Simulator<S>, visited: set<S>, p: seq<S>, n: nat)
    requires Run(sim, p) && p[0] in visited && n < |p|
    requires forall s, k :: s in visited && 0 <= k < |Expanded(sim, s)| ==> Expanded(sim, s)[k] in visited
    ensures p[n] in visited
  {
    if n > 0 {
      RunInside(sim, visited, p, n - 1);
      var xs := Expanded(sim, p[n - 1]);
      var k :| 0 <= k < |xs| && xs[k] == p[n];
    }
  }

  // ---------------------------------------------------------------------------
  // The exploration loop
  // ---------------------------------------------------------------------------

  /** The successors of every expanded (non-goal) state in `univ` stay in `univ`. */
  ghost predicate Closed<S(!new)>(sim: Simulator<S>, univ: set<S>)
  {
    forall s, k :: s in univ && 0 <= k < |Expanded(sim, s)| ==> Expanded(sim, s)[k] in univ
  }

  /**
   * What the exploration loop keeps once the states of `order` have been taken from the queue:
   * taken and waiting states are the discovery order, each state once, the visited set is
   * exactly them, and the goal and transition lines are those of `order`.
   */
  ghost predicate Exploring<S(!new)>(sim: Simulator<S>, name: string, init: S, univ: set<S>, order: seq<S>,
                                     queue: seq<S>, visited: set<S>, goals: seq<string>, transitions: seq<string>)
  {
    && order + queue == Discovered(sim, init, order)
    && NoDup(order + queue)
    && visited == Elems(order + queue) && visited <= univ
    && (forall s :: s in visited ==> Reachable(sim, init, s))
    && goals == GoalLines(sim, name, order)
    && transitions == Lines(Edges(sim, name, order))
  }

  lemma ExploringInit<S(!new)>(sim: Simulator<S>, name: string, init: S, univ: set<S>)
    requires init in univ
    ensures Exploring(sim, name, init, univ, [], [init], {init}, [], [])
  {
    ReachInit(sim, init);
    assert Elems([init]) == {init};
  }

  /** Taking the head of the queue and appending what its expansion discovers keeps the invariant. */
  lemma ExploringNext<S(!new)>(sim: Simulator<S>, name: string, init: S, univ: set<S>, order: seq<S>,
                               queue: seq<S>, visited: set<S>, goals: seq<string>, transitions: seq<string>,
                               queue': seq<S>, visited': set<S>, goals': seq<string>, transitions': seq<string>)
    requires Closed(sim, univ) && queue != []
    requires Exploring(sim, name, init, univ, order, queue, visited, goals, transitions)
    requires queue' == queue[1..] + NewFrom(visited, Expanded(sim, queue[0]))
    requires visited' == visited + Elems(Expanded(sim, queue[0]))
    requires goals' == goals + (if sim.isGoal(queue[0]) then [GoalFact(Id(sim, name, queue[0]))] else [])
    requires transitions' == transitions + Lines(Out(sim, name, queue[0]))
    ensures Exploring(sim, name, init, univ, order + [queue[0]], queue', visited', goals', transitions')
  {
    var current := queue[0];
    var order' := order + [current];
    var xs := Expanded(sim, current);
    var added := NewFrom(visited, xs);
    DiscoveredNext(sim, init, order, queue, visited);
    NewFromFacts(visited, xs);
    assert NoDup(order' + queue') by {
      NoDupAppend(order + queue, added);
    }
    ElemsAppend(order + queue, added);
    assert visited' <= univ by {
      assert current in univ;
    }
    assert forall s :: s in visited' ==> Reachable(sim, init, s) by {
      assert Reachable(sim, init, current);
      forall s | s in visited' && s !in visited ensures Reachable(sim, init, s) {
        ReachStep(sim, init, current, s);
      }
    }
    RecordsNext(sim, name, order, current);
    LinesAppend(Edges(sim, name, order), Out(sim, name, current));
  }

  /** Taking one more state from the queue adds its goal line or its transitions. */
  lemma RecordsNext<S>(sim: Simulator<S>, name: string, order: seq<S>, current: S)
    ensures Edges(sim, name, order + [current]) == Edges(sim, name, order) + Out(sim, name, current)
    ensures GoalLines(sim, name, order + [current])
         == GoalLines(sim, name, order) + (if sim.isGoal(current) then [GoalFact(Id(sim, name, current))] else [])
  {
    assert (order + [current])[..|order|] == order;
  }

  /** The queue after a turn continues the discovery order. */
  lemma DiscoveredNext<S>(sim: Simulator<S>, init: S, order: seq<S>, queue: seq<S>, visited: set<S>)
    requires queue != [] && order + queue == Discovered(sim, init, order) && visited == Elems(order + queue)
    ensures (order + [queue[0]]) + (queue[1..] + NewFrom(visited, Expanded(sim, queue[0])))
         == Discovered(sim, init, order + [queue[0]])
  {
    var order' := order + [queue[0]];
    var added := NewFrom(visited, Expanded(sim, queue[0]));
    assert order'[..|order|] == order && order'[|order|] == queue[0];
    assert Discovered(sim, init, order') == Discovered(sim, init, order) + added;
    assert queue == [queue[0]] + queue[1..];
    SeqAssoc(order + [queue[0]], queue[1..], added);
    SeqAssoc(order, [queue[0]], queue[1..]);
  }

  lemma LinesAppend(a: seq<(string, string)>, b: seq<(string, string)>)
    ensures Lines(a + b) == Lines(a) + Lines(b)
  {
  }

  /**
   * What the inner loop keeps after the first `k` applicable actions of `current`: their
   * successors are visited, the new ones queued in order, and their transitions recorded.
   */
  ghost predicate Expanding<S(!new)>(sim: Simulator<S>, name: string, current: S, k: nat, visited0: set<S>,
                                     queue0: seq<S>, transitions0: seq<string>,
                                     visited: set<S>, queue: seq<S>, transitions: seq<string>)
  {
    && !sim.isGoal(current) && k <= |sim.successors(current)|
    && visited == visited0 + Elems(sim.successors(current)[..k])
    && queue == queue0 + NewFrom(visited0, sim.successors(current)[..k])
    && transitions == transitions0 + Lines(Out(sim, name, current)[..k])
  }

  /**
   * One applicable action: the state it leads to, its transition line, and the
   * visited check that queues a state seen for the first time.
   */
  method RecordAction<S(==,!new)>(sim: Simulator<S>, name: string, current: S, k: nat, ghost visited0: set<S>,
                                  ghost queue0: seq<S>, ghost transitions0: seq<string>,
                                  visited: set<S>, queue: seq<S>, transitions: seq<string>)
    returns (visited': set<S>, queue': seq<S>, transitions': seq<string>)
    requires k < |sim.successors(current)|
    requires Expanding(sim, name, current, k, visited0, queue0, transitions0, visited, queue, transitions)
    ensures Expanding(sim, name, current, k + 1, visited0, queue0, transitions0, visited', queue', transitions')
    ensures transitions' == transitions + [TransitionFact((Id(sim, name, current), Id(sim, name, sim.successors(current)[k])))]
    ensures sim.successors(current)[k] in visited ==> visited' == visited && queue' == queue
    ensures sim.successors(current)[k] !in visited ==>
              visited' == visited + {sim.successors(current)[k]} && queue' == queue + [sim.successors(current)[k]]
  {
    var newState := sim.successors(current)[k];
    var currId, newId := Id(sim, name, current), Id(sim, name, newState);
    ExpandingNext(sim, name, current, k, visited0, queue0, transitions0, visited, queue, transitions);
    transitions' := transitions + [TransitionFact((currId, newId))];
    if newState !in visited {
      visited', queue' := visited + {newState}, queue + [newState];
    } else {
      visited', queue' := visited, queue;
    }
  }

  lemma ExpandingNext<S(!new)>(sim: Simulator<S>, name: string, current: S, k: nat, visited0: set<S>,
                               queue0: seq<S>, transitions0: seq<string>,
                               visited: set<S>, queue: seq<S>, transitions: seq<string>)
    requires k < |sim.successors(current)|
    requires Expanding(sim, name, current, k, visited0, queue0, transitions0, visited, queue, transitions)
    ensures var x := sim.successors(current)[k];
      Expanding(sim, name, current, k + 1, visited0, queue0, transitions0,
                if x in visited then visited else visited + {x}, if x in visited then queue else queue + [x],
                transitions + [TransitionFact((Id(sim, name, current), Id(sim, name, x)))])
  {
    var xs := sim.successors(current);
    var x := xs[k];
    NewFromStep(visited0, xs, k, visited);
    var visited' := if x in visited then visited else visited + {x};
    assert visited' == visited0 + Elems(xs[..k + 1]);
    var queue' := if x in visited then queue else queue + [x];
    assert queue' == queue0 + NewFrom(visited0, xs[..k + 1]);
    TransitionsStep(sim, name, current, k, transitions0, transitions);
  }

  /** The transition line of the `k`-th action extends the lines of the first `k`. */
  lemma TransitionsStep<S>(sim: Simulator<S>, name: string, current: S, k: nat, transitions0: seq<string>,
                           transitions: seq<string>)
    requires !sim.isGoal(current) && k < |sim.successors(current)|
    requires transitions == transitions0 + Lines(Out(sim, name, current)[..k])
    ensures transitions + [TransitionFact((Id(sim, name, current), Id(sim, name, sim.successors(current)[k])))]
         == transitions0 + Lines(Out(sim, name, current)[..k + 1])
  {
    var out := Out(sim, name, current);
    OutLinesStep(sim, name, current, k);
    assert out[k] == (Id(sim, name, current), Id(sim, name, sim.successors(current)[k]));
  }

  lemma ExpandingAll<S(!new)>(sim: Simulator<S>, name: string, current: S, visited0: set<S>,
                              queue0: seq<S>, transitions0: seq<string>,
                              visited: set<S>, queue: seq<S>, transitions: seq<string>)
    requires Expanding(sim, name, current, |sim.successors(current)|, visited0, queue0, transitions0,
                       visited, queue, transitions)
    ensures visited == visited0 + Elems(sim.successors(current))
    ensures queue == queue0 + NewFrom(visited0, sim.successors(current))
    ensures transitions == transitions0 + Lines(Out(sim, name, current))
  {
    assert sim.successors(current)[..|sim.successors(current)|] == sim.successors(current);
    assert Out(sim, name, current)[..|sim.successors(current)|] == Out(sim, name, current);
  }

  /**
   * Expands a non-goal state: records a transition for each applicable action, in order, and
   * queues the successors not visited yet.
   */
  method ExpandState<S(==,!new)>(sim: Simulator<S>, name: string, current: S, visited0: set<S>, queue0: seq<S>,
                            transitions0: seq<string>)
    returns (visited: set<S>, queue: seq<S>, transitions: seq<string>)
    requires !sim.isGoal(current)
    ensures visited == visited0 + Elems(sim.successors(current))
    ensures queue == queue0 + NewFrom(visited0, sim.successors(current))
    ensures transitions == transitions0 + Lines(Out(sim, name, current))
  {
    var acts := sim.successors(current);
    visited, queue, transitions := visited0, queue0, transitions0;
    assert Elems(acts[..0]) == {};
    for k := 0 to |acts|
      invariant Expanding(sim, name, current, k, visited0, queue0, transitions0, visited, queue, transitions)
    {
      visited, queue, transitions := RecordAction(sim, name, current, k, visited0, queue0, transitions0,
                                                  visited, queue, transitions);
    }
    ExpandingAll(sim, name, current, visited0, queue0, transitions0, visited, queue, transitions);
  }

  lemma OutLinesStep<S>(sim: Simulator<S>, name: string, current: S, k: nat)
    requires k < |Out(sim, name, current)|
    ensures Lines(Out(sim, name, current)[..k + 1])
         == Lines(Out(sim, name, current)[..k]) + [TransitionFact(Out(sim, name, current)[k])]
  {
  }

  /** One turn of the loop: `current = queue.pop(0)`, then a goal line or the expansion. */
  method VisitState<S(==,!new)>(sim: Simulator<S>, name: string, init: S, ghost univ: set<S>, ghost order: seq<S>,
                           queue: seq<S>, visited: set<S>, goals: seq<string>, transitions: seq<string>)
    returns (current: S, queue': seq<S>, visited': set<S>, goals': seq<string>, transitions': seq<string>)
    requires Closed(sim, univ) && queue != []
    requires Exploring(sim, name, init, univ, order, queue, visited, goals, transitions)
    ensures current == queue[0]
    ensures Exploring(sim, name, init, univ, order + [current], queue', visited', goals', transitions')
  {
    current := queue[0];
    var currId := Id(sim, name, current);
    queue' := queue[1..];
    if sim.isGoal(current) {
      goals' := goals + [GoalFact(currId)];
      visited', transitions' := visited, transitions;
      assert Out(sim, name, current) == [];
    } else {
      goals' := goals;
      visited', queue', transitions' := ExpandState(sim, name, current, visited, queue', transitions);
    }
    ExploringNext(sim, name, init, univ, order, queue, visited, goals, transitions, queue', visited', goals', transitions');
  }

  /** The loop has not yet taken every state of the universe. */
  lemma ExploringBound<S(!new)>(sim: Simulator<S>, name: string, init: S, univ: set<S>, order: seq<S>,
                                queue: seq<S>, visited: set<S>, goals: seq<string>, transitions: seq<string>)
    requires Exploring(sim, name, init, univ, order, queue, visited, goals, transitions)
    ensures |order + queue| <= |univ|
  {
    NoDupCard(order + queue);
    CardSubset(Elems(order + queue), univ);
  }

  /** When the queue is empty the visited states are exactly the reachable ones. */
  lemma ExploringDone<S(!new)>(sim: Simulator<S>, name: string, init: S, univ: set<S>, order: seq<S>,
                               visited: set<S>, goals: seq<string>, transitions: seq<string>)
    requires Exploring(sim, name, init, univ, order, [], visited, goals, transitions)
    ensures forall s :: s in visited <==> Reachable(sim, init, s)
  {
    assert order + [] == order;
    forall s, k | s in visited && 0 <= k < |Expanded(sim, s)| ensures Expanded(sim, s)[k] in visited {
      var i :| 0 <= i < |order| && order[i] == s;
      DiscoveredCovers(sim, init, order, i, k);
    }
    assert init in visited by {
      assert Discovered(sim, init, order)[0] == init;
    }
    ReachClosed(sim, init, visited);
  }

  /**
   * The exploration loop of both explorers. `order` is the order in which states leave the
   * queue. Each reachable state is enqueued once and taken once; goal lines and transition
   * lines are those of the states in that order. `univ` is a finite set of states closed
   * under the successors that holds the initial state: a finite state space.
   */
  method ExploreStates<S(==,!new)>(sim: Simulator<S>, name: string, init: S, ghost univ: set<S>)
    returns (order: seq<S>, visited: set<S>, goals: seq<string>, transitions: seq<string>, initLine: string)
    requires init in univ && Closed(sim, univ)
    ensures initLine == InitFact(Id(sim, name, init)) + " "
    ensures order == Discovered(sim, init, order) && NoDup(order)
    ensures visited == Elems(order)
    ensures forall s :: s in visited <==> Reachable(sim, init, s)
    ensures goals == GoalLines(sim, name, order)
    ensures transitions == Lines(Edges(sim, name, order))
  {
    var queue := [init];
    visited := {init};
    order, goals, transitions := [], [], [];
    ExploringInit(sim, name, init, univ);
    while queue != []
      invariant Exploring(sim, name, init, univ, order, queue, visited, goals, transitions)
      decreases |univ| - |order|
    {
      ExploringBound(sim, name, init, univ, order, queue, visited, goals, transitions);
      var current;
      current, queue, visited, goals, transitions := VisitState(sim, name, init, univ, order, queue, visited, goals, transitions);
      order := order + [current];
    }
    ExploringDone(sim, name, init, univ, order, visited, goals, transitions);
    initLine := InitFact(Id(sim, name, init)) + " ";
    assert order + [] == order;
  }

  // ---------------------------------------------------------------------------
  // The graphs for the distance computation
  // ---------------------------------------------------------------------------

  /** `forward_graph` after `forward_graph[a].append(b)` for each recorded pair `(a, b)` in turn. */
  function Forward(es: seq<(string, string)>): map<string, seq<string>>
  {
    if es == [] then map[]
    else
      var g, e := Forward(es[..|es| - 1]), es[|es| - 1];
      g[e.0 := Adj(g, e.0) + [e.1]]
  }

  /** `reverse_graph` after `reverse_graph[b].append(a)` for each recorded pair `(a, b)` in turn. */
  function Reverse(es: seq<(string, string)>): map<string, seq<string>>
  {
    if es == [] then map[]
    else
      var g, e := Reverse(es[..|es| - 1]), es[|es| - 1];
      g[e.1 := Adj(g, e.1) + [e.0]]
  }

  /** The targets of the pairs leaving `a`, in order and with repetitions. */
  function Targets(es: seq<(string, string)>, a: string): seq<string>
  {
    if es == [] then []
    else
      var e := es[|es| - 1];
      Targets(es[..|es| - 1], a) + (if e.0 == a then [e.1] else [])
  }

  /** The sources of the pairs entering `b`, in order and with repetitions. */
  function Sources(es: seq<(string, string)>, b: string): seq<string>
  {
    if es == [] then []
    else
      var e := es[|es| - 1];
      Sources(es[..|es| - 1], b) + (if e.1 == b then [e.0] else [])
  }

  /** The forward graph lists, for each identifier, the targets of its transitions. */
  lemma {:induction false} ForwardTargets(es: seq<(string, string)>, a: string)
    ensures Adj(Forward(es), a) == Targets(es, a)
  {
    if es != [] {
      ForwardTargets(es[..|es| - 1], a);
    }
  }

  /** The reverse graph lists, for each identifier, the sources of its transitions. */
  lemma {:induction false} ReverseSources(es: seq<(string, string)>, b: string)
    ensures Adj(Reverse(es), b) == Sources(es, b)
  {
    if es != [] {
      ReverseSources(es[..|es| - 1], b);
    }
  }

  lemma {:induction false} TargetsMember(es: seq<(string, string)>, a: string, x: string)
    ensures x in Targets(es, a) <==> (a, x) in es
  {
    if es != [] {
      var front := es[..|es| - 1];
      TargetsMember(front, a, x);
      assert es == front + [es[|es| - 1]];
    }
  }

  lemma {:induction false} SourcesMember(es: seq<(string, string)>, b: string, x: string)
    ensures x in Sources(es, b) <==> (x, b) in es
  {
    if es != [] {
      var front := es[..|es| - 1];
      SourcesMember(front, b, x);
      assert es == front + [es[|es| - 1]];
    }
  }

  /** Both graphs are mirror images of the transition list. */
  lemma GraphsMirror(es: seq<(string, string)>, u: string, v: string)
    ensures v in Adj(Forward(es), u) <==> (u, v) in es
    ensures u in Adj(Reverse(es), v) <==> (u, v) in es
  {
    ForwardTargets(es, u);
    TargetsMember(es, u, v);
    ReverseSources(es, v);
    SourcesMember(es, v, u);
  }

  lemma {:induction false} TargetsAppend(a: seq<(string, string)>, b: seq<(string, string)>, x: string)
    ensures Targets(a + b, x) == Targets(a, x) + Targets(b, x)
    decreases |b|
  {
    if b == [] {
      assert a + b == a;
    } else {
      var front := b[..|b| - 1];
      assert (a + b)[..|a + b| - 1] == a + front;
      assert (a + b)[|a + b| - 1] == b[|b| - 1];
      TargetsAppend(a, front, x);
    }
  }

  /** The pairs leaving `a` have the listed targets; none leaves another identifier. */
  lemma {:induction false} TargetsPairs(a: string, ys: seq<string>, b: string)
    ensures Targets(Pairs(a, ys), b) == if a == b then ys else []
  {
    if ys != [] {
      var front := ys[..|ys| - 1];
      TargetsPairs(a, front, b);
      assert Pairs(a, ys)[..|ys| - 1] == Pairs(a, front);
      assert ys == front + [ys[|ys| - 1]];
    }
  }

  /** Two states of `states` with one hash are one state. */
  ghost predicate HashInjective<S(!new)>(sim: Simulator<S>, states: set<S>)
  {
    forall a, b :: a in states && b in states && sim.hash(a) == sim.hash(b) ==> a == b
  }

  /**
   * The forward graph entry of a visited state lists one target per applicable action, in
   * action order and with duplicates, and nothing for a goal state; distinct states must have
   * distinct hashes for their identifiers to differ.
   */
  lemma ForwardOfState<S(!new)>(sim: Simulator<S>, name: string, order: seq<S>, s: S)
    requires NoDup(order) && s in order && HashInjective(sim, Elems(order))
    ensures Adj(Forward(Edges(sim, name, order)), Id(sim, name, s)) == Ids(sim, name, Expanded(sim, s))
  {
    assert Elems(order) + {s} == Elems(order);
    ForwardTargets(Edges(sim, name, order), Id(sim, name, s));
    TargetsOfState(sim, name, order, s);
  }

  lemma {:induction false} TargetsOfState<S(!new)>(sim: Simulator<S>, name: string, order: seq<S>, s: S)
    requires NoDup(order) && HashInjective(sim, Elems(order) + {s})
    ensures Targets(Edges(sim, name, order), Id(sim, name, s)) == if s in order then Ids(sim, name, Expanded(sim, s)) else []
  {
    if order != [] {
      var front, t := order[..|order| - 1], order[|order| - 1];
      var es, out, a := Edges(sim, name, front), Out(sim, name, t), Id(sim, name, s);
      SplitLast(order);
      TargetsOfState(sim, name, front, s);
      TargetsAppend(es, out, a);
      TargetsPairs(Id(sim, name, t), Ids(sim, name, Expanded(sim, t)), a);
      if t != s {
        StateIdInjective(name, sim.hash(t), sim.hash(s));
        assert s in order <==> s in front;
      }
    }
  }

  /** The last element of a sequence without repetitions is not among the others. */
  lemma SplitLast<T>(xs: seq<T>)
    requires xs != [] && NoDup(xs)
    ensures xs == xs[..|xs| - 1] + [xs[|xs| - 1]]
    ensures Elems(xs) == Elems(xs[..|xs| - 1]) + {xs[|xs| - 1]}
    ensures NoDup(xs[..|xs| - 1]) && xs[|xs| - 1] !in xs[..|xs| - 1]
  {
    var front := xs[..|xs| - 1];
    assert xs == front + [xs[|xs| - 1]];
    forall i | 0 <= i < |front| ensures front[i] != xs[|xs| - 1] {
      assert xs[i] == front[i];
    }
  }

  /** A path to a goal in the reverse graph is a chain of recorded transitions ending in a goal. */
  lemma PathToGoalOfEdges(es: seq<(string, string)>, goals: seq<string>, p: seq<string>)
    ensures PathToGoal(Reverse(es), goals, p)
        <==> |p| >= 1 && p[|p| - 1] in goals && forall k :: 0 <= k < |p| - 1 ==> (p[k], p[k + 1]) in es
  {
    var rev := Reverse(es);
    if |p| >= 1 {
      forall k | 0 <= k < |p| - 1 ensures p[k] in Adj(rev, p[k + 1]) <==> (p[k], p[k + 1]) in es {
        GraphsMirror(es, p[k], p[k + 1]);
      }
    }
  }

  lemma GraphsStep(es: seq<(string, string)>, e: (string, string))
    ensures Forward(es + [e]) == Forward(es)[e.0 := Adj(Forward(es), e.0) + [e.1]]
    ensures Reverse(es + [e]) == Reverse(es)[e.1 := Adj(Reverse(es), e.1) + [e.0]]
  {
    assert (es + [e])[..|es|] == es;
  }

  /**
   * The inner loop of the explorer with distances: besides the transition line, each pair is
   * appended to `forward_graph[curr_id]` and to `reverse_graph[new_id]`.
   */
  method ExpandStateWithGraphs<S(==,!new)>(sim: Simulator<S>, name: string, current: S, visited0: set<S>,
                                           queue0: seq<S>, transitions0: seq<string>, ghost es0: seq<(string, string)>,
                                           forward0: map<string, seq<string>>, reverse0: map<string, seq<string>>)
    returns (visited: set<S>, queue: seq<S>, transitions: seq<string>,
             forward: map<string, seq<string>>, reverse: map<string, seq<string>>)
    requires !sim.isGoal(current) && forward0 == Forward(es0) && reverse0 == Reverse(es0)
    ensures visited == visited0 + Elems(sim.successors(current))
    ensures queue == queue0 + NewFrom(visited0, sim.successors(current))
    ensures transitions == transitions0 + Lines(Out(sim, name, current))
    ensures forward == Forward(es0 + Out(sim, name, current)) && reverse == Reverse(es0 + Out(sim, name, current))
  {
    var acts := sim.successors(current);
    var currId := Id(sim, name, current);
    ghost var out := Out(sim, name, current);
    visited, queue, transitions, forward, reverse := visited0, queue0, transitions0, forward0, reverse0;
    assert Elems(acts[..0]) == {};
    assert es0 + out[..0] == es0;
    for k := 0 to |acts|
      invariant Expanding(sim, name, current, k, visited0, queue0, transitions0, visited, queue, transitions)
      invariant forward == Forward(es0 + out[..k]) && reverse == Reverse(es0 + out[..k])
    {
      var newId := Id(sim, name, acts[k]);
      GraphsStepAt(es0, out, k);
      visited, queue, transitions := RecordAction(sim, name, current, k, visited0, queue0, transitions0,
                                                  visited, queue, transitions);
      forward := forward[currId := Adj(forward, currId) + [newId]];
      reverse := reverse[newId := Adj(reverse, newId) + [currId]];
    }
    ExpandingAll(sim, name, current, visited0, queue0, transitions0, visited, queue, transitions);
    assert out[..|acts|] == out;
  }

  lemma GraphsStepAt(es0: seq<(string, string)>, out: seq<(string, string)>, k: nat)
    requires k < |out|
    ensures Forward(es0 + out[..k + 1]) == Forward(es0 + out[..k])[out[k].0 := Adj(Forward(es0 + out[..k]), out[k].0) + [out[k].1]]
    ensures Reverse(es0 + out[..k + 1]) == Reverse(es0 + out[..k])[out[k].1 := Adj(Reverse(es0 + out[..k]), out[k].1) + [out[k].0]]
  {
    assert es0 + out[..k + 1] == (es0 + out[..k]) + [out[k]];
    GraphsStep(es0 + out[..k], out[k]);
  }

  /** `forward_graph` and `reverse_graph` hold the transitions recorded while taking `order`. */
  ghost predicate GraphsOf<S>(sim: Simulator<S>, name: string, order: seq<S>, forward: map<string, seq<string>>,
                              reverse: map<string, seq<string>>)
  {
    forward == Forward(Edges(sim, name, order)) && reverse == Reverse(Edges(sim, name, order))
  }

  /** The graphs after one turn: unchanged for a goal, else extended by the pairs of `current`. */
  lemma GraphsNext<S>(sim: Simulator<S>, name: string, order: seq<S>, current: S,
                      forward: map<string, seq<string>>, reverse: map<string, seq<string>>,
                      forward': map<string, seq<string>>, reverse': map<string, seq<string>>)
    requires GraphsOf(sim, name, order, forward, reverse)
    requires sim.isGoal(current) ==> forward' == forward && reverse' == reverse
    requires !sim.isGoal(current) ==>
               forward' == Forward(Edges(sim, name, order) + Out(sim, name, current))
               && reverse' == Reverse(Edges(sim, name, order) + Out(sim, name, current))
    ensures GraphsOf(sim, name, order + [current], forward', reverse')
  {
    RecordsNext(sim, name, order, current);
    if sim.isGoal(current) {
      assert Out(sim, name, current) == [];
      assert Edges(sim, name, order) + Out(sim, name, current) == Edges(sim, name, order);
    }
  }

  /** One turn of the loop of the explorer with distances. */
  method VisitStateWithGraphs<S(==,!new)>(sim: Simulator<S>, name: string, init: S, ghost univ: set<S>,
                                          ghost order: seq<S>, queue: seq<S>, visited: set<S>, goals: seq<string>,
                                          transitions: seq<string>, forward: map<string, seq<string>>,
                                          reverse: map<string, seq<string>>)
    returns (current: S, queue': seq<S>, visited': set<S>, goals': seq<string>, transitions': seq<string>,
             forward': map<string, seq<string>>, reverse': map<string, seq<string>>)
    requires Closed(sim, univ) && queue != []
    requires Exploring(sim, name, init, univ, order, queue, visited, goals, transitions)
    requires GraphsOf(sim, name, order, forward, reverse)
    ensures current == queue[0]
    ensures Exploring(sim, name, init, univ, order + [current], queue', visited', goals', transitions')
    ensures GraphsOf(sim, name, order + [current], forward', reverse')
  {
    current := queue[0];
    if sim.isGoal(current) {
      goals' := GoalTurn(sim, name, init, univ, order, queue, visited, goals, transitions);
      queue', visited', transitions', forward', reverse' := queue[1..], visited, transitions, forward, reverse;
      GraphsNext(sim, name, order, current, forward, reverse, forward', reverse');
    } else {
      queue', visited', transitions', forward', reverse' :=
        ExpandTurnWithGraphs(sim, name, init, univ, order, queue, visited, goals, transitions, forward, reverse);
      goals' := goals;
    }
  }

  /** A goal taken from the queue: its goal line is recorded and nothing else changes. */
  method GoalTurn<S(==,!new)>(sim: Simulator<S>, name: string, init: S, ghost univ: set<S>, ghost order: seq<S>,
                              queue: seq<S>, visited: set<S>, goals: seq<string>, transitions: seq<string>)
    returns (goals': seq<string>)
    requires Closed(sim, univ) && queue != [] && sim.isGoal(queue[0])
    requires Exploring(sim, name, init, univ, order, queue, visited, goals, transitions)
    ensures goals' == goals + [GoalFact(Id(sim, name, queue[0]))]
    ensures Exploring(sim, name, init, univ, order + [queue[0]], queue[1..], visited, goals', transitions)
  {
    var currId := Id(sim, name, queue[0]);
    goals' := goals + [GoalFact(currId)];
    assert Out(sim, name, queue[0]) == [];
    assert queue[1..] + NewFrom(visited, Expanded(sim, queue[0])) == queue[1..];
    ExploringNext(sim, name, init, univ, order, queue, visited, goals, transitions, queue[1..], visited, goals', transitions);
  }

  /** A non-goal taken from the queue: it is expanded, and its pairs are added to both graphs. */
  method ExpandTurnWithGraphs<S(==,!new)>(sim: Simulator<S>, name: string, init: S, ghost univ: set<S>,
                                          ghost order: seq<S>, queue: seq<S>, visited: set<S>, goals: seq<string>,
                                          transitions: seq<string>, forward: map<string, seq<string>>,
                                          reverse: map<string, seq<string>>)
    returns (queue': seq<S>, visited': set<S>, transitions': seq<string>,
             forward': map<string, seq<string>>, reverse': map<string, seq<string>>)
    requires Closed(sim, univ) && queue != [] && !sim.isGoal(queue[0])
    requires Exploring(sim, name, init, univ, order, queue, visited, goals, transitions)
    requires GraphsOf(sim, name, order, forward, reverse)
    ensures Exploring(sim, name, init, univ, order + [queue[0]], queue', visited', goals, transitions')
    ensures GraphsOf(sim, name, order + [queue[0]], forward', reverse')
  {
    var current := queue[0];
    visited', queue', transitions', forward', reverse' :=
      ExpandStateWithGraphs(sim, name, current, visited, queue[1..], transitions, Edges(sim, name, order), forward, reverse);
    GraphsNext(sim, name, order, current, forward, reverse, forward', reverse');
    ExploringNext(sim, name, init, univ, order, queue, visited, goals, transitions, queue', visited', goals, transitions');
  }

  /**
   * The exploration loop of the explorer with distances: the same search, also building the
   * forward and reverse graphs of the recorded transitions.
   */
  method ExploreWithGraphs<S(==,!new)>(sim: Simulator<S>, name: string, init: S, ghost univ: set<S>)
    returns (order: seq<S>, visited: set<S>, goals: seq<string>, transitions: seq<string>,
             forward: map<string, seq<string>>, reverse: map<string, seq<string>>)
    requires init in univ && Closed(sim, univ)
    ensures order == Discovered(sim, init, order) && NoDup(order)
    ensures visited == Elems(order)
    ensures forall s :: s in visited <==> Reachable(sim, init, s)
    ensures goals == GoalLines(sim, name, order)
    ensures transitions == Lines(Edges(sim, name, order))
    ensures forward == Forward(Edges(sim, name, order)) && reverse == Reverse(Edges(sim, name, order))
  {
    var queue := [init];
    visited := {init};
    order, goals, transitions := [], [], [];
    forward, reverse := map[], map[];
    ExploringInit(sim, name, init, univ);
    while queue != []
      invariant Exploring(sim, name, init, univ, order, queue, visited, goals, transitions)
      invariant GraphsOf(sim, name, order, forward, reverse)
      decreases |univ| - |order|
    {
      ExploringBound(sim, name, init, univ, order, queue, visited, goals, transitions);
      var current;
      current, queue, visited, goals, transitions, forward, reverse :=
        VisitStateWithGraphs(sim, name, init, univ, order, queue, visited, goals, transitions, forward, reverse);
      order := order + [current];
    }
    ExploringDone(sim, name, init, univ, order, visited, goals, transitions);
    assert order + [] == order;
  }

  /**
   * The explorer with distances end to end: explore, read the goal identifiers back from the
   * goal lines, and label every identifier with its distance to the nearest goal over the
   * reverse graph. A label is the length of a shortest chain of recorded transitions to a goal.
   */
  method StateSpaceWithDistance<S(==,!new)>(sim: Simulator<S>, name: string, init: S, ghost univ: set<S>)
    returns (order: seq<S>, goals: seq<string>, transitions: seq<string>, goalIds: seq<string>,
             dist: map<string, nat>, initLine: string)
    requires init in univ && Closed(sim, univ)
    ensures initLine == InitFact(Id(sim, name, init))
    ensures order == Discovered(sim, init, order) && NoDup(order)
    ensures forall s :: s in order <==> Reachable(sim, init, s)
    ensures goals == GoalLines(sim, name, order) && transitions == Lines(Edges(sim, name, order))
    ensures goalIds == GoalStateIds(sim, name, order)
    ensures forall g :: g in goalIds ==> g in dist && dist[g] == 0
    ensures forall v :: v in dist ==> Reaches(Reverse(Edges(sim, name, order)), goalIds, v, dist[v])
    ensures forall v, n :: Reaches(Reverse(Edges(sim, name, order)), goalIds, v, n) ==> v in dist && dist[v] <= n
  {
    var visited, forward, reverse;
    order, visited, goals, transitions, forward, reverse := ExploreWithGraphs(sim, name, init, univ);
    goalIds := GoalIds(goals);
    GoalIdsOfGoalLines(sim, name, order);
    dist := LabelDistances(goalIds, reverse);
    initLine := InitFact(Id(sim, name, init));
  }
}
