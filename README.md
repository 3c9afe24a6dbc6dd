# Planning state spaces, goal distances and derived roles — a verified model

The repository takes a planning problem through an answer-set pipeline. It has six scripts:

- **The two state-space explorers** (`Generate_ASP_State_Space.py`, `Generate_ASP_State_Space_with_distance.py`):
  - walk the reachable states breadth first from the initial state;
  - give every state a quoted identifier built from the problem name and the state's hash;
  - write a `transition(...)` fact for every applicable action of a non-goal state, and a `goal(...)` fact for every goal state.
  - The second explorer also builds the forward and reverse graphs of the transitions. Its reverse breadth-first search labels every state that can reach a goal with its distance to the nearest one.
- **The role generator** (`generate_roles_procedurally.py`):
  - takes the union over all states of every binary predicate;
  - closes that family under intersection, composition and transitive closure, naming each new pair-set;
  - then evaluates every definition, memoised, against each state's own relations.
- **The answer filters:**
  - `last_answer_set.py` keeps the line after the last `Answer` header of the solver's output;
  - `Generate_Roles.py` extracts the `ANSWER` block, renames each matched relation after its role and derives the output file name.
- **The table printer** (`asp2table.py`):
  - cleans the tokens of the parsed facts;
  - orders the states along the `good/2` chain, or with the fallback;
  - keeps the concept facts of the last time step;
  - builds the rows of its second and third tables, and computes the column widths.

Each Dafny module follows one piece of that structure:

- **`Text`**: the string and ordering vocabulary. It covers `strip`, `split`, `join`, decimal numerals and Python's code-point order on strings, with `SortedSeqOf` as the meaning of `sorted(set)`.
- **`Relations`**: `compose` and `transitive_closure`. Each loop is a method proved equal to a specification function, and the algebra of closure is proved as lemmas.
- **`Roles`**:
  - the definitions `(op, arg1, arg2)` as a datatype;
  - their meaning `Eval` over one state's relations;
  - the memo of `compute_set` as a class with a mutable `table`;
  - the union of the predicates, and the per-state evaluation loop.
- **`RoleGeneration`**: the fixpoint loop. Names are sorted, then intersections, compositions and closures are proposed. Accepted candidates get fresh names with the `rel_counter` suffix. The loop stops when a pass adds nothing.
- **`StateIdentity`**: `get_state_id`, the `goal(...)` fact with its identifier slice, and `predicate_to_tuple`.
- **`Explorer`**: both exploration loops over an abstract simulator, done step by step with the queue, the visited set and the output lists.
- **`GoalDistance`**: the reverse breadth-first labelling and its shortest-distance properties.
- **`AnswerText`**: the two line-scanning filters.
- **`Tables`**: `clean_token`, `compute_col_widths`, `fetch_param` and the rule cell. It also covers:
  - the successor map and the state ordering;
  - the `LAST_T` filter;
  - the rows of the second and third tables.

Loops of the source are `method`s with loop invariants. Each is proved equal to a specification function, or to the property the source promises. The pure helpers are functions with lemmas. The simulator is a value of a datatype holding three function-typed fields: `successors`, `isGoal` and `hash`.

## Model

| member | source | states |
|---|---|---|
| Text.StripIdempotent | last_answer_set.py:9 | stripping an already stripped line changes nothing |
| Text.StripShape | last_answer_set.py:9 | a stripped string is empty or begins and ends with a non-blank |
| Text.StripPadded | asp2table.py:35 | stripping removes exactly the blank padding around a text whose ends are not blank |
| Text.SplitJoin | Generate_ASP_State_Space.py:20 | splitting the `c`-join of pieces that do not contain `c` gives back the pieces |
| Text.JoinSplit | Generate_Roles.py:52 | joining the pieces of a split with the separator gives back the text |
| Text.NatToString | Generate_ASP_State_Space.py:76 | the decimal text of a number is non-empty, all digits, without a leading zero |
| Text.ParseNatToString | Generate_ASP_State_Space.py:76 | reading the decimal text of a number back gives the number |
| Text.NatToStringInjective | Generate_ASP_State_Space.py:76 | different numbers have different decimal texts |
| Text.LexTransitive | generate_roles_procedurally.py:82 | string order is transitive |
| Text.LexTotal | generate_roles_procedurally.py:82 | any two different strings are ordered one way |
| Text.SortedSeqOf | generate_roles_procedurally.py:82 | `sorted(s)` is strictly increasing, holds exactly the elements of `s`, and has `|s|` entries |
| Text.SortedUnique | generate_roles_procedurally.py:82 | two strictly increasing sequences with the same elements are equal, so the sorted order is unique |
| Text.SortStrings | generate_roles_procedurally.py:82 | the sorting method returns exactly `sorted(s)` |
| Relations.Compose | generate_roles_procedurally.py:5-11 | the nested loops return exactly the composition of `rel1` and `rel2` |
| Relations.ComposeOne | generate_roles_procedurally.py:8-10 | the inner loop adds exactly the compositions of its one left pair |
| Relations.ComposedMembers | generate_roles_procedurally.py:5-11 | `(x, z)` is in the composition iff some `y` has `(x, y)` in `rel1` and `(y, z)` in `rel2` |
| Relations.ComposeExample | generate_roles_procedurally.py:5-11 | `{(1,2)}` composed with `{(2,3)}` is `{(1,3)}`; in the other order it is empty |
| Relations.ComposedMonotone | generate_roles_procedurally.py:5-11 | composition grows with either operand |
| Relations.TransitiveClosure | generate_roles_procedurally.py:13-25 | the `while changed` loop returns exactly the closure of `rel` and terminates |
| Relations.NewPairs | generate_roles_procedurally.py:18-23 | one pass collects exactly the one-step extensions of `reachable` by `rel` not yet in it; `changed` iff there are any |
| Relations.ExtendFrom | generate_roles_procedurally.py:20-23 | the inner loop adds exactly the new extensions of one pair and sets `changed` iff there are any |
| Relations.ClosurePassStep | generate_roles_procedurally.py:16-24 | a pass finds no new pair iff `reachable` is closed under extension by `rel` |
| Relations.PassWithin | generate_roles_procedurally.py:24 | a pass never adds a pair outside the closure |
| Relations.Closure | generate_roles_procedurally.py:13-25 | the closure contains `rel` and is closed under extending a pair by one `rel` step |
| Relations.ClosureLeast | generate_roles_procedurally.py:13-25 | the closure lies inside every superset of `rel` closed under extension |
| Relations.ClosurePaths | generate_roles_procedurally.py:13-25 | `(x, z)` is in the closure iff a path of `rel` steps leads from `x` to `z`, so a reflexive pair appears only on a cycle |
| Relations.ClosureExample | generate_roles_procedurally.py:13-25 | the closure of `{(a,b)}` is itself, and `(a,a)` is in the closure of the 2-cycle `{(a,b),(b,a)}` |
| Relations.ClosureInBox | generate_roles_procedurally.py:13-25 | every pair of the closure goes from the domain of `rel` to its range |
| Relations.ClosureTransitive | generate_roles_procedurally.py:13-25 | the closure is transitive |
| Relations.ClosureIdempotent | generate_roles_procedurally.py:13-25 | the closure of the closure is the closure |
| Relations.ClosureMonotone | generate_roles_procedurally.py:13-25 | a larger relation has a larger closure |
| Roles.EvalRankIndependent | generate_roles_procedurally.py:27-45 | the meaning of a definition does not depend on the ranking that shows the definitions well founded |
| Roles.EvalExtend | generate_roles_procedurally.py:112-119 | adding definitions under new names leaves the meaning of every old name unchanged |
| Roles.EvalMonotone | generate_roles_procedurally.py:27-45 | more primitive pairs give at least as many derived pairs |
| Roles.Memo.constructor | generate_roles_procedurally.py:130 | a fresh memo is empty |
| Roles.MemoAdd | generate_roles_procedurally.py:44 | storing a name's meaning keeps every memo entry equal to its name's meaning |
| Roles.ComputeSet | generate_roles_procedurally.py:27-45 | `compute_set` returns the definition's meaning (a primitive is the state's relation or empty; `inter`, `compose` and `tc` apply the operator to their operands' results) and stores it in the memo; entries already there never change, and a hit leaves the memo as it was |
| Roles.UnionRels | generate_roles_procedurally.py:70 | the union has one entry per binary predicate |
| Roles.UnionMembers | generate_roles_procedurally.py:70 | a pair is in a predicate's union iff some state has it for that predicate |
| Roles.StateWithinUnion | generate_roles_procedurally.py:70 | each state's relations lie inside the union |
| Roles.EvaluateState | generate_roles_procedurally.py:129-136 | the loop over the sorted names keeps, in order, exactly the names whose meaning in the state is non-empty |
| Roles.StateBlocksSound | generate_roles_procedurally.py:131-136 | every block is a non-empty meaning of a listed name in that state |
| Roles.StateBlocksComplete | generate_roles_procedurally.py:131-136 | every listed name with a non-empty meaning in the state gets its block |
| Roles.EvaluateStates | generate_roles_procedurally.py:127-136 | the output is the blocks of every state in sorted order, each over all definitions in sorted order |
| Roles.BlocksWithinUnion | generate_roles_procedurally.py:127-136 | every output block is the name's meaning in its state; it is non-empty and lies within the name's meaning over the union |
| Roles.BlocksComplete | generate_roles_procedurally.py:127-136 | every state and definition with a non-empty meaning appears in the output |
| RoleGeneration.OfferOf | generate_roles_procedurally.py:88-93 | a proposal yields an item iff its pair-set is non-empty and not yet a key of `set_to_name` |
| RoleGeneration.InterItems | generate_roles_procedurally.py:84-93 | every intersection item is accepted; none at all means every pair `i <= j` is blocked |
| RoleGeneration.CompItems | generate_roles_procedurally.py:95-102 | every composition item is accepted; none means every ordered pair is blocked |
| RoleGeneration.TcItems | generate_roles_procedurally.py:104-110 | every closure item is accepted; none means every closure is blocked |
| RoleGeneration.InterOffer | generate_roles_procedurally.py:86-93 | the body of the intersection loop appends exactly the offer of `names[i] & names[j]` |
| RoleGeneration.InterLoop | generate_roles_procedurally.py:85-93 | the inner loop over `j >= i` produces that row's intersection items |
| RoleGeneration.Intersections | generate_roles_procedurally.py:84-93 | the intersection loops produce exactly the specified intersection items |
| RoleGeneration.CompOffer | generate_roles_procedurally.py:97-102 | the body of the composition loop appends exactly the offer of the composition |
| RoleGeneration.CompLoop | generate_roles_procedurally.py:96-102 | the inner loop produces that row's composition items |
| RoleGeneration.Compositions | generate_roles_procedurally.py:95-102 | the composition loops produce exactly the specified composition items |
| RoleGeneration.TcOffer | generate_roles_procedurally.py:105-110 | the body of the closure loop appends exactly the offer of the closure |
| RoleGeneration.Closures | generate_roles_procedurally.py:104-110 | the closure loop produces exactly the specified closure items |
| RoleGeneration.Candidates | generate_roles_procedurally.py:81-110 | `new_items` is the intersections, then the compositions, then the closures |
| RoleGeneration.CandidatesAccepted | generate_roles_procedurally.py:81-110 | every item of `new_items` is non-empty, new, named as proposed, and built from the pass's snapshot of names |
| RoleGeneration.CandidateUnblocked | generate_roles_procedurally.py:81-110 | an accepted item means the current family is not closed |
| RoleGeneration.CandidatesEmpty | generate_roles_procedurally.py:81-110 | `new_items` is empty iff no intersection, composition or closure yields a non-empty pair-set missing from `set_to_name` |
| RoleGeneration.SuffixedInjective | generate_roles_procedurally.py:115 | different counters give different suffixed names |
| RoleGeneration.SuffixedAtLeast | generate_roles_procedurally.py:115 | a suffixed name is one of those tried from counter `c` on iff its counter is at least `c` |
| RoleGeneration.SuffixExactly | generate_roles_procedurally.py:115 | a name tried from counter `c` but not from `c + 1` is the name with suffix `c` |
| RoleGeneration.Probe | generate_roles_procedurally.py:113-116 | the rename loop ends on a free name: the proposal if free, else the first free suffix; every suffix before it was taken |
| RoleGeneration.FreshName | generate_roles_procedurally.py:113-116 | the `while name in name_to_set` loop returns the specified name and the advanced counter |
| RoleGeneration.FreshNameSpec | generate_roles_procedurally.py:113-116 | the chosen name is not taken; a free proposal is kept with the counter unchanged; otherwise the counter advances past the suffix used |
| RoleGeneration.PrimitiveInSquare | generate_roles_procedurally.py:73 | every primitive union lies inside the square of the objects |
| RoleGeneration.ComposedInSquare | generate_roles_procedurally.py:97 | composing relations inside the square stays inside it |
| RoleGeneration.ClosureInSquare | generate_roles_procedurally.py:105 | the closure of a relation inside the square stays inside it |
| RoleGeneration.ValueInSquare | generate_roles_procedurally.py:88-105 | every candidate pair-set lies inside the square of the objects |
| RoleGeneration.InitialIndex | generate_roles_procedurally.py:74 | every union is a key of `set_to_name`, and every key maps to some predicate whose union is exactly that key |
| RoleGeneration.InitialConsistent | generate_roles_procedurally.py:73-75 | the starting tables are consistent: primitives denote their unions, and the index agrees with `name_to_set` |
| RoleGeneration.AddWellFormed | generate_roles_procedurally.py:119 | a new definition over existing names, ranked above them, keeps the definitions well founded |
| RoleGeneration.AddFaithful | generate_roles_procedurally.py:117-119 | the stored pair-set of a new name is its definition's meaning over the union |
| RoleGeneration.AddIndexed | generate_roles_procedurally.py:117-118 | after `set_to_name[fs] = name`, every key still names a relation with exactly that pair-set |
| RoleGeneration.AddInSquare | generate_roles_procedurally.py:117 | adding a candidate keeps every relation inside the square |
| RoleGeneration.IndexBound | generate_roles_procedurally.py:77-120 | the keys of `set_to_name` are subsets of the square, so there are finitely many |
| RoleGeneration.AddItems | generate_roles_procedurally.py:112-120 | the add loop enters every item in order; `changed` iff there was an item |
| RoleGeneration.EnterIs | generate_roles_procedurally.py:113-119 | entering an item adds its pair-set, index entry and definition under a fresh name |
| RoleGeneration.AddAllFaithful | generate_roles_procedurally.py:112-120 | after the add loop every name's pair-set is still its meaning over the union |
| RoleGeneration.AddAllIndexed | generate_roles_procedurally.py:112-120 | after the add loop `name_to_set[set_to_name[fs]] == fs` for every key |
| RoleGeneration.AddAllPrimitives | generate_roles_procedurally.py:112-120 | the add loop defines no new primitive and keeps definitions and relations on the same names |
| RoleGeneration.AddAllInSquare | generate_roles_procedurally.py:112-120 | the add loop keeps every relation inside the square |
| RoleGeneration.AddAllConsistent | generate_roles_procedurally.py:112-120 | the add loop keeps the tables consistent, with ranks below a bound that grows by the number of items |
| RoleGeneration.EnterExtends | generate_roles_procedurally.py:117 | entering an item changes no existing name |
| RoleGeneration.AddAllIndexes | generate_roles_procedurally.py:112-120 | the add loop changes no existing name, removes no key, and indexes every item's pair-set |
| RoleGeneration.SortedIndexable | generate_roles_procedurally.py:82 | every sorted name has a relation |
| RoleGeneration.PassItems | generate_roles_procedurally.py:80-120 | a pass adds the accepted candidates over the sorted snapshot of names; with none, the family is closed |
| RoleGeneration.AddAllOutcome | generate_roles_procedurally.py:112-120 | the add loop keeps consistency and existing names; with an item, `set_to_name` gets strictly more keys |
| RoleGeneration.PassConsistent | generate_roles_procedurally.py:79-120 | a pass keeps consistency and old names; a changed pass adds a key; an unchanged pass changes nothing and leaves the family closed |
| RoleGeneration.Pass | generate_roles_procedurally.py:80-120 | one iteration of the `while changed` loop computes the specified pass |
| RoleGeneration.Step | generate_roles_procedurally.py:80-120 | one iteration is exactly the specified pass (`PassSpec`), keeps the tables consistent, adds a key when changed, and leaves a closed family when not |
| RoleGeneration.FixpointTurn | generate_roles_procedurally.py:79-120 | one turn of `while changed` keeps the tables consistent and extending the unions; a changing turn grows the index, which stays within the finite bound, and a turn with no change leaves a closed family |
| RoleGeneration.GenerateDefinitions | generate_roles_procedurally.py:72-120 | the fixpoint loop terminates with consistent tables that extend the unions, and no operator yields a missing non-empty pair-set |
| StateIdentity.StateId | Generate_ASP_State_Space.py:73-79 | an identifier starts with `"s_<problem>_` and ends with a quote |
| StateIdentity.HashTagShape | Generate_ASP_State_Space_with_distance.py:29-32 | the tag is `p` for a hash that is not negative, `m` otherwise, followed by digits; it holds no `-` |
| StateIdentity.DecodeHashTag | Generate_ASP_State_Space_with_distance.py:29-32 | the tag decodes back to the hash, sign included |
| StateIdentity.DecodeStateIdRoundTrip | Generate_ASP_State_Space_with_distance.py:27-33 | decoding an identifier of the problem gives back the hash |
| StateIdentity.StateIdInjective | Generate_ASP_State_Space_with_distance.py:27-33 | two hashes give equal identifiers iff they are equal |
| StateIdentity.SliceFromTo | Generate_ASP_State_Space_with_distance.py:92 | Python's `s[i:-n]`: the middle part when the bounds fit, else empty |
| StateIdentity.GoalIdOf | Generate_ASP_State_Space_with_distance.py:92 | a line of at least seven characters is its first five characters, the identifier, then its last two; a shorter line gives the empty identifier |
| StateIdentity.GoalIdOfGoalFact | Generate_ASP_State_Space_with_distance.py:74 | the slice `line[len("goal("):-2]` recovers exactly the identifier written by `goal(id).` |
| StateIdentity.GoalIdOfShort | Generate_ASP_State_Space_with_distance.py:92 | a line too short to hold `goal(` and `).` slices to the empty string |
| StateIdentity.PredicateToTuple | Generate_ASP_State_Space.py:16-23 | the rewrite succeeds iff the atom, with its trailing `)`s dropped, has exactly one `(`; otherwise the unpacking fails |
| StateIdentity.PredicateToTupleOfPieces | Generate_ASP_State_Space.py:16-23 | an atom whose comma-separated pieces hold no bracket or comma becomes `("p", strip(x1), ..., strip(xn))`, the pieces in order |
| StateIdentity.PredicateToTupleOfAtom | Generate_ASP_State_Space.py:16-23 | arguments with any blank padding on either side, as in `p( a ,b )`, come out without the padding, `("p", a, b)`, in order |
| StateIdentity.ArgumentsOfJoin | Generate_ASP_State_Space.py:20 | splitting `"a1, ..., an"` at commas and stripping gives back the arguments |
| Explorer.GoalIdsOfGoalLines | Generate_ASP_State_Space_with_distance.py:92 | `goal_ids` is exactly the identifiers of the goal states, in the order they were dequeued |
| Explorer.EdgeSource | Generate_ASP_State_Space.py:85-91 | every transition leaves a dequeued non-goal state towards one of its successors |
| Explorer.NewFromFacts | Generate_ASP_State_Space.py:92-94 | the states appended by one expansion have no duplicates and are exactly its unvisited successors |
| Explorer.DiscoveredCovers | Generate_ASP_State_Space.py:81-94 | every successor of an expanded state is discovered |
| Explorer.ReachClosed | Generate_ASP_State_Space.py:81-94 | a set that holds the initial state and is closed under expansion holds every reachable state |
| Explorer.ExploringInit | Generate_ASP_State_Space.py:66-68 | the queue `[initial_state]`, the visited set `{initial_state}` and empty outputs start the loop invariant |
| Explorer.ExploringNext | Generate_ASP_State_Space.py:82-94 | one dequeue and expansion keeps the loop invariant |
| Explorer.ExpandState | Generate_ASP_State_Space.py:88-94 | expanding a non-goal state records one transition per applicable action, duplicates included, and queues exactly its unvisited successors |
| Explorer.RecordAction | Generate_ASP_State_Space.py:89-94 | one applicable action appends its `transition(...)` line, adds its target to `visited` and the queue exactly when the target is unvisited and otherwise leaves both as they were, and so carries the expansion invariant from `k` to `k + 1` actions |
| Explorer.VisitState | Generate_ASP_State_Space.py:82-94 | one iteration dequeues the head, records it as a goal or expands it, and keeps the loop invariant |
| Explorer.ExploringBound | Generate_ASP_State_Space.py:81-94 | the dequeued and queued states never outnumber the universe, so the loop terminates |
| Explorer.ExploringDone | Generate_ASP_State_Space.py:81-94 | with the queue empty, the visited states are exactly the reachable ones |
| Explorer.ExploreStates | Generate_ASP_State_Space.py:62-106 | the search dequeues every reachable state exactly once in breadth-first order; `visited` is exactly the reachable states; the goal lines and transition lines are those of the dequeue order; the init line is `init(<id>). ` for the initial state's identifier, with this script's trailing space |
| Explorer.TargetsMember | Generate_ASP_State_Space_with_distance.py:81 | `x` is in the forward list of `a` iff `(a, x)` was recorded |
| Explorer.SourcesMember | Generate_ASP_State_Space_with_distance.py:82 | `x` is in the reverse list of `b` iff `(x, b)` was recorded |
| Explorer.GraphsMirror | Generate_ASP_State_Space_with_distance.py:81-82 | `v` is in `forward_graph[u]` iff `u` is in `reverse_graph[v]` iff the transition `(u, v)` was recorded |
| Explorer.GraphsStep | Generate_ASP_State_Space_with_distance.py:81-82 | a new transition appends its target to the source's forward list and its source to the target's reverse list |
| Explorer.ForwardOfState | Generate_ASP_State_Space_with_distance.py:76-81 | with identifiers free of collisions, the forward list of a dequeued state is the identifiers of its expansion, in order |
| Explorer.ExpandStateWithGraphs | Generate_ASP_State_Space_with_distance.py:76-86 | expanding a non-goal state records its transitions in the list and in both graphs, and queues its unvisited successors |
| Explorer.GoalTurn | Generate_ASP_State_Space_with_distance.py:72-73 | a dequeued goal adds exactly its `goal(<id>).` line and is not expanded: the rest of the queue, the visited set and the transitions stay as they were |
| Explorer.ExpandTurnWithGraphs | Generate_ASP_State_Space_with_distance.py:74-86 | a dequeued non-goal is expanded: the loop invariant holds with its transitions recorded and both graphs extended by them |
| Explorer.VisitStateWithGraphs | Generate_ASP_State_Space_with_distance.py:68-86 | one iteration keeps the loop invariant and both graphs equal to those of the recorded transitions |
| Explorer.ExploreWithGraphs | Generate_ASP_State_Space_with_distance.py:55-86 | the same search as the first explorer, also building the forward and reverse graphs of exactly the recorded transitions |
| Explorer.PathToGoalOfEdges | Generate_ASP_State_Space_with_distance.py:94-106 | a chain of recorded transitions ending at a goal is a path read off the reverse graph |
| Explorer.StateSpaceWithDistance | Generate_ASP_State_Space_with_distance.py:55-120 | explore, read the goal identifiers, and label each identifier with the length of a shortest chain of recorded transitions to a goal; identifiers with no such chain get no label; the init line is `init(<id>).` for the initial state's identifier |
| GoalDistance.ReachesGoal | Generate_ASP_State_Space_with_distance.py:97-98 | a goal is 0 steps from a goal |
| GoalDistance.ReachesStep | Generate_ASP_State_Space_with_distance.py:103-105 | a predecessor of a node `n` steps from a goal is `n + 1` steps from it |
| GoalDistance.LabelGoals | Generate_ASP_State_Space_with_distance.py:97-99 | every goal is labelled 0 and queued in order |
| GoalDistance.GoalsLabelled | Generate_ASP_State_Space_with_distance.py:97-99 | the goals at 0 start the labelling invariant |
| GoalDistance.VisitPredecessor | Generate_ASP_State_Space_with_distance.py:104-106 | an unlabelled predecessor gets the head's label plus one and is queued; no label is overwritten |
| GoalDistance.ScanPredecessors | Generate_ASP_State_Space_with_distance.py:103-106 | the scan of `reverse_graph[current]` keeps old labels, keeps labels sound and the queue layered, and labels every predecessor |
| GoalDistance.LabelAdded | Generate_ASP_State_Space_with_distance.py:104-106 | labelling a new node one level above the head keeps the queue layered and the labels sound |
| GoalDistance.SettledKept | Generate_ASP_State_Space_with_distance.py:101-106 | scanning the head settles it, and labels settled before stay settled |
| GoalDistance.VisitHead | Generate_ASP_State_Space_with_distance.py:102-106 | one iteration keeps the labelling invariant and decreases the termination measure |
| GoalDistance.LabelDistances | Generate_ASP_State_Space_with_distance.py:94-106 | goals get 0; every label is the length of a real path to a goal; a node with a path of length `n` is labelled at most `n` |
| GoalDistance.SettledComplete | Generate_ASP_State_Space_with_distance.py:101-106 | once every label is settled, a path to a goal bounds the label of its start |
| GoalDistance.Complete | Generate_ASP_State_Space_with_distance.py:101-106 | settled labels are no larger than any path length to a goal |
| GoalDistance.Finished | Generate_ASP_State_Space_with_distance.py:101-106 | when the queue is empty the labels are exactly the shortest distances |
| GoalDistance.DistanceUpper | Generate_ASP_State_Space_with_distance.py:101-106 | a labelled node is at most one more than any labelled successor |
| GoalDistance.DistanceEquation | Generate_ASP_State_Space_with_distance.py:101-106 | a labelled non-goal has a label of at least 1, equal to one plus a labelled successor's label |
| GoalDistance.NextOnPath | Generate_ASP_State_Space_with_distance.py:101-106 | a non-goal `n` steps from a goal has a successor `n - 1` steps from it |
| AnswerText.StrippedAt | last_answer_set.py:9 | the script reads each line stripped |
| AnswerText.ArmedIff | last_answer_set.py:10-19 | capture is armed iff a header came before and only blank lines since |
| AnswerText.LastCaptureIsLast | last_answer_set.py:17-19 | no result iff no line was captured; otherwise the result is the last captured line |
| AnswerText.OnlyFirstAfterHeader | last_answer_set.py:13-19 | between two captured lines there is a header |
| AnswerText.ReadLine | last_answer_set.py:9-19 | one line moves the state `(expecting_atoms, last_answer)` to the specified state after it |
| AnswerText.LastAnswer | last_answer_set.py:5-19 | the loop returns the last captured line, or none |
| AnswerText.LastAnswerSet | last_answer_set.py:4-24 | status 1 and no output iff nothing was captured; otherwise status 0 and the last captured line printed |
| AnswerText.NextMarker | Generate_Roles.py:43-45 | the first `ANSWER` line from `i` on, or the end |
| AnswerText.NextComment | Generate_Roles.py:46-47 | the first line from `i` on whose stripped text starts with `%`, or the end |
| AnswerText.ScanLine | Generate_Roles.py:42-49 | one line either stops the loop at the block's end or keeps the extraction invariant |
| AnswerText.ExtractAnswer | Generate_Roles.py:39-49 | the loop collects exactly the specified answer block |
| AnswerText.BlockOf | Generate_Roles.py:42-49 | at the end of the input or at the `%` line, the collected lines are the answer block |
| AnswerText.KeptLines | Generate_Roles.py:48-49 | every collected line is an original, unstripped, non-blank line in the range |
| AnswerText.KeptAppend | Generate_Roles.py:48-49 | collection over consecutive ranges concatenates, so order is kept |
| AnswerText.StopsAtComment | Generate_Roles.py:46-47 | once the `%` line after the marker has been met, later lines do not change the block |
| AnswerText.ProcessedData | Generate_Roles.py:52 | the joined block is empty for no lines, and otherwise begins with the first line and ends with the last |
| AnswerText.ProcessedDataSplit | Generate_Roles.py:52 | the space-join of lines without spaces splits back into those lines |
| AnswerText.NewRelation | Generate_Roles.py:65 | the new relation starts with the relation, ends with the role, has the one extra character `_` right after the relation, and so is the relation, `_`, then the role |
| AnswerText.RenamedFact | Generate_Roles.py:70 | the written fact keeps the id and both objects, with the relation renamed `relation_role` and the role argument dropped: a fixed prefix and suffix plus a length at which they overlap in one comma, which fixes the whole line |
| AnswerText.NewRelationInjective | Generate_Roles.py:65 | for roles without `_`, equal new relations come from equal relation and role |
| AnswerText.RoleFileName | Generate_Roles.py:68 | a name is derived iff the input name has a `.` |
| AnswerText.RoleFileNameOf | Generate_Roles.py:68 | `stem.ext` becomes `stem-role.ext` |
| AnswerText.WriteRoleFacts | Generate_Roles.py:60-71 | the file is named at the first match; it fails only when the input has no `.`, and then nothing is written; otherwise every match writes its renamed fact and is counted |
| Tables.CleanToken | asp2table.py:33-38 | a cleaned token is the stripped token, or what lies inside the one pair of double quotes that encloses it |
| Tables.CleanTokenQuoted | asp2table.py:33-38 | a padded token in double quotes cleans to exactly the text between the quotes |
| Tables.CleanTokenBare | asp2table.py:33-38 | a padded token not enclosed in quotes cleans to its stripped text |
| Tables.ColumnWidthIsMax | asp2table.py:48-51 | a column's width is at least `min_width` and at least every cell's length plus one, and equals one of them |
| Tables.ComputeColWidths | asp2table.py:43-52 | no widths for no rows; otherwise one width per column of the first row, each the column's maximum; a row longer than the first fails |
| Tables.Lookup | asp2table.py:105-108 | `dict.get` gives a value iff the key is present, and then the stored one |
| Tables.FetchParam | asp2table.py:100-108 | negation, top and bottom give `None`; for conjunction and disjunction a parameter is found exactly when `param` holds `(t, c)`, and it is that entry; likewise `paramR` for forall and exists, and `paramN` for every other rule |
| Tables.FetchParamReadsOneTable | asp2table.py:100-108 | negation, top and bottom give no parameter; conjunction and disjunction read only `param`; forall and exists only `paramR`; every other rule only `paramN` |
| Tables.FetchParamFound | asp2table.py:100-108 | for a rule with a parameter, a parameter is found exactly when the table that rule selects holds `(t, c)`, and it is that table's entry |
| Tables.RuleCell | asp2table.py:206 | without a parameter the cell is the rule alone; with one, it starts with the rule, holds ` : ` right after it, ends with the parameter and has exactly that length |
| Tables.CleanEdgesAt | asp2table.py:151-153 | both endpoints of each edge are cleaned |
| Tables.LastWinsSpec | asp2table.py:154 | a source has a successor iff some edge leaves it, and the last such edge wins |
| Tables.EdgeSetsSpec | asp2table.py:155-157 | a state is a predecessor iff it is some edge's target, and a state of the edges iff it is some edge's endpoint |
| Tables.SuccessorWithinStates | asp2table.py:147-157 | every source and successor is a state of the edges |
| Tables.SuccessorOf | asp2table.py:154 | the successor map stays inside the states of the edges |
| Tables.ReadEdges | asp2table.py:147-157 | the edge loop builds exactly the specified successor map, predecessor set and state set |
| Tables.WalkChain | asp2table.py:165-167 | the chain starts at the start, follows one successor at a time, and stops at the first state without one |
| Tables.FollowsChainUnique | asp2table.py:165-167 | there is only one such chain |
| Tables.ChainNoRepeat | asp2table.py:165-167 | a chain that ends repeats no state, so it has at most one more state than the successor map has entries |
| Tables.TrailFacts | asp2table.py:179-183 | one walk of the fallback repeats nothing, avoids visited states and follows the successor map; it starts at its start when that start is non-empty and not yet visited, and is empty otherwise |
| Tables.ChainsFacts | asp2table.py:176-183 | the walks from the sorted starts repeat nothing, stay within the states, and include every non-empty start not visited before them (an empty-string state stops `while cur and …` at once) |
| Tables.WalkTrail | asp2table.py:179-183 | the `while cur and cur not in visited` loop produces the specified walk and marks exactly its states visited |
| Tables.WalkAll | asp2table.py:176-183 | the loop over the sorted starts concatenates their walks |
| Tables.FallbackIsPermutation | asp2table.py:171-186 | the fallback order lists every state of the edges exactly once |
| Tables.Fallback | asp2table.py:171-186 | the fallback's chains come first, then the sorted leftover states |
| Tables.CycleChainNeverEnds | asp2table.py:161-167 | for the edges `s→a`, `a→b`, `b→a` the only start is `s`, and the unguarded walk from it never ends, for any number of steps |
| Tables.WalkChainGuarded | asp2table.py:165-167 | the walk with a visited guard always ends: it follows one successor at a time without repeating a state and stops at a state with no successor or with one already listed; when the unguarded walk ends, both give the same chain |
| Tables.GuardedEnds | asp2table.py:165-167 | a guarded chain from a start whose walk ends is the unguarded chain |
| Tables.GuardedCycleNeverEnds | asp2table.py:165-167 | once the guard stops a chain at a repeated state, the walk from any state of the chain never ends |
| Tables.OrderStates | asp2table.py:160-189 | a unique start gives the guarded chain from it, which is the source's chain whenever that walk ends; otherwise, with edges, the fallback order; with no edges, the sorted states of the concept facts |
| Tables.MaxTime | asp2table.py:121-122 | `LAST_T` is none iff there are no concept facts, else the largest time, attained by some fact |
| Tables.CleanFactsAt | asp2table.py:134-136 | each concept fact's feature, state and object are cleaned |
| Tables.ConceptTableSpec | asp2table.py:129-139 | an object is listed for `(state, feature)` iff some fact at the time has it; the states and features seen are those of such facts |
| Tables.CollectConcepts | asp2table.py:120-139 | the concept loop computes `LAST_T` and the facts at `LAST_T`; with no facts everything is empty |
| Tables.BuildSecondRow | asp2table.py:227-235 | a row of the second table is the feature, then for every ordered state the sorted objects joined by `, `, or empty |
| Tables.SecondRows | asp2table.py:226-236 | the header, then one row per feature in the given order |
| Tables.SecondTable | asp2table.py:222-236 | the header `Feature` and the ordered states, then one row per feature seen, in sorted order |
| Tables.CleanEvalsAt | asp2table.py:273-275 | each evaluation's feature and state are cleaned and keyed by `(state, feature)` |
| Tables.EvalFeaturesSpec | asp2table.py:277 | a feature is evaluated iff some evaluation names it |
| Tables.ReadEvaluations | asp2table.py:272-278 | the evaluation map keeps the last value per `(state, feature)`, and the features are those evaluated |
| Tables.BuildThirdRow | asp2table.py:288-291 | a row of the third table is the feature, then each ordered state's value in decimal or empty |
| Tables.ThirdRows | asp2table.py:287-292 | the header, then one row per feature in the given order |
| Tables.ThirdTable | asp2table.py:281-292 | the header, then one row per feature both evaluated and selected, in sorted order |
| Tables.ThirdTableFeatures | asp2table.py:281 | the third table's features are sorted and are exactly those both evaluated and selected |

## Left out

- **Process I/O and file handling:** reading stdin and files, writing the `.lp` and role files, and `print`. Each script's output is returned as values instead:
  - the explorers return their `transition(...)`, `goal(...)` and `init(...)` lines and the `distance_to_goal` map, not the `holds(...)` state lines (see `upstate_to_asp` below). The order in which the `.lp` file is written (transitions, state lines, the init line, goals, then the `v_star` facts) is not modelled;
  - the answer filters return the lines they write, as sequences;
  - the role generator returns `Block` values: one per state and name whose meaning in that state is non-empty, in the order of the sorted states and then the sorted names, each holding the name's pair *set*. The `sorted(s)` order of a block's pairs and the text of the `% name` and `holds(...)` lines (lines 128-136 of `generate_roles_procedurally.py`) are not modelled;
  - the table printer returns the rows of its tables, not the lines `fmt_row` prints;
  - line splitting is not modelled: both answer filters receive their input already split into lines, as a `seq<string>`. `Generate_Roles.py:39` splits with `data.splitlines()`, which also breaks at `\r`, `\v`, `\f`, `\x1c`-`\x1e`, `\x85`, `\u2028` and `\u2029`. `last_answer_set.py:8` iterates `sys.stdin` and keeps each line's end character, which the model's `strip` would remove anyway.
- **The planning library:** `PDDLReader`, `SequentialSimulator`, `get_applicable_actions`, `apply` and `is_goal` are external. The simulator is a parameter with pure `successors` and `isGoal`, and the search needs a finite set of states, closed under the successors of its non-goal states, to terminate.
- **Hashes:** `__hash__` is an opaque integer function parameter. Its range is not constrained. Distinct states with equal hashes are not handled by the code; `HashInjective` is an explicit assumption where graph lists are tied to states.
- **`upstate_to_asp`:** it scans the library's text form of a state, so no `holds(...)` state lines are modelled. `predicate_to_tuple` is modelled.
- **Regex matching:** all facts are inputs already parsed into tuples or datatypes. This covers the `holds` line parser of the role generator, the fact patterns of the table printer and the `holds` pattern of the role extractor.
- **The answer-set solver subprocess and its exit-code handling** (lines 8-36 of `Generate_Roles.py`), and the final messages of that script.
- **Table rendering:** `fmt_row`, the separator lines and the print blocks of the table printer.
- **The first table's rows:** only the rule cell, `fetch_param` and the lookups are modelled, not the parse of `selectRule`, `select`, feature kinds and parameters, nor the row assembly.
- **Set iteration order:** Python's order of iteration over a set is unspecified; a dict iterates in insertion order. The model iterates in sorted order where the source sorts. Where the source iterates a set, the model picks the next element with a choice (`Relations.Compose`, `Relations.ComposeOne`, `Relations.NewPairs`, `Text.SortStrings`, `RoleGeneration.InitialIndex`). Everywhere but one, the `ensures` fix the result whatever order the choices take. The one place the order can change the result is `set_to_name` at line 74 of `generate_roles_procedurally.py`. There `union_rels.items()` follows the order in which `union_rels` was built from the set `binary_preds` (line 70), so which of two predicates with the same union keeps the entry is unspecified. `RoleGeneration.InitialIndex` states only what holds for every order.
- **`eval_states`** in the table printer is collected but never used.
- **`v_star` output:** the `distance_to_goal` map is modelled, not the order in which its entries are written (the dict's insertion order, which is the order of labelling).
- **Nested dictionaries:** the per-state, per-feature dictionaries of the table printer are maps keyed by `(state, feature)` pairs.
- Tables.WalkChain: requires that the walk from the start ends, because the source's loop has no visited guard and runs forever when the chain from the unique start enters a cycle; see "Findings". Tables.OrderStates uses the guarded walk instead.
- Explorer.ExploreStates: requires a finite universe of states closed under the successors of its non-goal states (goal states are never expanded), which the source takes for granted but does not check.

## Findings

| source | as written | input that shows it | evidently intended | confidence | as-written member | corrected member |
|---|---|---|---|---|---|---|
| asp2table.py:165-167 | the chain loop from the unique start appends `successor[last]` while `last` has a successor, with no visited guard | the facts `good("s","a")`, `good("a","b")`, `good("b","a")`: `s` is the only start, and the loop appends `a, b, a, b, …` forever | stop before a state already listed, as the fallback walk at lines 178-182 does | not executed | Tables.WalkChain, Tables.CycleChainNeverEnds | Tables.WalkChainGuarded, Tables.OrderStates |
