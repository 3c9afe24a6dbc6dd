/**
 * Derived role relations: a definition per relation name (a primitive predicate, or the
 * intersection, composition or transitive closure of two or one earlier names), their
 * meaning over the binary relations of one state, the memoised evaluator `compute_set`,
 * and the per-state evaluation of every definition.
 */
module Roles {
  import opened Text
  import opened Relations

  type Name = string
  type Pairs = Rel<string>

  /** A definition as stored in `definitions`; `Tc` carries one operand (the second one is `None`). */
  datatype Def = Primitive | Inter(left: Name, right: Name) | Comp(left: Name, right: Name) | Tc(arg: Name)

  function Operands(d: Def): set<Name>
  {
    match d
    case Primitive => {}
    case Inter(a, b) => {a, b}
    case Comp(a, b) => {a, b}
    case Tc(a) => {a}
  }

  /** Every operand is defined, with a smaller rank: the definitions form a well-founded order. */
  ghost predicate WellFormed(defs: map<Name, Def>, rank: map<Name, nat>)
  {
    defs.Keys == rank.Keys &&
    forall n, o :: n in defs && o in Operands(defs[n]) ==> o in defs && rank[o] < rank[n]
  }

  /** The relation a definition denotes over the primitive relations `rels` of one state. */
  ghost function Eval(defs: map<Name, Def>, rank: map<Name, nat>, rels: map<Name, Pairs>, n: Name): Pairs
    requires WellFormed(defs, rank) && n in defs
    decreases rank[n]
  {
    match defs[n]
    case Primitive => if n in rels then rels[n] else {}
    case Inter(a, b) => Eval(defs, rank, rels, a) * Eval(defs, rank, rels, b)
    case Comp(a, b) => Composed(Eval(defs, rank, rels, a), Eval(defs, rank, rels, b))
    case Tc(a) => Closure(Eval(defs, rank, rels, a))
  }

  /** `a` agrees with `b` wherever `a` is defined. */
  ghost predicate Extends<K, V>(b: map<K, V>, a: map<K, V>)
  {
    forall k :: k in a ==> k in b && b[k] == a[k]
  }

  /** Adding definitions never changes the meaning of the existing ones. */
  lemma {:induction false} EvalExtend(defs: map<Name, Def>, rank: map<Name, nat>, defs': map<Name, Def>,
                                      rank': map<Name, nat>, rels: map<Name, Pairs>, n: Name)
    requires WellFormed(defs, rank) && WellFormed(defs', rank')
    requires Extends(defs', defs) && Extends(rank', rank) && n in defs
    ensures Eval(defs', rank', rels, n) == Eval(defs, rank, rels, n)
    decreases rank[n]
  {
    match defs[n]
    case Primitive =>
    case Inter(a, b) =>
      EvalExtend(defs, rank, defs', rank', rels, a);
      EvalExtend(defs, rank, defs', rank', rels, b);
    case Comp(a, b) =>
      EvalExtend(defs, rank, defs', rank', rels, a);
      EvalExtend(defs, rank, defs', rank', rels, b);
    case Tc(a) =>
      EvalExtend(defs, rank, defs', rank', rels, a);
  }

  /** The meaning of a definition does not depend on which well-founded ranking is used. */
  lemma {:induction false} EvalRankIndependent(defs: map<Name, Def>, rank: map<Name, nat>, rank': map<Name, nat>,
                                               rels: map<Name, Pairs>, n: Name)
    requires WellFormed(defs, rank) && WellFormed(defs, rank') && n in defs
    ensures Eval(defs, rank', rels, n) == Eval(defs, rank, rels, n)
    decreases rank[n]
  {
    match defs[n]
    case Primitive =>
    case Inter(a, b) =>
      EvalRankIndependent(defs, rank, rank', rels, a);
      EvalRankIndependent(defs, rank, rank', rels, b);
    case Comp(a, b) =>
      EvalRankIndependent(defs, rank, rank', rels, a);
      EvalRankIndependent(defs, rank, rank', rels, b);
    case Tc(a) =>
      EvalRankIndependent(defs, rank, rank', rels, a);
  }

  /** Every primitive relation of `small` is contained in the one of `large`. */
  ghost predicate Within(small: map<Name, Pairs>, large: map<Name, Pairs>)
  {
    forall p :: p in small ==> p in large && small[p] <= large[p]
  }

  /** All four operators are monotone, so a smaller state yields smaller derived relations. */
  lemma {:induction false} EvalMonotone(defs: map<Name, Def>, rank: map<Name, nat>, small: map<Name, Pairs>,
                                        large: map<Name, Pairs>, n: Name)
    requires WellFormed(defs, rank) && n in defs && Within(small, large)
    ensures Eval(defs, rank, small, n) <= Eval(defs, rank, large, n)
    decreases rank[n]
  {
    match defs[n]
    case Primitive =>
    case Inter(a, b) =>
      EvalMonotone(defs, rank, small, large, a);
      EvalMonotone(defs, rank, small, large, b);
    case Comp(a, b) =>
      EvalMonotone(defs, rank, small, large, a);
      EvalMonotone(defs, rank, small, large, b);
      ComposedMonotone(Eval(defs, rank, small, a), Eval(defs, rank, large, a),
                       Eval(defs, rank, small, b), Eval(defs, rank, large, b));
    case Tc(a) =>
      EvalMonotone(defs, rank, small, large, a);
      ClosureMonotone(Eval(defs, rank, small, a), Eval(defs, rank, large, a));
  }

  // ---------------------------------------------------------------------------
  // compute_set with its memo dictionary
  // ---------------------------------------------------------------------------

  /** The `memo` dictionary shared by the calls of `compute_set` for one state. */
  class Memo {
    var table: map<Name, Pairs>

    constructor ()
      ensures table == map[]
    {
      table := map[];
    }
  }

  /** Every memoised entry is the value of its definition. */
  ghost predicate MemoSound(table: map<Name, Pairs>, defs: map<Name, Def>, rank: map<Name, nat>,
                            rels: map<Name, Pairs>)
    requires WellFormed(defs, rank)
  {
    forall k :: k in table ==> k in defs && table[k] == Eval(defs, rank, rels, k)
  }

  /** Memoising a correct value keeps the memo sound. */
  lemma MemoAdd(table: map<Name, Pairs>, defs: map<Name, Def>, rank: map<Name, nat>, rels: map<Name, Pairs>,
                name: Name, s: Pairs)
    requires WellFormed(defs, rank) && name in defs && MemoSound(table, defs, rank, rels)
    requires s == Eval(defs, rank, rels, name)
    ensures MemoSound(table[name := s], defs, rank, rels)
  {
  }

  /** `compute_set(name, state_rels, definitions, memo)`. */
  method ComputeSet(name: Name, stateRels: map<Name, Pairs>, defs: map<Name, Def>, ghost rank: map<Name, nat>,
                    memo: Memo) returns (s: Pairs)
    requires WellFormed(defs, rank) && name in defs
    requires MemoSound(memo.table, defs, rank, stateRels)
    modifies memo
    ensures s == Eval(defs, rank, stateRels, name)
    ensures MemoSound(memo.table, defs, rank, stateRels)
    ensures name in memo.table && memo.table[name] == s
    ensures Extends(memo.table, old(memo.table))
    ensures name in old(memo.table) ==> memo.table == old(memo.table)
    decreases rank[name]
  {
    if name in memo.table {
      return memo.table[name];
    }
    match defs[name] {
      case Primitive =>
        s := if name in stateRels then stateRels[name] else {};
      case Inter(a, b) =>
        var s1 := ComputeSet(a, stateRels, defs, rank, memo);
        var s2 := ComputeSet(b, stateRels, defs, rank, memo);
        s := s1 * s2;
      case Comp(a, b) =>
        var s1 := ComputeSet(a, stateRels, defs, rank, memo);
        var s2 := ComputeSet(b, stateRels, defs, rank, memo);
        s := Compose(s1, s2);
      case Tc(a) =>
        var s1 := ComputeSet(a, stateRels, defs, rank, memo);
        s := TransitiveClosure(s1);
    }
    MemoAdd(memo.table, defs, rank, stateRels, name, s);
    memo.table := memo.table[name := s];
  }

  // ---------------------------------------------------------------------------
  // Union over states and per-state evaluation
  // ---------------------------------------------------------------------------

  /** `state_to_rels[state].get(pred, set())`. */
  function RelsOf(stateToRels: map<Name, map<Name, Pairs>>, state: Name, pred: Name): Pairs
  {
    if state in stateToRels && pred in stateToRels[state] then stateToRels[state][pred] else {}
  }

  /** The union of one predicate's pairs over all states. */
  function UnionOver(stateToRels: map<Name, map<Name, Pairs>>, states: set<Name>, pred: Name): (u: Pairs)
  {
    set st, pr | st in states && pr in RelsOf(stateToRels, st, pred) :: pr
  }

  /** `union_rels`: for every binary predicate, its pairs in any state. */
  function UnionRels(stateToRels: map<Name, map<Name, Pairs>>, states: set<Name>, preds: set<Name>): (u: map<Name, Pairs>)
    ensures u.Keys == preds
  {
    map p | p in preds :: UnionOver(stateToRels, states, p)
  }

  lemma UnionMembers(stateToRels: map<Name, map<Name, Pairs>>, states: set<Name>, preds: set<Name>,
                     p: Name, pr: (string, string))
    requires p in preds
    ensures pr in UnionRels(stateToRels, states, preds)[p] <==> exists st :: st in states && pr in RelsOf(stateToRels, st, p)
  {
    if exists st :: st in states && pr in RelsOf(stateToRels, st, p) {
      var st :| st in states && pr in RelsOf(stateToRels, st, p);
      assert pr in UnionOver(stateToRels, states, p);
    }
  }

  /** The primitive relations of each state lie within the union relations of all states. */
  lemma StateWithinUnion(stateToRels: map<Name, map<Name, Pairs>>, states: set<Name>, preds: set<Name>, st: Name)
    requires st in stateToRels && st in states && stateToRels[st].Keys <= preds
    ensures Within(stateToRels[st], UnionRels(stateToRels, states, preds))
  {
    forall p | p in stateToRels[st]
      ensures stateToRels[st][p] <= UnionRels(stateToRels, states, preds)[p]
    {
      forall pr | pr in stateToRels[st][p] ensures pr in UnionRels(stateToRels, states, preds)[p] {
        UnionMembers(stateToRels, states, preds, p, pr);
      }
    }
  }

  /** One block of output: the non-empty derived relation `name` in `state`. */
  datatype Block = Block(state: Name, name: Name, pairs: Pairs)

  /** The block of one definition in one state: present only when its value is non-empty. */
  ghost function BlockOf(state: Name, rels: map<Name, Pairs>, defs: map<Name, Def>, rank: map<Name, nat>,
                         name: Name): seq<Block>
    requires WellFormed(defs, rank) && name in defs
  {
    var s := Eval(defs, rank, rels, name);
    if s != {} then [Block(state, name, s)] else []
  }

  /** The blocks printed for one state, following the sorted definition names from index `i`. */
  ghost function StateBlocks(state: Name, rels: map<Name, Pairs>, names: seq<Name>, defs: map<Name, Def>,
                             rank: map<Name, nat>, i: nat): seq<Block>
    requires WellFormed(defs, rank) && i <= |names| && Elems(names) <= defs.Keys
    decreases |names| - i
  {
    if i == |names| then []
    else
      assert names[i] in Elems(names);
      BlockOf(state, rels, defs, rank, names[i]) + StateBlocks(state, rels, names, defs, rank, i + 1)
  }

  /** Each block of a state is the non-empty value of one of the names. */
  lemma {:induction false} StateBlocksSound(state: Name, rels: map<Name, Pairs>, names: seq<Name>,
                                            defs: map<Name, Def>, rank: map<Name, nat>, i: nat, b: Block)
    requires WellFormed(defs, rank) && i <= |names| && Elems(names) <= defs.Keys
    requires b in StateBlocks(state, rels, names, defs, rank, i)
    ensures b.state == state && b.name in names[i..] && b.name in defs && b.pairs != {}
    ensures b.pairs == Eval(defs, rank, rels, b.name)
    decreases |names| - i
  {
    assert names[i] in Elems(names);
    if b !in BlockOf(state, rels, defs, rank, names[i]) {
      StateBlocksSound(state, rels, names, defs, rank, i + 1, b);
      assert names[i + 1..] == names[i..][1..];
    }
  }

  /** Each name with a non-empty value in the state has its block. */
  lemma {:induction false} StateBlocksComplete(state: Name, rels: map<Name, Pairs>, names: seq<Name>,
                                               defs: map<Name, Def>, rank: map<Name, nat>, i: nat, j: nat)
    requires WellFormed(defs, rank) && i <= j < |names| && Elems(names) <= defs.Keys
    requires names[j] in defs && Eval(defs, rank, rels, names[j]) != {}
    ensures Block(state, names[j], Eval(defs, rank, rels, names[j])) in StateBlocks(state, rels, names, defs, rank, i)
    decreases j - i
  {
    var b := Block(state, names[j], Eval(defs, rank, rels, names[j]));
    StateBlocksStep(state, rels, names, defs, rank, i);
    if i < j {
      StateBlocksComplete(state, rels, names, defs, rank, i + 1, j);
      assert b in StateBlocks(state, rels, names, defs, rank, i + 1);
    } else {
      assert BlockOf(state, rels, defs, rank, names[i]) == [b];
    }
  }

  /** The blocks from index `i` are those of `names[i]`, then those from `i + 1`. */
  lemma StateBlocksStep(state: Name, rels: map<Name, Pairs>, names: seq<Name>, defs: map<Name, Def>,
                        rank: map<Name, nat>, i: nat)
    requires WellFormed(defs, rank) && i < |names| && Elems(names) <= defs.Keys
    ensures names[i] in defs
    ensures StateBlocks(state, rels, names, defs, rank, i)
            == BlockOf(state, rels, defs, rank, names[i]) + StateBlocks(state, rels, names, defs, rank, i + 1)
  {
    assert names[i] in Elems(names);
  }

  /** Loop state of the per-name loop: the blocks so far, then the blocks of the names still to go,
      are the blocks of the state. */
  ghost predicate BlocksSoFar(state: Name, rels: map<Name, Pairs>, names: seq<Name>, defs: map<Name, Def>,
                              rank: map<Name, nat>, j: nat, blocks: seq<Block>)
    requires WellFormed(defs, rank) && j <= |names| && Elems(names) <= defs.Keys
  {
    blocks + StateBlocks(state, rels, names, defs, rank, j) == StateBlocks(state, rels, names, defs, rank, 0)
  }

  /** One turn of the per-name loop: the block of `names[j]` is appended exactly when its value is non-empty. */
  lemma StateBlocksNext(state: Name, rels: map<Name, Pairs>, names: seq<Name>, defs: map<Name, Def>,
                        rank: map<Name, nat>, j: nat, blocks: seq<Block>, s: Pairs)
    requires WellFormed(defs, rank) && j < |names| && Elems(names) <= defs.Keys
    requires BlocksSoFar(state, rels, names, defs, rank, j, blocks)
    requires names[j] in defs && s == Eval(defs, rank, rels, names[j])
    ensures BlocksSoFar(state, rels, names, defs, rank, j + 1,
                        if s != {} then blocks + [Block(state, names[j], s)] else blocks)
  {
    var piece := BlockOf(state, rels, defs, rank, names[j]);
    var rest := StateBlocks(state, rels, names, defs, rank, j + 1);
    StateBlocksStep(state, rels, names, defs, rank, j);
    SeqAssoc(blocks, piece, rest);
    if s == {} {
      assert piece == [];
      assert blocks + piece == blocks;
    }
  }

  /** All blocks, state by state in the given (sorted) order of states, from index `i`. */
  ghost function AllBlocks(stateToRels: map<Name, map<Name, Pairs>>, states: seq<Name>, names: seq<Name>,
                           defs: map<Name, Def>, rank: map<Name, nat>, i: nat): seq<Block>
    requires WellFormed(defs, rank) && i <= |states| && Elems(names) <= defs.Keys
    decreases |states| - i
  {
    if i == |states| then []
    else
      var rels := if states[i] in stateToRels then stateToRels[states[i]] else map[];
      StateBlocks(states[i], rels, names, defs, rank, 0) + AllBlocks(stateToRels, states, names, defs, rank, i + 1)
  }

  /** The body of the per-state loop: a fresh memo, then every definition name in sorted order. */
  method EvaluateState(state: Name, stateRels: map<Name, Pairs>, names: seq<Name>, defs: map<Name, Def>,
                       ghost rank: map<Name, nat>) returns (blocks: seq<Block>)
    requires WellFormed(defs, rank) && Elems(names) <= defs.Keys
    ensures blocks == StateBlocks(state, stateRels, names, defs, rank, 0)
  {
    var memo := new Memo();
    blocks := [];
    var j := 0;
    while j < |names|
      invariant 0 <= j <= |names|
      invariant MemoSound(memo.table, defs, rank, stateRels)
      invariant BlocksSoFar(state, stateRels, names, defs, rank, j, blocks)
    {
      var name := names[j];
      assert name in Elems(names);
      var s := ComputeSet(name, stateRels, defs, rank, memo);
      StateBlocksNext(state, stateRels, names, defs, rank, j, blocks, s);
      if s != {} {
        blocks := blocks + [Block(state, name, s)];
      }
      j := j + 1;
    }
    assert StateBlocks(state, stateRels, names, defs, rank, |names|) == [];
    assert blocks + [] == blocks;
  }

  /** The per-state evaluation loop: for every state in sorted order, the blocks of that state. */
  method EvaluateStates(stateToRels: map<Name, map<Name, Pairs>>, defs: map<Name, Def>, ghost rank: map<Name, nat>)
    returns (out: seq<Block>)
    requires WellFormed(defs, rank)
    ensures out == AllBlocks(stateToRels, SortedSeqOf(stateToRels.Keys), SortedSeqOf(defs.Keys), defs, rank, 0)
  {
    var states := SortStrings(stateToRels.Keys);
    var names := SortStrings(defs.Keys);
    assert Elems(names) <= defs.Keys;
    out := [];
    var i := 0;
    while i < |states|
      invariant 0 <= i <= |states|
      invariant OutputSoFar(stateToRels, states, names, defs, rank, i, out)
    {
      var state := states[i];
      assert state in Elems(states);
      var blocks := EvaluateState(state, stateToRels[state], names, defs, rank);
      AllBlocksNext(stateToRels, states, names, defs, rank, i, out, blocks);
      out := out + blocks;
      i := i + 1;
    }
    assert AllBlocks(stateToRels, states, names, defs, rank, |states|) == [];
    assert out + [] == out;
  }

  /** Loop state of the per-state loop: the output so far, then the blocks of the states still to go,
      are the blocks of all states. */
  ghost predicate OutputSoFar(stateToRels: map<Name, map<Name, Pairs>>, states: seq<Name>, names: seq<Name>,
                              defs: map<Name, Def>, rank: map<Name, nat>, i: nat, out: seq<Block>)
    requires WellFormed(defs, rank) && i <= |states| && Elems(names) <= defs.Keys
  {
    out + AllBlocks(stateToRels, states, names, defs, rank, i) == AllBlocks(stateToRels, states, names, defs, rank, 0)
  }

  /** One turn of the per-state loop: the blocks of `states[i]` are appended to the output. */
  lemma AllBlocksNext(stateToRels: map<Name, map<Name, Pairs>>, states: seq<Name>, names: seq<Name>,
                      defs: map<Name, Def>, rank: map<Name, nat>, i: nat, out: seq<Block>, blocks: seq<Block>)
    requires WellFormed(defs, rank) && i < |states| && Elems(names) <= defs.Keys
    requires states[i] in stateToRels
    requires OutputSoFar(stateToRels, states, names, defs, rank, i, out)
    requires blocks == StateBlocks(states[i], stateToRels[states[i]], names, defs, rank, 0)
    ensures OutputSoFar(stateToRels, states, names, defs, rank, i + 1, out + blocks)
  {
    var rest := AllBlocks(stateToRels, states, names, defs, rank, i + 1);
    assert AllBlocks(stateToRels, states, names, defs, rank, i) == blocks + rest;
    SeqAssoc(out, blocks, rest);
  }

  /** Every output block is the non-empty value of its definition in its state, and is
      contained in the value over the union of all states' relations. */
  lemma BlocksWithinUnion(stateToRels: map<Name, map<Name, Pairs>>, preds: set<Name>, defs: map<Name, Def>,
                          rank: map<Name, nat>, b: Block)
    requires WellFormed(defs, rank)
    requires forall st :: st in stateToRels ==> stateToRels[st].Keys <= preds
    requires b in AllBlocks(stateToRels, SortedSeqOf(stateToRels.Keys), SortedSeqOf(defs.Keys), defs, rank, 0)
    ensures b.state in stateToRels && b.name in defs && b.pairs != {}
    ensures b.pairs == Eval(defs, rank, stateToRels[b.state], b.name)
    ensures b.pairs <= Eval(defs, rank, UnionRels(stateToRels, stateToRels.Keys, preds), b.name)
  {
    var states := SortedSeqOf(stateToRels.Keys);
    var names := SortedSeqOf(defs.Keys);
    var i := BlockState(stateToRels, states, names, defs, rank, 0, b);
    assert states[i] in Elems(states);
    StateWithinUnion(stateToRels, stateToRels.Keys, preds, b.state);
    EvalMonotone(defs, rank, stateToRels[b.state], UnionRels(stateToRels, stateToRels.Keys, preds), b.name);
  }

  /** A block of `AllBlocks` comes from one of the states, whose blocks describe it. */
  lemma {:induction false} BlockState(stateToRels: map<Name, map<Name, Pairs>>, states: seq<Name>, names: seq<Name>,
                                      defs: map<Name, Def>, rank: map<Name, nat>, i: nat, b: Block) returns (k: nat)
    requires WellFormed(defs, rank) && i <= |states| && Elems(names) <= defs.Keys
    requires b in AllBlocks(stateToRels, states, names, defs, rank, i)
    ensures i <= k < |states| && b.state == states[k] && b.name in names && b.pairs != {}
    ensures b.pairs == Eval(defs, rank, if states[k] in stateToRels then stateToRels[states[k]] else map[], b.name)
    decreases |states| - i
  {
    var rels := if states[i] in stateToRels then stateToRels[states[i]] else map[];
    var here := StateBlocks(states[i], rels, names, defs, rank, 0);
    if b in here {
      StateBlocksSound(states[i], rels, names, defs, rank, 0, b);
      k := i;
    } else {
      k := BlockState(stateToRels, states, names, defs, rank, i + 1, b);
    }
  }

  /** The blocks of the states from index `i` on include every non-empty value of those states. */
  lemma {:induction false} AllBlocksComplete(stateToRels: map<Name, map<Name, Pairs>>, states: seq<Name>,
                                             names: seq<Name>, defs: map<Name, Def>, rank: map<Name, nat>,
                                             i: nat, k: nat, j: nat)
    requires WellFormed(defs, rank) && i <= k < |states| && j < |names| && Elems(names) <= defs.Keys
    requires states[k] in stateToRels && names[j] in defs
    requires Eval(defs, rank, stateToRels[states[k]], names[j]) != {}
    ensures Block(states[k], names[j], Eval(defs, rank, stateToRels[states[k]], names[j]))
            in AllBlocks(stateToRels, states, names, defs, rank, i)
    decreases k - i
  {
    if i < k {
      AllBlocksComplete(stateToRels, states, names, defs, rank, i + 1, k, j);
    } else {
      StateBlocksComplete(states[k], stateToRels[states[k]], names, defs, rank, 0, j);
    }
  }

  /** Every definition with a non-empty value in some state is printed for that state. */
  lemma BlocksComplete(stateToRels: map<Name, map<Name, Pairs>>, defs: map<Name, Def>, rank: map<Name, nat>,
                       st: Name, n: Name)
    requires WellFormed(defs, rank) && st in stateToRels && n in defs
    requires Eval(defs, rank, stateToRels[st], n) != {}
    ensures Block(st, n, Eval(defs, rank, stateToRels[st], n))
            in AllBlocks(stateToRels, SortedSeqOf(stateToRels.Keys), SortedSeqOf(defs.Keys), defs, rank, 0)
  {
    var states := SortedSeqOf(stateToRels.Keys);
    var names := SortedSeqOf(defs.Keys);
    assert st in Elems(states) && n in Elems(names);
    var k :| 0 <= k < |states| && states[k] == st;
    var j :| 0 <= j < |names| && names[j] == n;
    AllBlocksComplete(stateToRels, states, names, defs, rank, 0, k, j);
  }
}
