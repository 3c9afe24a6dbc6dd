/**
 * The definition-generation fixpoint of the role generator: starting from the union of each
 * binary predicate over all states, every pass proposes intersections, compositions and
 * closures of the current relations and accepts each non-empty one whose pair-set is not yet
 * indexed, under a fresh name, until a pass accepts nothing.
 */
module RoleGeneration {
  import opened Text
  import opened Relations
  import opened Roles

  /** One entry of `new_items`: the candidate pair-set, its proposed name and its definition. */
  datatype Item = Item(pairs: Pairs, proposed: Name, def: Def)

  /** The name proposed for a candidate definition. */
  function ProposedName(d: Def): Name
    requires !d.Primitive?
  {
    match d
    case Inter(a, b) => if a != b then a + "_inter_" + b else a + "_self_inter"
    case Comp(a, b) => a + "_compose_" + b
    case Tc(a) => a + "_tc"
  }

  /** The pair-set of a candidate definition, computed from the current relations `m`. */
  ghost function Value(d: Def, m: map<Name, Pairs>): Pairs
    requires !d.Primitive? && Operands(d) <= m.Keys
  {
    match d
    case Inter(a, b) => m[a] * m[b]
    case Comp(a, b) => Composed(m[a], m[b])
    case Tc(a) => Closure(m[a])
  }

  /** A candidate is rejected when its pair-set is empty or already indexed. */
  ghost predicate Blocked(d: Def, m: map<Name, Pairs>, known: set<Pairs>)
    requires !d.Primitive? && Operands(d) <= m.Keys
  {
    Value(d, m) == {} || Value(d, m) in known
  }

  /** The definitions a pass proposes over the sorted names: intersections at index pairs
      i <= j, compositions of all ordered pairs, closures of each name. */
  ghost predicate IsProposal(d: Def, names: seq<Name>)
  {
    match d
    case Primitive => false
    case Inter(a, b) => exists i, j :: 0 <= i <= j < |names| && names[i] == a && names[j] == b
    case Comp(a, b) => a in names && b in names
    case Tc(a) => a in names
  }

  /** An item a pass may append to `new_items`. */
  ghost predicate Accepted(it: Item, names: seq<Name>, m: map<Name, Pairs>, known: set<Pairs>)
  {
    && IsProposal(it.def, names)
    && Operands(it.def) <= m.Keys
    && it.pairs == Value(it.def, m)
    && it.pairs != {}
    && it.pairs !in known
    && it.proposed == ProposedName(it.def)
  }

  /** The item for one proposal, present only when the proposal is not blocked. */
  ghost function Offer(d: Def, m: map<Name, Pairs>, known: set<Pairs>): seq<Item>
    requires !d.Primitive? && Operands(d) <= m.Keys
  {
    if Blocked(d, m, known) then [] else [Item(Value(d, m), ProposedName(d), d)]
  }

  /** `Offer` in terms of an already computed pair-set. */
  lemma OfferOf(d: Def, m: map<Name, Pairs>, known: set<Pairs>, v: Pairs)
    requires !d.Primitive? && Operands(d) <= m.Keys && v == Value(d, m)
    ensures Offer(d, m, known) == if v != {} && v !in known then [Item(v, ProposedName(d), d)] else []
  {
  }

  ghost predicate Indexable(names: seq<Name>, m: map<Name, Pairs>)
  {
    forall k :: 0 <= k < |names| ==> names[k] in m
  }

  /** The intersection items of row `i`, from column `j` on. */
  ghost function InterRow(names: seq<Name>, m: map<Name, Pairs>, known: set<Pairs>, i: nat, j: nat): (r: seq<Item>)
    requires Indexable(names, m) && i <= j <= |names|
    ensures forall it :: it in r ==> Accepted(it, names, m, known)
    ensures r == [] ==> forall j' :: j <= j' < |names| ==> Blocked(Inter(names[i], names[j']), m, known)
    decreases |names| - j
  {
    if j == |names| then []
    else
      var d := Inter(names[i], names[j]);
      var rest := InterRow(names, m, known, i, j + 1);
      Offer(d, m, known) + rest
  }

  ghost function InterItems(names: seq<Name>, m: map<Name, Pairs>, known: set<Pairs>, i: nat): (r: seq<Item>)
    requires Indexable(names, m) && i <= |names|
    ensures forall it :: it in r ==> Accepted(it, names, m, known)
    ensures r == [] ==> forall i', j' :: i <= i' <= j' < |names| ==> Blocked(Inter(names[i'], names[j']), m, known)
    decreases |names| - i
  {
    if i == |names| then []
    else InterRow(names, m, known, i, i) + InterItems(names, m, known, i + 1)
  }

  /** The composition items of row `i`, from column `j` on. */
  ghost function CompRow(names: seq<Name>, m: map<Name, Pairs>, known: set<Pairs>, i: nat, j: nat): (r: seq<Item>)
    requires Indexable(names, m) && i < |names| && j <= |names|
    ensures forall it :: it in r ==> Accepted(it, names, m, known)
    ensures r == [] ==> forall j' :: j <= j' < |names| ==> Blocked(Comp(names[i], names[j']), m, known)
    decreases |names| - j
  {
    if j == |names| then []
    else Offer(Comp(names[i], names[j]), m, known) + CompRow(names, m, known, i, j + 1)
  }

  ghost function CompItems(names: seq<Name>, m: map<Name, Pairs>, known: set<Pairs>, i: nat): (r: seq<Item>)
    requires Indexable(names, m) && i <= |names|
    ensures forall it :: it in r ==> Accepted(it, names, m, known)
    ensures r == [] ==> forall i', j' :: i <= i' < |names| && 0 <= j' < |names| ==>
                           Blocked(Comp(names[i'], names[j']), m, known)
    decreases |names| - i
  {
    if i == |names| then []
    else CompRow(names, m, known, i, 0) + CompItems(names, m, known, i + 1)
  }

  /** The closure items from index `i` on. */
  ghost function TcItems(names: seq<Name>, m: map<Name, Pairs>, known: set<Pairs>, i: nat): (r: seq<Item>)
    requires Indexable(names, m) && i <= |names|
    ensures forall it :: it in r ==> Accepted(it, names, m, known)
    ensures r == [] ==> forall i' :: i <= i' < |names| ==> Blocked(Tc(names[i']), m, known)
    decreases |names| - i
  {
    if i == |names| then []
    else Offer(Tc(names[i]), m, known) + TcItems(names, m, known, i + 1)
  }

  /** `new_items` of one pass: intersections, then compositions, then closures. */
  ghost function CandidateItems(names: seq<Name>, m: map<Name, Pairs>, known: set<Pairs>): seq<Item>
    requires Indexable(names, m)
  {
    InterItems(names, m, known, 0) + CompItems(names, m, known, 0) + TcItems(names, m, known, 0)
  }

  /** No proposal over `names` is accepted. */
  ghost predicate Saturated(names: seq<Name>, m: map<Name, Pairs>, known: set<Pairs>)
    requires Indexable(names, m)
  {
    && (forall i, j :: 0 <= i <= j < |names| ==> Blocked(Inter(names[i], names[j]), m, known))
    && (forall i, j :: 0 <= i < |names| && 0 <= j < |names| ==> Blocked(Comp(names[i], names[j]), m, known))
    && (forall i :: 0 <= i < |names| ==> Blocked(Tc(names[i]), m, known))
  }

  /** Every candidate of a pass is accepted (non-empty, not yet indexed, operands among the names). */
  lemma CandidatesAccepted(names: seq<Name>, m: map<Name, Pairs>, known: set<Pairs>, it: Item)
    requires Indexable(names, m) && it in CandidateItems(names, m, known)
    ensures Accepted(it, names, m, known)
  {
  }

  /** Every item of `items` is accepted, stated one item at a time. */
  ghost predicate AllAccepted(items: seq<Item>, names: seq<Name>, m: map<Name, Pairs>, known: set<Pairs>)
    decreases |items|
  {
    items == [] || (Accepted(items[0], names, m, known) && AllAccepted(items[1..], names, m, known))
  }

  lemma {:induction false} AllAcceptedOf(items: seq<Item>, names: seq<Name>, m: map<Name, Pairs>, known: set<Pairs>)
    requires forall it :: it in items ==> Accepted(it, names, m, known)
    ensures AllAccepted(items, names, m, known)
    decreases |items|
  {
    if items != [] {
      assert items[0] in items;
      forall it | it in items[1..] ensures Accepted(it, names, m, known) {
        assert it in items;
      }
      AllAcceptedOf(items[1..], names, m, known);
    }
  }

  /** An accepted item is a proposal that is not blocked. */
  lemma CandidateUnblocked(names: seq<Name>, m: map<Name, Pairs>, known: set<Pairs>, it: Item)
    requires Indexable(names, m) && Accepted(it, names, m, known)
    ensures !Saturated(names, m, known)
  {
    match it.def {
      case Inter(a, b) =>
        var i, j :| 0 <= i <= j < |names| && names[i] == a && names[j] == b;
        assert !Blocked(Inter(names[i], names[j]), m, known);
      case Comp(a, b) =>
        var i :| 0 <= i < |names| && names[i] == a;
        var j :| 0 <= j < |names| && names[j] == b;
        assert !Blocked(Comp(names[i], names[j]), m, known);
      case Tc(a) =>
        var i :| 0 <= i < |names| && names[i] == a;
        assert !Blocked(Tc(names[i]), m, known);
    }
  }

  /** A pass proposes nothing exactly when every proposal is blocked. */
  lemma CandidatesEmpty(names: seq<Name>, m: map<Name, Pairs>, known: set<Pairs>)
    requires Indexable(names, m)
    ensures CandidateItems(names, m, known) == [] <==> Saturated(names, m, known)
  {
    var c := CandidateItems(names, m, known);
    if c == [] {
      assert InterItems(names, m, known, 0) == [];
      assert CompItems(names, m, known, 0) == [];
      assert TcItems(names, m, known, 0) == [];
    } else {
      CandidateUnblocked(names, m, known, c[0]);
    }
  }

  /** The body of the inner intersection loop for `p1`, `p2`. */
  method InterOffer(p1: Name, p2: Name, nameToSet: map<Name, Pairs>, setToName: map<Pairs, Name>)
    returns (piece: seq<Item>)
    requires p1 in nameToSet && p2 in nameToSet
    ensures piece == Offer(Inter(p1, p2), nameToSet, setToName.Keys)
  {
    var interSet := nameToSet[p1] * nameToSet[p2];
    OfferOf(Inter(p1, p2), nameToSet, setToName.Keys, interSet);
    piece := [];
    if interSet != {} {
      var fs := interSet;
      if fs !in setToName {
        var propName := if p1 != p2 then p1 + "_inter_" + p2 else p1 + "_self_inter";
        piece := [Item(fs, propName, Inter(p1, p2))];
      }
    }
  }

  /** The inner intersection loop of row `i` has reached column `j` with `items` collected. */
  ghost predicate InterProgress(names: seq<Name>, m: map<Name, Pairs>, known: set<Pairs>, i: nat, j: nat,
                                items: seq<Item>)
  {
    Indexable(names, m) && i <= j <= |names|
    && items + InterRow(names, m, known, i, j) == InterRow(names, m, known, i, i)
  }

  lemma InterProgressStep(names: seq<Name>, m: map<Name, Pairs>, known: set<Pairs>, i: nat, j: nat,
                          items: seq<Item>, piece: seq<Item>)
    requires InterProgress(names, m, known, i, j, items) && j < |names|
    requires piece == Offer(Inter(names[i], names[j]), m, known)
    ensures InterProgress(names, m, known, i, j + 1, items + piece)
  {
    assert InterRow(names, m, known, i, j) == piece + InterRow(names, m, known, i, j + 1);
    SeqAssoc(items, piece, InterRow(names, m, known, i, j + 1));
  }

  lemma InterProgressDone(names: seq<Name>, m: map<Name, Pairs>, known: set<Pairs>, i: nat, items: seq<Item>)
    requires InterProgress(names, m, known, i, |names|, items)
    ensures items == InterRow(names, m, known, i, i)
  {
    assert items + [] == items;
  }

  /** The inner intersection loop for `p1 = names[i]`, over `j` in `range(i, len(names))`. */
  method InterLoop(names: seq<Name>, nameToSet: map<Name, Pairs>, setToName: map<Pairs, Name>, i: nat)
    returns (items: seq<Item>)
    requires Indexable(names, nameToSet) && i < |names|
    ensures items == InterRow(names, nameToSet, setToName.Keys, i, i)
  {
    items := [];
    var j := i;
    assert InterProgress(names, nameToSet, setToName.Keys, i, j, items);
    while j < |names|
      invariant InterProgress(names, nameToSet, setToName.Keys, i, j, items)
      decreases |names| - j
    {
      var piece := InterOffer(names[i], names[j], nameToSet, setToName);
      InterProgressStep(names, nameToSet, setToName.Keys, i, j, items, piece);
      items := items + piece;
      j := j + 1;
    }
    InterProgressDone(names, nameToSet, setToName.Keys, i, items);
  }

  /** The body of the inner composition loop for `p1`, `p2`. */
  method CompOffer(p1: Name, p2: Name, nameToSet: map<Name, Pairs>, setToName: map<Pairs, Name>)
    returns (piece: seq<Item>)
    requires p1 in nameToSet && p2 in nameToSet
    ensures piece == Offer(Comp(p1, p2), nameToSet, setToName.Keys)
  {
    var compSet := Compose(nameToSet[p1], nameToSet[p2]);
    OfferOf(Comp(p1, p2), nameToSet, setToName.Keys, compSet);
    piece := [];
    if compSet != {} {
      var fs := compSet;
      if fs !in setToName {
        var propName := p1 + "_compose_" + p2;
        piece := [Item(fs, propName, Comp(p1, p2))];
      }
    }
  }

  /** The inner composition loop for `p1 = names[i]`, over every `p2`. */
  method CompLoop(names: seq<Name>, nameToSet: map<Name, Pairs>, setToName: map<Pairs, Name>, i: nat)
    returns (items: seq<Item>)
    requires Indexable(names, nameToSet) && i < |names|
    ensures items == CompRow(names, nameToSet, setToName.Keys, i, 0)
  {
    items := [];
    var j := 0;
    while j < |names|
      invariant 0 <= j <= |names|
      invariant items + CompRow(names, nameToSet, setToName.Keys, i, j) == CompRow(names, nameToSet, setToName.Keys, i, 0)
    {
      var piece := CompOffer(names[i], names[j], nameToSet, setToName);
      assert CompRow(names, nameToSet, setToName.Keys, i, j) == piece + CompRow(names, nameToSet, setToName.Keys, i, j + 1);
      SeqAssoc(items, piece, CompRow(names, nameToSet, setToName.Keys, i, j + 1));
      items := items + piece;
      j := j + 1;
    }
    assert items + [] == items;
  }

  /** The intersection loops: `new_items` after the first group. */
  method Intersections(names: seq<Name>, nameToSet: map<Name, Pairs>, setToName: map<Pairs, Name>)
    returns (items: seq<Item>)
    requires Indexable(names, nameToSet)
    ensures items == InterItems(names, nameToSet, setToName.Keys, 0)
  {
    items := [];
    var i := 0;
    while i < |names|
      invariant 0 <= i <= |names|
      invariant items + InterItems(names, nameToSet, setToName.Keys, i) == InterItems(names, nameToSet, setToName.Keys, 0)
    {
      var row := InterLoop(names, nameToSet, setToName, i);
      SeqAssoc(items, row, InterItems(names, nameToSet, setToName.Keys, i + 1));
      items := items + row;
      i := i + 1;
    }
    assert items + [] == items;
  }

  /** The composition loops: what the second group appends. */
  method Compositions(names: seq<Name>, nameToSet: map<Name, Pairs>, setToName: map<Pairs, Name>)
    returns (items: seq<Item>)
    requires Indexable(names, nameToSet)
    ensures items == CompItems(names, nameToSet, setToName.Keys, 0)
  {
    items := [];
    var i := 0;
    while i < |names|
      invariant 0 <= i <= |names|
      invariant items + CompItems(names, nameToSet, setToName.Keys, i) == CompItems(names, nameToSet, setToName.Keys, 0)
    {
      var row := CompLoop(names, nameToSet, setToName, i);
      SeqAssoc(items, row, CompItems(names, nameToSet, setToName.Keys, i + 1));
      items := items + row;
      i := i + 1;
    }
    assert items + [] == items;
  }

  /** The body of the closure loop for `p`. */
  method TcOffer(p: Name, nameToSet: map<Name, Pairs>, setToName: map<Pairs, Name>) returns (piece: seq<Item>)
    requires p in nameToSet
    ensures piece == Offer(Tc(p), nameToSet, setToName.Keys)
  {
    var tcSet := TransitiveClosure(nameToSet[p]);
    OfferOf(Tc(p), nameToSet, setToName.Keys, tcSet);
    piece := [];
    if tcSet != {} {
      var fs := tcSet;
      if fs !in setToName {
        var propName := p + "_tc";
        piece := [Item(fs, propName, Tc(p))];
      }
    }
  }

  /** The closure loop: what the third group appends. */
  method Closures(names: seq<Name>, nameToSet: map<Name, Pairs>, setToName: map<Pairs, Name>)
    returns (items: seq<Item>)
    requires Indexable(names, nameToSet)
    ensures items == TcItems(names, nameToSet, setToName.Keys, 0)
  {
    items := [];
    var i := 0;
    while i < |names|
      invariant 0 <= i <= |names|
      invariant items + TcItems(names, nameToSet, setToName.Keys, i) == TcItems(names, nameToSet, setToName.Keys, 0)
    {
      var piece := TcOffer(names[i], nameToSet, setToName);
      assert TcItems(names, nameToSet, setToName.Keys, i) == piece + TcItems(names, nameToSet, setToName.Keys, i + 1);
      SeqAssoc(items, piece, TcItems(names, nameToSet, setToName.Keys, i + 1));
      items := items + piece;
      i := i + 1;
    }
    assert items + [] == items;
  }

  /** `new_items` of one pass. */
  method Candidates(names: seq<Name>, nameToSet: map<Name, Pairs>, setToName: map<Pairs, Name>)
    returns (newItems: seq<Item>)
    requires Indexable(names, nameToSet)
    ensures newItems == CandidateItems(names, nameToSet, setToName.Keys)
  {
    var inters := Intersections(names, nameToSet, setToName);
    var comps := Compositions(names, nameToSet, setToName);
    var tcs := Closures(names, nameToSet, setToName);
    newItems := inters + comps + tcs;
  }

  // ---------------------------------------------------------------------------
  // Fresh names
  // ---------------------------------------------------------------------------

  /** `f"{prop_name}_{rel_counter}"`. */
  function Suffixed(prop: Name, k: nat): Name
  {
    prop + "_" + NatToString(k)
  }

  lemma SuffixedInjective(prop: Name, a: nat, b: nat)
    requires Suffixed(prop, a) == Suffixed(prop, b)
    ensures a == b
  {
    var n := |prop| + 1;
    assert Suffixed(prop, a)[n..] == NatToString(a);
    assert Suffixed(prop, b)[n..] == NatToString(b);
    NatToStringInjective(a, b);
  }

  /** `n` is `prop + "_" + str(k)` for some k >= c. */
  ghost predicate SuffixAtLeast(n: Name, prop: Name, c: nat)
  {
    var h := |prop| + 1;
    && |n| > h && n[..h] == prop + "_" && AllDigits(n[h..])
    && NatToString(ParseNat(n[h..])) == n[h..] && ParseNat(n[h..]) >= c
  }

  lemma SuffixedAtLeast(prop: Name, k: nat, c: nat)
    ensures SuffixAtLeast(Suffixed(prop, k), prop, c) <==> c <= k
  {
    var n, h := Suffixed(prop, k), |prop| + 1;
    assert n[..h] == prop + "_" && n[h..] == NatToString(k);
    ParseNatToString(k);
  }

  lemma SuffixExactly(n: Name, prop: Name, c: nat)
    requires SuffixAtLeast(n, prop, c) && !SuffixAtLeast(n, prop, c + 1)
    ensures n == Suffixed(prop, c)
  {
    var h := |prop| + 1;
    assert n == n[..h] + n[h..];
  }

  /** The taken names that the loop may still try from counter `c` on. */
  ghost function TakenFrom(taken: set<Name>, prop: Name, c: nat): set<Name>
  {
    set n | n in taken && SuffixAtLeast(n, prop, c)
  }

  lemma TakenFromStep(taken: set<Name>, prop: Name, c: nat)
    ensures |TakenFrom(taken, prop, c)| == |TakenFrom(taken, prop, c + 1)| + (if Suffixed(prop, c) in taken then 1 else 0)
  {
    var here := Suffixed(prop, c);
    var a, b := TakenFrom(taken, prop, c), TakenFrom(taken, prop, c + 1);
    SuffixedAtLeast(prop, c, c);
    SuffixedAtLeast(prop, c, c + 1);
    assert b <= a;
    forall n | n in a && n !in b ensures n == here {
      SuffixExactly(n, prop, c);
    }
    if here in taken {
      assert a == b + {here};
    } else {
      assert a == b;
    }
  }

  /** The renaming loop from the current try `name` with counter `c`: stops at the first
      free try, otherwise tries `prop_c` and advances the counter. */
  ghost function Probe(prop: Name, taken: set<Name>, name: Name, c: nat): (r: (Name, nat))
    ensures r.0 !in taken && c <= r.1
    ensures name !in taken ==> r == (name, c)
    ensures name in taken ==> c < r.1 && r.0 == Suffixed(prop, r.1 - 1)
    ensures forall k :: c <= k < r.1 - 1 ==> Suffixed(prop, k) in taken
    decreases |TakenFrom(taken, prop, c)| + (if name in taken then 1 else 0)
  {
    if name !in taken then (name, c)
    else
      TakenFromStep(taken, prop, c);
      Probe(prop, taken, Suffixed(prop, c), c + 1)
  }

  /** The name an item gets and the counter afterwards: the proposed name if it is free,
      otherwise the first free `prop_k` for k = counter, counter + 1, ... */
  ghost function FreshNameOf(prop: Name, taken: set<Name>, counter: nat): (r: (Name, nat))
  {
    Probe(prop, taken, prop, counter)
  }

  /** The renaming loop `while name in name_to_set`. */
  method FreshName(prop: Name, taken: set<Name>, counter: nat) returns (name: Name, counter': nat)
    ensures (name, counter') == FreshNameOf(prop, taken, counter)
  {
    name := prop;
    counter' := counter;
    while name in taken
      invariant Probe(prop, taken, name, counter') == FreshNameOf(prop, taken, counter)
      decreases |TakenFrom(taken, prop, counter')| + (if name in taken then 1 else 0)
    {
      TakenFromStep(taken, prop, counter');
      name := Suffixed(prop, counter');
      counter' := counter' + 1;
    }
  }

  /** The name is free; a free proposed name is kept with the counter unchanged; otherwise
      the name is `prop_k` for the last counter value used, and every earlier try was taken. */
  lemma FreshNameSpec(prop: Name, taken: set<Name>, counter: nat)
    ensures FreshNameOf(prop, taken, counter).0 !in taken
    ensures prop !in taken ==> FreshNameOf(prop, taken, counter) == (prop, counter)
    ensures prop in taken ==> var (name, c') := FreshNameOf(prop, taken, counter);
              counter < c' && name == Suffixed(prop, c' - 1) &&
              forall k :: counter <= k < c' - 1 ==> Suffixed(prop, k) in taken
  {
  }

  // ---------------------------------------------------------------------------
  // The fixpoint
  // ---------------------------------------------------------------------------

  ghost function Firsts(u: map<Name, Pairs>): set<string>
  {
    set p, pr | p in u && pr in u[p] :: pr.0
  }

  ghost function Seconds(u: map<Name, Pairs>): set<string>
  {
    set p, pr | p in u && pr in u[p] :: pr.1
  }

  /** U x U, where U holds every object of the union relations. */
  ghost function Square(u: map<Name, Pairs>): Pairs
  {
    var objs := Firsts(u) + Seconds(u);
    set x, y | x in objs && y in objs :: (x, y)
  }

  ghost function Powerset(b: Pairs): set<Pairs>
  {
    set s | s <= b
  }

  lemma PrimitiveInSquare(u: map<Name, Pairs>, p: Name)
    requires p in u
    ensures u[p] <= Square(u)
  {
    forall pr | pr in u[p] ensures pr in Square(u) {
      assert pr.0 in Firsts(u) && pr.1 in Seconds(u);
    }
  }

  lemma ComposedInSquare(u: map<Name, Pairs>, a: Pairs, b: Pairs)
    requires a <= Square(u) && b <= Square(u)
    ensures Composed(a, b) <= Square(u)
  {
    forall pr | pr in Composed(a, b) ensures pr in Square(u) {
      ComposedElim(a, b, pr.0, pr.1);
      var y :| (pr.0, y) in a && (y, pr.1) in b;
    }
  }

  lemma ClosureInSquare(u: map<Name, Pairs>, a: Pairs)
    requires a <= Square(u)
    ensures Closure(a) <= Square(u)
  {
    ComposedInSquare(u, Square(u), a);
    ClosureLeast(a, Square(u));
  }

  lemma ValueInSquare(u: map<Name, Pairs>, d: Def, m: map<Name, Pairs>)
    requires !d.Primitive? && Operands(d) <= m.Keys
    requires forall n :: n in m ==> m[n] <= Square(u)
    ensures Value(d, m) <= Square(u)
  {
    match d
    case Inter(a, b) =>
    case Comp(a, b) => ComposedInSquare(u, m[a], m[b]);
    case Tc(a) => ClosureInSquare(u, m[a]);
  }

  /** Every relation is the value of its definition over the union relations `u`. */
  ghost predicate Faithful(u: map<Name, Pairs>, nameToSet: map<Name, Pairs>, defs: map<Name, Def>, rank: map<Name, nat>)
  {
    && defs.Keys == nameToSet.Keys
    && WellFormed(defs, rank)
    && forall n :: n in nameToSet ==> nameToSet[n] == Eval(defs, rank, u, n)
  }

  /** `set_to_name` points back to a name holding that relation, and every relation is indexed. */
  ghost predicate Indexed(nameToSet: map<Name, Pairs>, setToName: map<Pairs, Name>)
  {
    && (forall fs {:trigger setToName[fs]} :: fs in setToName ==> setToName[fs] in nameToSet && nameToSet[setToName[fs]] == fs)
    && (forall n {:trigger nameToSet[n]} :: n in nameToSet ==> nameToSet[n] in setToName)
  }

  /** Exactly the union predicates are primitive. */
  ghost predicate PrimitivesExact(u: map<Name, Pairs>, defs: map<Name, Def>)
  {
    && u.Keys <= defs.Keys
    && forall n :: n in defs ==> (defs[n] == Primitive <==> n in u)
  }

  /** Every relation lies in U x U. */
  ghost predicate InSquare(u: map<Name, Pairs>, nameToSet: map<Name, Pairs>)
  {
    forall n :: n in nameToSet ==> nameToSet[n] <= Square(u)
  }

  /** What the generator's four dictionaries keep true. */
  ghost predicate Consistent(u: map<Name, Pairs>, nameToSet: map<Name, Pairs>, setToName: map<Pairs, Name>,
                             defs: map<Name, Def>, rank: map<Name, nat>)
  {
    Faithful(u, nameToSet, defs, rank) && Indexed(nameToSet, setToName) && PrimitivesExact(u, defs) && InSquare(u, nameToSet)
  }

  /** The index from each union pair-set to a predicate with that union (line 74); when two
      predicates share a union, the one visited later keeps the entry. */
  method InitialIndex(u: map<Name, Pairs>) returns (setToName: map<Pairs, Name>)
    ensures forall fs :: fs in setToName ==> setToName[fs] in u && u[setToName[fs]] == fs
    ensures forall p :: p in u ==> u[p] in setToName
  {
    setToName := map[];
    var todo := u.Keys;
    while todo != {}
      invariant todo <= u.Keys
      invariant forall fs :: fs in setToName ==> setToName[fs] in u && u[setToName[fs]] == fs
      invariant forall p :: p in u && p !in todo ==> u[p] in setToName
      decreases |todo|
    {
      var p :| p in todo;
      setToName := setToName[u[p] := p];
      todo := todo - {p};
    }
  }

  lemma AddWellFormed(defs: map<Name, Def>, rank: map<Name, nat>, name: Name, d: Def, r: nat)
    requires WellFormed(defs, rank) && name !in defs && Operands(d) <= defs.Keys
    requires forall n :: n in rank ==> rank[n] < r
    ensures WellFormed(defs[name := d], rank[name := r])
  {
    var defs', rank' := defs[name := d], rank[name := r];
    forall n, o | n in defs' && o in Operands(defs'[n]) ensures o in defs' && rank'[o] < rank'[n] {
      if n != name {
        assert o in defs && rank[o] < rank[n];
      }
    }
  }

  lemma AddFaithful(u: map<Name, Pairs>, nameToSet: map<Name, Pairs>, defs: map<Name, Def>, rank: map<Name, nat>,
                    m0: map<Name, Pairs>, it: Item, name: Name, r: nat)
    requires Faithful(u, nameToSet, defs, rank) && Extends(nameToSet, m0) && name !in nameToSet
    requires !it.def.Primitive? && Operands(it.def) <= m0.Keys && it.pairs == Value(it.def, m0)
    requires forall n :: n in rank ==> rank[n] < r
    ensures Faithful(u, nameToSet[name := it.pairs], defs[name := it.def], rank[name := r])
  {
    var nameToSet', defs', rank' := nameToSet[name := it.pairs], defs[name := it.def], rank[name := r];
    AddWellFormed(defs, rank, name, it.def, r);
    forall n | n in defs ensures Eval(defs', rank', u, n) == Eval(defs, rank, u, n) {
      EvalExtend(defs, rank, defs', rank', u, n);
    }
    assert Eval(defs', rank', u, name) == it.pairs by {
      match it.def {
        case Inter(a, b) =>
        case Comp(a, b) =>
        case Tc(a) =>
      }
    }
  }

  lemma AddIndexed(nameToSet: map<Name, Pairs>, setToName: map<Pairs, Name>, fs: Pairs, name: Name)
    requires Indexed(nameToSet, setToName) && name !in nameToSet
    ensures Indexed(nameToSet[name := fs], setToName[fs := name])
  {
  }

  lemma AddInSquare(u: map<Name, Pairs>, nameToSet: map<Name, Pairs>, m0: map<Name, Pairs>, it: Item, name: Name)
    requires InSquare(u, nameToSet) && Extends(nameToSet, m0)
    requires !it.def.Primitive? && Operands(it.def) <= m0.Keys && it.pairs == Value(it.def, m0)
    ensures InSquare(u, nameToSet[name := it.pairs])
  {
    assert forall n :: n in m0 ==> m0[n] <= Square(u);
    ValueInSquare(u, it.def, m0);
  }

  /** Cardinality bound: the index holds subsets of U x U only. */
  lemma IndexBound(u: map<Name, Pairs>, nameToSet: map<Name, Pairs>, setToName: map<Pairs, Name>,
                   defs: map<Name, Def>, rank: map<Name, nat>)
    requires Consistent(u, nameToSet, setToName, defs, rank)
    ensures setToName.Keys <= Powerset(Square(u))
    ensures |setToName.Keys| <= |Powerset(Square(u))|
  {
    assert setToName.Keys <= Powerset(Square(u));
    CardSubset(setToName.Keys, Powerset(Square(u)));
  }

  /** The three dictionaries the generator updates. */
  datatype Tables = Tables(nameToSet: map<Name, Pairs>, setToName: map<Pairs, Name>, defs: map<Name, Def>)

  ghost predicate TablesConsistent(u: map<Name, Pairs>, t: Tables, rank: map<Name, nat>)
  {
    Consistent(u, t.nameToSet, t.setToName, t.defs, rank)
  }

  /** One iteration of the add loop: the item is entered under its fresh name. */
  ghost function Enter(t: Tables, it: Item, counter: nat): (Tables, nat)
  {
    var (name, c') := FreshNameOf(it.proposed, t.nameToSet.Keys, counter);
    (Tables(t.nameToSet[name := it.pairs], t.setToName[it.pairs := name], t.defs[name := it.def]), c')
  }

  /** The add loop over `new_items`, item by item. */
  ghost function AddAll(t: Tables, items: seq<Item>, counter: nat): (Tables, nat)
    decreases |items|
  {
    if items == [] then (t, counter)
    else
      var (t', c') := Enter(t, items[0], counter);
      AddAll(t', items[1..], c')
  }

  /** Enters every candidate item in turn under a fresh name; `changed` is set by any item. */
  method AddItems(t: Tables, newItems: seq<Item>, counter: nat) returns (t': Tables, counter': nat, changed: bool)
    ensures (t', counter') == AddAll(t, newItems, counter)
    ensures changed <==> newItems != []
  {
    t', counter', changed := t, counter, false;
    var k := 0;
    while k < |newItems|
      invariant 0 <= k <= |newItems|
      invariant AddAll(t', newItems[k..], counter') == AddAll(t, newItems, counter)
      invariant changed <==> k > 0
    {
      var item := newItems[k];
      assert newItems[k..][0] == item && newItems[k..][1..] == newItems[k + 1..];
      var name;
      name, counter' := FreshName(item.proposed, t'.nameToSet.Keys, counter');
      t' := Tables(t'.nameToSet[name := item.pairs], t'.setToName[item.pairs := name], t'.defs[name := item.def]);
      changed := true;
      k := k + 1;
    }
  }

  /** The name `Enter` gives an item, and what it does to the dictionaries. */
  lemma EnterIs(t: Tables, it: Item, counter: nat) returns (name: Name)
    ensures name !in t.nameToSet
    ensures Enter(t, it, counter).0 == Tables(t.nameToSet[name := it.pairs], t.setToName[it.pairs := name], t.defs[name := it.def])
  {
    name := FreshNameOf(it.proposed, t.nameToSet.Keys, counter).0;
    FreshNameSpec(it.proposed, t.nameToSet.Keys, counter);
  }

  /** Unfolding `AddAll` by one item. */
  lemma AddAllCons(t: Tables, items: seq<Item>, counter: nat)
    requires items != []
    ensures AddAll(t, items, counter) == AddAll(Enter(t, items[0], counter).0, items[1..], Enter(t, items[0], counter).1)
  {
  }

  /** Every added relation is the value of its definition (with ranks `nextRank`, `nextRank + 1`, ...). */
  lemma {:induction false} AddAllFaithful(u: map<Name, Pairs>, names: seq<Name>, m0: map<Name, Pairs>, known0: set<Pairs>,
                                          t: Tables, rank: map<Name, nat>, items: seq<Item>, counter: nat, nextRank: nat)
    returns (rank': map<Name, nat>)
    requires Faithful(u, t.nameToSet, t.defs, rank) && Extends(t.nameToSet, m0)
    requires AllAccepted(items, names, m0, known0)
    requires forall n :: n in rank ==> rank[n] < nextRank
    ensures Faithful(u, AddAll(t, items, counter).0.nameToSet, AddAll(t, items, counter).0.defs, rank')
    ensures forall n :: n in rank' ==> rank'[n] < nextRank + |items|
    decreases |items|
  {
    if items == [] {
      rank' := rank;
    } else {
      var it := items[0];
      var name := EnterIs(t, it, counter);
      var (t1, c1) := Enter(t, it, counter);
      AddFaithful(u, t.nameToSet, t.defs, rank, m0, it, name, nextRank);
      EnterExtends(t, it, counter);
      ExtendsTransitive(t1.nameToSet, t.nameToSet, m0);
      rank' := AddAllFaithful(u, names, m0, known0, t1, rank[name := nextRank], items[1..], c1, nextRank + 1);
      AddAllCons(t, items, counter);
    }
  }

  /** The index stays consistent with `name_to_set`. */
  lemma {:induction false} AddAllIndexed(t: Tables, items: seq<Item>, counter: nat)
    requires Indexed(t.nameToSet, t.setToName)
    ensures Indexed(AddAll(t, items, counter).0.nameToSet, AddAll(t, items, counter).0.setToName)
    decreases |items|
  {
    if items != [] {
      var name := EnterIs(t, items[0], counter);
      var (t1, c1) := Enter(t, items[0], counter);
      AddIndexed(t.nameToSet, t.setToName, items[0].pairs, name);
      AddAllIndexed(t1, items[1..], c1);
      AddAllCons(t, items, counter);
    }
  }

  /** Added names are never primitive, and `definitions` keeps the keys of `name_to_set`. */
  lemma {:induction false} AddAllPrimitives(u: map<Name, Pairs>, names: seq<Name>, m0: map<Name, Pairs>, known0: set<Pairs>,
                                            t: Tables, items: seq<Item>, counter: nat)
    requires PrimitivesExact(u, t.defs) && t.defs.Keys == t.nameToSet.Keys
    requires AllAccepted(items, names, m0, known0)
    ensures PrimitivesExact(u, AddAll(t, items, counter).0.defs)
    ensures AddAll(t, items, counter).0.defs.Keys == AddAll(t, items, counter).0.nameToSet.Keys
    decreases |items|
  {
    if items != [] {
      var name := EnterIs(t, items[0], counter);
      var (t1, c1) := Enter(t, items[0], counter);
      assert PrimitivesExact(u, t1.defs);
      AddAllPrimitives(u, names, m0, known0, t1, items[1..], c1);
      AddAllCons(t, items, counter);
    }
  }

  /** Added relations stay within U x U. */
  lemma {:induction false} AddAllInSquare(u: map<Name, Pairs>, names: seq<Name>, m0: map<Name, Pairs>, known0: set<Pairs>,
                                          t: Tables, items: seq<Item>, counter: nat)
    requires InSquare(u, t.nameToSet) && Extends(t.nameToSet, m0)
    requires AllAccepted(items, names, m0, known0)
    ensures InSquare(u, AddAll(t, items, counter).0.nameToSet)
    decreases |items|
  {
    if items != [] {
      var name := EnterIs(t, items[0], counter);
      var (t1, c1) := Enter(t, items[0], counter);
      AddInSquare(u, t.nameToSet, m0, items[0], name);
      EnterExtends(t, items[0], counter);
      ExtendsTransitive(t1.nameToSet, t.nameToSet, m0);
      AddAllInSquare(u, names, m0, known0, t1, items[1..], c1);
      AddAllCons(t, items, counter);
    }
  }

  /** Adding the accepted items of a pass keeps the dictionaries consistent. */
  lemma AddAllConsistent(u: map<Name, Pairs>, names: seq<Name>, m0: map<Name, Pairs>, known0: set<Pairs>,
                         t: Tables, rank: map<Name, nat>, items: seq<Item>, counter: nat, nextRank: nat)
    returns (rank': map<Name, nat>)
    requires TablesConsistent(u, t, rank) && t.nameToSet == m0
    requires AllAccepted(items, names, m0, known0)
    requires forall n :: n in rank ==> rank[n] < nextRank
    ensures TablesConsistent(u, AddAll(t, items, counter).0, rank')
    ensures forall n :: n in rank' ==> rank'[n] < nextRank + |items|
  {
    rank' := AddAllFaithful(u, names, m0, known0, t, rank, items, counter, nextRank);
    AddAllIndexed(t, items, counter);
    AddAllPrimitives(u, names, m0, known0, t, items, counter);
    AddAllInSquare(u, names, m0, known0, t, items, counter);
  }

  lemma ExtendsTransitive<K, V>(c: map<K, V>, b: map<K, V>, a: map<K, V>)
    requires Extends(c, b) && Extends(b, a)
    ensures Extends(c, a)
  {
  }

  /** Entering an item changes no existing entry of `name_to_set`. */
  lemma EnterExtends(t: Tables, it: Item, counter: nat)
    ensures Extends(Enter(t, it, counter).0.nameToSet, t.nameToSet)
  {
    FreshNameSpec(it.proposed, t.nameToSet.Keys, counter);
  }

  /** The add loop keeps every entry and index key and indexes the pair-set of every item. */
  lemma {:induction false} AddAllIndexes(t: Tables, items: seq<Item>, counter: nat)
    ensures Extends(AddAll(t, items, counter).0.nameToSet, t.nameToSet)
    ensures t.setToName.Keys <= AddAll(t, items, counter).0.setToName.Keys
    ensures forall k :: 0 <= k < |items| ==> items[k].pairs in AddAll(t, items, counter).0.setToName
    decreases |items|
  {
    if items != [] {
      var (t1, c1) := Enter(t, items[0], counter);
      AddAllIndexes(t1, items[1..], c1);
      EnterExtends(t, items[0], counter);
      ExtendsTransitive(AddAll(t1, items[1..], c1).0.nameToSet, t1.nameToSet, t.nameToSet);
      forall k | 1 <= k < |items| ensures items[k].pairs in AddAll(t, items, counter).0.setToName {
        assert items[k] == items[1..][k - 1];
      }
    }
  }

  /** The starting dictionaries: each predicate names its union and is defined as primitive. */
  lemma InitialConsistent(u: map<Name, Pairs>, setToName: map<Pairs, Name>)
    requires forall fs :: fs in setToName ==> setToName[fs] in u && u[setToName[fs]] == fs
    requires forall p :: p in u ==> u[p] in setToName
    ensures Consistent(u, u, setToName, map p | p in u :: Primitive, map p | p in u :: 0)
  {
    var defs: map<Name, Def> := map p | p in u :: Primitive;
    var rank: map<Name, nat> := map p | p in u :: 0;
    assert WellFormed(defs, rank);
    forall p | p in u ensures u[p] <= Square(u) {
      PrimitiveInSquare(u, p);
    }
  }

  lemma SortedIndexable(m: map<Name, Pairs>)
    ensures Indexable(SortedSeqOf(m.Keys), m)
  {
    var names := SortedSeqOf(m.Keys);
    forall k | 0 <= k < |names| ensures names[k] in m {
      assert names[k] in Elems(names);
    }
  }

  /** One pass of `while changed`: the new dictionaries, the counter, and `changed`. */
  ghost function PassSpec(t: Tables, counter: nat): (Tables, nat, bool)
  {
    var names := SortedSeqOf(t.nameToSet.Keys);
    SortedIndexable(t.nameToSet);
    var items := CandidateItems(names, t.nameToSet, t.setToName.Keys);
    var (t', c') := AddAll(t, items, counter);
    (t', c', items != [])
  }

  /** The items of one pass: all accepted over the sorted names, and none only when those
      names are saturated. */
  lemma PassItems(t: Tables, counter: nat) returns (names: seq<Name>, items: seq<Item>)
    ensures names == SortedSeqOf(t.nameToSet.Keys)
    ensures AllAccepted(items, names, t.nameToSet, t.setToName.Keys)
    ensures PassSpec(t, counter) == (AddAll(t, items, counter).0, AddAll(t, items, counter).1, items != [])
    ensures items == [] ==> Indexable(names, t.nameToSet) && Saturated(names, t.nameToSet, t.setToName.Keys)
  {
    names := SortedSeqOf(t.nameToSet.Keys);
    SortedIndexable(t.nameToSet);
    items := CandidateItems(names, t.nameToSet, t.setToName.Keys);
    forall it | it in items ensures Accepted(it, names, t.nameToSet, t.setToName.Keys) {
      CandidatesAccepted(names, t.nameToSet, t.setToName.Keys, it);
    }
    AllAcceptedOf(items, names, t.nameToSet, t.setToName.Keys);
    if items == [] {
      CandidatesEmpty(names, t.nameToSet, t.setToName.Keys);
    }
  }

  /** Adding accepted items keeps the dictionaries consistent and their entries, and adding at
      least one grows the index: its first item's pair-set was not indexed before. */
  lemma AddAllOutcome(u: map<Name, Pairs>, names: seq<Name>, t: Tables, rank: map<Name, nat>,
                      items: seq<Item>, counter: nat, nextRank: nat)
    returns (rank': map<Name, nat>)
    requires TablesConsistent(u, t, rank) && forall n :: n in rank ==> rank[n] < nextRank
    requires AllAccepted(items, names, t.nameToSet, t.setToName.Keys)
    ensures TablesConsistent(u, AddAll(t, items, counter).0, rank')
    ensures forall n :: n in rank' ==> rank'[n] < nextRank + |items|
    ensures Extends(AddAll(t, items, counter).0.nameToSet, t.nameToSet)
    ensures items != [] ==> |t.setToName.Keys| < |AddAll(t, items, counter).0.setToName.Keys|
  {
    rank' := AddAllConsistent(u, names, t.nameToSet, t.setToName.Keys, t, rank, items, counter, nextRank);
    AddAllIndexes(t, items, counter);
    if items != [] {
      var keys' := AddAll(t, items, counter).0.setToName.Keys;
      assert items[0].pairs in keys' && items[0].pairs !in t.setToName.Keys;
      CardSubset(t.setToName.Keys, keys');
    }
  }

  /** What one pass achieves: the dictionaries stay consistent and keep their entries; a pass
      that adds something grows the index; a pass that adds nothing leaves the dictionaries as
      they were, and then every proposal over the sorted names is blocked. */
  lemma PassConsistent(u: map<Name, Pairs>, t: Tables, rank: map<Name, nat>, counter: nat, nextRank: nat)
    returns (rank': map<Name, nat>, nextRank': nat)
    requires TablesConsistent(u, t, rank) && forall n :: n in rank ==> rank[n] < nextRank
    ensures TablesConsistent(u, PassSpec(t, counter).0, rank') && forall n :: n in rank' ==> rank'[n] < nextRank'
    ensures Extends(PassSpec(t, counter).0.nameToSet, t.nameToSet)
    ensures PassSpec(t, counter).2 ==> |t.setToName.Keys| < |PassSpec(t, counter).0.setToName.Keys|
    ensures !PassSpec(t, counter).2 ==> PassSpec(t, counter).0 == t
    ensures !PassSpec(t, counter).2 ==> Indexable(SortedSeqOf(t.nameToSet.Keys), t.nameToSet)
    ensures !PassSpec(t, counter).2 ==> Saturated(SortedSeqOf(t.nameToSet.Keys), t.nameToSet, t.setToName.Keys)
  {
    var names, newItems := PassItems(t, counter);
    rank' := AddAllOutcome(u, names, t, rank, newItems, counter, nextRank);
    nextRank' := nextRank + |newItems|;
  }

  /** One pass of `while changed`: propose over the sorted names, then add. */
  method Pass(t: Tables, counter: nat) returns (t': Tables, counter': nat, changed: bool)
    ensures (t', counter', changed) == PassSpec(t, counter)
  {
    var names := SortStrings(t.nameToSet.Keys);
    SortedIndexable(t.nameToSet);
    var newItems := Candidates(names, t.nameToSet, t.setToName);
    t', counter', changed := AddItems(t, newItems, counter);
  }

  /** A pass together with what it keeps: consistency, the relations already named, and growth
      of the index while something changes; when nothing changes the tables are saturated. */
  method Step(ghost u: map<Name, Pairs>, t: Tables, counter: nat, ghost rank: map<Name, nat>, ghost nextRank: nat)
    returns (t': Tables, counter': nat, changed: bool, ghost rank': map<Name, nat>, ghost nextRank': nat)
    requires TablesConsistent(u, t, rank) && forall n :: n in rank ==> rank[n] < nextRank
    ensures (t', counter', changed) == PassSpec(t, counter)
    ensures TablesConsistent(u, t', rank') && forall n :: n in rank' ==> rank'[n] < nextRank'
    ensures Extends(t'.nameToSet, t.nameToSet)
    ensures changed ==> |t.setToName.Keys| < |t'.setToName.Keys|
    ensures !changed ==> t' == t
    ensures !changed ==> Indexable(SortedSeqOf(t.nameToSet.Keys), t.nameToSet)
                         && Saturated(SortedSeqOf(t.nameToSet.Keys), t.nameToSet, t.setToName.Keys)
  {
    rank', nextRank' := PassConsistent(u, t, rank, counter, nextRank);
    t', counter', changed := Pass(t, counter);
  }

  /** The fixpoint loop of the role generator, starting from the unions: on exit
      the dictionaries are consistent, the union relations are kept, and no proposal over the
      final names would be accepted. */
  method GenerateDefinitions(u: map<Name, Pairs>) returns (t: Tables, ghost rank: map<Name, nat>)
    ensures TablesConsistent(u, t, rank)
    ensures Extends(t.nameToSet, u)
    ensures Indexable(SortedSeqOf(t.nameToSet.Keys), t.nameToSet)
    ensures Saturated(SortedSeqOf(t.nameToSet.Keys), t.nameToSet, t.setToName.Keys)
  {
    var setToName := InitialIndex(u);
    t := Tables(u, setToName, map p | p in u :: Primitive);
    rank := map p | p in u :: 0;
    InitialConsistent(u, setToName);
    ghost var nextRank: nat := 1;
    var relCounter: nat := 1;
    var changed := true;
    ghost var bound := |Powerset(Square(u))|;
    while changed
      invariant TablesConsistent(u, t, rank) && forall n :: n in rank ==> rank[n] < nextRank
      invariant Extends(t.nameToSet, u)
      invariant !changed ==> Indexable(SortedSeqOf(t.nameToSet.Keys), t.nameToSet) &&
                             Saturated(SortedSeqOf(t.nameToSet.Keys), t.nameToSet, t.setToName.Keys)
      decreases bound - |t.setToName.Keys|, changed
    {
      t, relCounter, changed, rank, nextRank := FixpointTurn(u, t, relCounter, rank, nextRank);
    }
  }

  /** One turn of the fixpoint loop: a pass keeps the loop's invariant, and while it changes
      something the index grows towards its finite bound. */
  method FixpointTurn(ghost u: map<Name, Pairs>, t: Tables, counter: nat, ghost rank: map<Name, nat>,
                      ghost nextRank: nat)
    returns (t': Tables, counter': nat, changed: bool, ghost rank': map<Name, nat>, ghost nextRank': nat)
    requires TablesConsistent(u, t, rank) && forall n :: n in rank ==> rank[n] < nextRank
    requires Extends(t.nameToSet, u)
    ensures TablesConsistent(u, t', rank') && forall n :: n in rank' ==> rank'[n] < nextRank'
    ensures Extends(t'.nameToSet, u)
    ensures |t.setToName.Keys| <= |Powerset(Square(u))|
    ensures changed ==> |t.setToName.Keys| < |t'.setToName.Keys|
    ensures !changed ==> t' == t
    ensures !changed ==> Indexable(SortedSeqOf(t'.nameToSet.Keys), t'.nameToSet)
                         && Saturated(SortedSeqOf(t'.nameToSet.Keys), t'.nameToSet, t'.setToName.Keys)
  {
    IndexBound(u, t.nameToSet, t.setToName, t.defs, rank);
    t', counter', changed, rank', nextRank' := Step(u, t, counter, rank, nextRank);
    ExtendsTransitive(t'.nameToSet, t.nameToSet, u);
  }
}
