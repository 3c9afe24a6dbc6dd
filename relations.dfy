/**
 * Binary relations as finite sets of pairs, and the two operators the role generator builds on
 * them besides intersection: composition and transitive closure (both as loops over the pairs,
 * each proved equal to a specification function whose properties are proved as lemmas).
 */
module Relations {
  import Text

  type Rel<T(==)> = set<(T, T)>

  function Dom<T(==,!new)>(r: Rel<T>): set<T>
  {
    set p | p in r :: p.0
  }

  function Ran<T(==,!new)>(r: Rel<T>): set<T>
  {
    set p | p in r :: p.1
  }

  /** Every pair whose first component is in the domain and second in the range of `r`. */
  function Box<T(==,!new)>(r: Rel<T>): Rel<T>
  {
    set x, y | x in Dom(r) && y in Ran(r) :: (x, y)
  }

  /** Relational composition: first a step of `r1`, then a step of `r2`. */
  function Composed<T(==,!new)>(r1: Rel<T>, r2: Rel<T>): Rel<T>
  {
    set p, q | p in r1 && q in r2 && p.1 == q.0 :: (p.0, q.1)
  }

  lemma ComposedIntro<T(!new)>(r1: Rel<T>, r2: Rel<T>, x: T, y: T, z: T)
    requires (x, y) in r1 && (y, z) in r2
    ensures (x, z) in Composed(r1, r2)
  {
    var p, q := (x, y), (y, z);
    assert p in r1 && q in r2 && p.1 == q.0;
  }

  lemma ComposedElim<T(!new)>(r1: Rel<T>, r2: Rel<T>, x: T, z: T)
    requires (x, z) in Composed(r1, r2)
    ensures exists y :: (x, y) in r1 && (y, z) in r2
  {
  }

  /** `compose(r1, r2)` is exactly {(x, z) | some y has (x, y) in r1 and (y, z) in r2}. */
  lemma ComposedMembers<T(!new)>(r1: Rel<T>, r2: Rel<T>, x: T, z: T)
    ensures (x, z) in Composed(r1, r2) <==> exists y :: (x, y) in r1 && (y, z) in r2
  {
    if y :| (x, y) in r1 && (y, z) in r2 {
      ComposedIntro(r1, r2, x, y, z);
    }
  }


  /** `r` extended by the pairs one more step of `rel` reaches from it. */
  function Step<T(==,!new)>(rel: Rel<T>, reach: Rel<T>): Rel<T>
  {
    reach + Composed(reach, rel)
  }

  /** `reach` is closed under extending a pair by one step of `rel`. */
  predicate ClosedUnder<T(==,!new)>(reach: Rel<T>, rel: Rel<T>)
  {
    Composed(reach, rel) <= reach
  }

  lemma BaseInBox<T(!new)>(rel: Rel<T>)
    ensures rel <= Box(rel)
  {
    forall p | p in rel ensures p in Box(rel) {
      assert p.0 in Dom(rel) && p.1 in Ran(rel);
    }
  }

  lemma StepInBox<T(!new)>(rel: Rel<T>, reach: Rel<T>)
    requires reach <= Box(rel)
    ensures Step(rel, reach) <= Box(rel)
  {
    forall p | p in Composed(reach, rel) ensures p in Box(rel) {
      var y :| (p.0, y) in reach && (y, p.1) in rel;
      assert p.1 in Ran(rel);
    }
  }

  /** Iterates `Step` from `reach` until nothing new is reached. */
  function Fix<T(==,!new)>(rel: Rel<T>, reach: Rel<T>): (r: Rel<T>)
    requires reach <= Box(rel)
    ensures reach <= r
    ensures ClosedUnder(r, rel)
    decreases |Box(rel) - reach|
  {
    StepInBox(rel, reach);
    var next := Step(rel, reach);
    if next == reach then reach
    else
      Text.CardSubset(Box(rel) - next, Box(rel) - reach);
      Fix(rel, next)
  }

  /** The transitive closure of `rel`: iterated self-composition, never reflexively padded. */
  function Closure<T(==,!new)>(rel: Rel<T>): (r: Rel<T>)
    ensures rel <= r
    ensures ClosedUnder(r, rel)
  {
    BaseInBox(rel);
    Fix(rel, rel)
  }

  lemma {:induction false} FixLeast<T(!new)>(rel: Rel<T>, reach: Rel<T>, s: Rel<T>)
    requires reach <= Box(rel)
    requires reach <= s && ClosedUnder(s, rel)
    ensures Fix(rel, reach) <= s
    decreases |Box(rel) - reach|
  {
    StepInBox(rel, reach);
    var next := Step(rel, reach);
    if next != reach {
      Text.CardSubset(Box(rel) - next, Box(rel) - reach);
      ComposedMonotone(reach, s, rel, rel);
      FixLeast(rel, next, s);
    }
  }

  /** The closure is contained in every superset of `rel` closed under `rel` steps. */
  lemma ClosureLeast<T(!new)>(rel: Rel<T>, s: Rel<T>)
    requires rel <= s && ClosedUnder(s, rel)
    ensures Closure(rel) <= s
  {
    BaseInBox(rel);
    FixLeast(rel, rel, s);
  }

  /** Every closure pair is a pair of `rel` or a closure pair extended by one `rel` step. */
  lemma ClosureDecompose<T(!new)>(rel: Rel<T>, x: T, z: T)
    requires (x, z) in Closure(rel)
    ensures (x, z) in rel || exists y :: (x, y) in Closure(rel) && (y, z) in rel
  {
    var r := Closure(rel);
    var s := set p | p in r && (p in rel || exists y :: (p.0, y) in r && (y, p.1) in rel);
    forall p | p in Composed(s, rel) ensures p in s {
      ComposedElim(s, rel, p.0, p.1);
      var y :| (p.0, y) in s && (y, p.1) in rel;
      ComposedIntro(r, rel, p.0, y, p.1);
    }
    ClosureLeast(rel, s);
    assert (x, z) in s;
  }

  lemma ClosureJoin<T(!new)>(rel: Rel<T>, x: T, y: T, z: T)
    requires (x, y) in Closure(rel) && (y, z) in Closure(rel)
    ensures (x, z) in Closure(rel)
  {
    var r := Closure(rel);
    var s := set p | p in r && ((x, p.0) in r ==> (x, p.1) in r);
    forall p | p in rel ensures p in s {
      if (x, p.0) in r {
        ComposedIntro(r, rel, x, p.0, p.1);
      }
    }
    forall p | p in Composed(s, rel) ensures p in s {
      ComposedElim(s, rel, p.0, p.1);
      var w :| (p.0, w) in s && (w, p.1) in rel;
      ComposedIntro(r, rel, p.0, w, p.1);
      if (x, p.0) in r {
        ComposedIntro(r, rel, x, w, p.1);
      }
    }
    ClosureLeast(rel, s);
    assert (y, z) in s;
  }

  /** The closure is transitive. */
  lemma ClosureTransitive<T(!new)>(rel: Rel<T>)
    ensures ClosedUnder(Closure(rel), Closure(rel))
  {
    var r := Closure(rel);
    forall p | p in Composed(r, r) ensures p in r {
      ComposedElim(r, r, p.0, p.1);
      var y :| (p.0, y) in r && (y, p.1) in r;
      ClosureJoin(rel, p.0, y, p.1);
    }
  }

  /** `tc(tc(r)) == tc(r)`. */
  lemma ClosureIdempotent<T(!new)>(rel: Rel<T>)
    ensures Closure(Closure(rel)) == Closure(rel)
  {
    ClosureTransitive(rel);
    ClosureLeast(Closure(rel), Closure(rel));
  }

  lemma ComposedMonotone<T(!new)>(a1: Rel<T>, a2: Rel<T>, b1: Rel<T>, b2: Rel<T>)
    requires a1 <= a2 && b1 <= b2
    ensures Composed(a1, b1) <= Composed(a2, b2)
  {
    forall p | p in Composed(a1, b1) ensures p in Composed(a2, b2) {
      ComposedElim(a1, b1, p.0, p.1);
      var y :| (p.0, y) in a1 && (y, p.1) in b1;
      ComposedIntro(a2, b2, p.0, y, p.1);
    }
  }

  /** A larger relation has a larger closure. */
  lemma ClosureMonotone<T(!new)>(r1: Rel<T>, r2: Rel<T>)
    requires r1 <= r2
    ensures Closure(r1) <= Closure(r2)
  {
    ComposedMonotone(Closure(r2), Closure(r2), r1, r2);
    ClosureLeast(r1, Closure(r2));
  }

  /** Composition is directional: {(1,2)} then {(2,3)} is {(1,3)}, the other order is empty. */
  lemma ComposeExample()
    ensures Composed({(1, 2)}, {(2, 3)}) == {(1, 3)}
    ensures Composed({(2, 3)}, {(1, 2)}) == {}
  {
    ComposedIntro({(1, 2)}, {(2, 3)}, 1, 2, 3);
    forall p | p in Composed({(1, 2)}, {(2, 3)}) ensures p == (1, 3) {
      ComposedElim({(1, 2)}, {(2, 3)}, p.0, p.1);
    }
    forall p | p in Composed({(2, 3)}, {(1, 2)}) ensures false {
      ComposedElim({(2, 3)}, {(1, 2)}, p.0, p.1);
    }
  }

  /** Every closure pair (x, z) has x in the domain and z in the range of `rel`. */
  lemma ClosureInBox<T(!new)>(rel: Rel<T>)
    ensures Closure(rel) <= Box(rel)
  {
    BaseInBox(rel);
    forall p | p in Composed(Box(rel), rel) ensures p in Box(rel) {
      ComposedElim(Box(rel), rel, p.0, p.1);
      var y :| (p.0, y) in Box(rel) && (y, p.1) in rel;
      assert p.1 in Ran(rel);
    }
    ClosureLeast(rel, Box(rel));
  }

  /** A walk of at least one step along `rel`. */
  ghost predicate IsPath<T(!new)>(rel: Rel<T>, path: seq<T>)
  {
    |path| >= 2 && forall i :: 0 <= i < |path| - 1 ==> (path[i], path[i + 1]) in rel
  }

  /** `z` can be reached from `x` in one or more `rel` steps. */
  ghost predicate Reaches<T(!new)>(rel: Rel<T>, x: T, z: T)
  {
    exists path :: IsPath(rel, path) && path[0] == x && path[|path| - 1] == z
  }

  lemma {:induction false} PathInClosure<T(!new)>(rel: Rel<T>, path: seq<T>)
    requires IsPath(rel, path)
    ensures (path[0], path[|path| - 1]) in Closure(rel)
    decreases |path|
  {
    var n := |path|;
    if n > 2 {
      var front := path[..n - 1];
      assert IsPath(rel, front) by {
        forall i | 0 <= i < |front| - 1 ensures (front[i], front[i + 1]) in rel {
          assert front[i] == path[i] && front[i + 1] == path[i + 1];
        }
      }
      PathInClosure(rel, front);
      assert (path[n - 2], path[n - 1]) in rel;
      ComposedIntro(Closure(rel), rel, path[0], path[n - 2], path[n - 1]);
    } else {
      assert (path[0], path[1]) in rel;
    }
  }

  lemma ReachesExtend<T(!new)>(rel: Rel<T>, x: T, y: T, z: T)
    requires Reaches(rel, x, y) && (y, z) in rel
    ensures Reaches(rel, x, z)
  {
    var path :| IsPath(rel, path) && path[0] == x && path[|path| - 1] == y;
    var longer := path + [z];
    forall i | 0 <= i < |longer| - 1 ensures (longer[i], longer[i + 1]) in rel {
      if i < |path| - 1 {
        assert longer[i] == path[i] && longer[i + 1] == path[i + 1];
      }
    }
    assert IsPath(rel, longer) && longer[0] == x && longer[|longer| - 1] == z;
  }

  lemma ClosureHasPath<T(!new)>(rel: Rel<T>, x: T, z: T)
    requires (x, z) in Closure(rel)
    ensures Reaches(rel, x, z)
  {
    var r := Closure(rel);
    var s := set p | p in r && Reaches(rel, p.0, p.1);
    forall p | p in rel ensures p in s {
      assert IsPath(rel, [p.0, p.1]);
    }
    forall p | p in Composed(s, rel) ensures p in s {
      ComposedElim(s, rel, p.0, p.1);
      var y :| (p.0, y) in s && (y, p.1) in rel;
      ReachesExtend(rel, p.0, y, p.1);
      ComposedIntro(r, rel, p.0, y, p.1);
    }
    ClosureLeast(rel, s);
    assert (x, z) in s;
  }

  /** `(x, z)` is in the closure exactly when `z` is reachable from `x`; in particular a
      reflexive pair `(x, x)` is added only when `x` lies on a cycle. */
  lemma ClosurePaths<T(!new)>(rel: Rel<T>, x: T, z: T)
    ensures (x, z) in Closure(rel) <==> Reaches(rel, x, z)
  {
    if Reaches(rel, x, z) {
      var path :| IsPath(rel, path) && path[0] == x && path[|path| - 1] == z;
      PathInClosure(rel, path);
    }
    if (x, z) in Closure(rel) {
      ClosureHasPath(rel, x, z);
    }
  }

  /** No reflexive pair is added to a relation without a cycle: tc({(a,b)}) is {(a,b)};
      with the cycle a -> b -> a the pair (a,a) is reachable and is added. */
  lemma ClosureExample<T(!new)>(a: T, b: T)
    requires a != b
    ensures Closure({(a, b)}) == {(a, b)}
    ensures (a, a) in Closure({(a, b), (b, a)})
  {
    var r := {(a, b)};
    forall p | p in Composed(r, r) ensures false {
      ComposedElim(r, r, p.0, p.1);
    }
    ClosureLeast(r, r);
    var c := {(a, b), (b, a)};
    ComposedIntro(Closure(c), c, a, b, a);
  }

  lemma ComposedAddLeft<T(!new)>(a: Rel<T>, p: (T, T), r: Rel<T>)
    ensures Composed(a + {p}, r) == Composed(a, r) + Composed({p}, r)
  {
    forall u | u in Composed(a + {p}, r) ensures u in Composed(a, r) + Composed({p}, r) {
      ComposedElim(a + {p}, r, u.0, u.1);
      var y :| (u.0, y) in a + {p} && (y, u.1) in r;
      if (u.0, y) in a {
        ComposedIntro(a, r, u.0, y, u.1);
      } else {
        ComposedIntro({p}, r, u.0, y, u.1);
      }
    }
    ComposedMonotone(a, a + {p}, r, r);
    ComposedMonotone({p}, a + {p}, r, r);
  }

  /** Composing one pair with one more pair adds at most the joined pair. */
  lemma ComposedAddRight<T(!new)>(p: (T, T), b: Rel<T>, q: (T, T))
    ensures Composed({p}, b + {q}) == Composed({p}, b) + (if p.1 == q.0 then {(p.0, q.1)} else {})
  {
    forall u | u in Composed({p}, b + {q})
      ensures u in Composed({p}, b) + (if p.1 == q.0 then {(p.0, q.1)} else {})
    {
      ComposedElim({p}, b + {q}, u.0, u.1);
      var y :| (u.0, y) in {p} && (y, u.1) in b + {q};
      if (y, u.1) in b {
        ComposedIntro({p}, b, u.0, y, u.1);
      }
    }
    ComposedMonotone({p}, {p}, b, b + {q});
    if p.1 == q.0 {
      ComposedIntro({p}, b + {q}, p.0, p.1, q.1);
    }
  }

  /** One pass of the inner loop of `compose`: the pair `q` of `rel2` is met after the pairs `seen`. */
  lemma ComposeInnerStep<T(!new)>(before: Rel<T>, p: (T, T), seen: Rel<T>, q: (T, T), composed: Rel<T>)
    requires composed == before + Composed({p}, seen)
    ensures (if p.1 == q.0 then composed + {(p.0, q.1)} else composed) == before + Composed({p}, seen + {q})
  {
    ComposedAddRight(p, seen, q);
  }

  /** One pass of the outer loop of `compose`: the pair `p` of `rel1` has met every pair of `rel2`. */
  lemma ComposeOuterStep<T(!new)>(done: Rel<T>, r2: Rel<T>, p: (T, T), composed: Rel<T>)
    requires composed == Composed(done, r2) + Composed({p}, r2)
    ensures composed == Composed(done + {p}, r2)
  {
    ComposedAddLeft(done, p, r2);
  }

  /** The inner loop of `compose`: the pair `p` of `rel1` meets every pair of `rel2`. */
  method ComposeOne<T(==,!new)>(p: (T, T), r2: Rel<T>, before: Rel<T>) returns (composed: Rel<T>)
    ensures composed == before + Composed({p}, r2)
  {
    composed := before;
    var inner := r2;
    ghost var seen: Rel<T> := {};
    while inner != {}
      invariant seen + inner == r2
      invariant composed == before + Composed({p}, seen)
      decreases |inner|
    {
      var q :| q in inner;
      ComposeInnerStep(before, p, seen, q, composed);
      if p.1 == q.0 {
        composed := composed + {(p.0, q.1)};
      }
      seen := seen + {q};
      inner := inner - {q};
    }
  }

  /** `compose(rel1, rel2)`: nested loops over the pairs of both relations. */
  method Compose<T(==,!new)>(r1: Rel<T>, r2: Rel<T>) returns (composed: Rel<T>)
    ensures composed == Composed(r1, r2)
  {
    composed := {};
    var outer := r1;
    ghost var done: Rel<T> := {};
    while outer != {}
      invariant done + outer == r1
      invariant composed == Composed(done, r2)
      decreases |outer|
    {
      var p :| p in outer;
      composed := ComposeOne(p, r2, composed);
      ComposeOuterStep(done, r2, p, composed);
      done := done + {p};
      outer := outer - {p};
    }
  }

  /** The test of the inner loop of `transitive_closure`: `p` followed by `q` leads to a pair not yet reachable. */
  predicate Hit<T(==)>(p: (T, T), q: (T, T), reach: Rel<T>)
  {
    p.1 == q.0 && (p.0, q.1) !in reach
  }

  /** One pass of the inner loop of `transitive_closure`: the pair `q` of `rel` is met after the pairs `seen`. */
  lemma ClosureInnerStep<T(!new)>(before: Rel<T>, p: (T, T), seen: Rel<T>, q: (T, T), reach: Rel<T>, newPairs: Rel<T>)
    requires newPairs == before + (Composed({p}, seen) - reach)
    ensures (if Hit(p, q, reach) then newPairs + {(p.0, q.1)} else newPairs)
            == before + (Composed({p}, seen + {q}) - reach)
  {
    ComposedAddRight(p, seen, q);
  }

  /** Some pair of `rel` is a hit for `p` exactly when `p` followed by `rel` leaves `reach`. */
  lemma HitsLeave<T(!new)>(p: (T, T), rel: Rel<T>, reach: Rel<T>)
    ensures (exists q :: q in rel && Hit(p, q, reach)) <==> Composed({p}, rel) - reach != {}
  {
    if exists q :: q in rel && Hit(p, q, reach) {
      var q :| q in rel && Hit(p, q, reach);
      ComposedIntro({p}, rel, p.0, p.1, q.1);
      assert (p.0, q.1) in Composed({p}, rel) - reach;
    }
    if Composed({p}, rel) - reach != {} {
      var e :| e in Composed({p}, rel) - reach;
      ComposedElim({p}, rel, e.0, e.1);
      var y :| (e.0, y) in {p} && (y, e.1) in rel;
      assert Hit(p, (y, e.1), reach);
    }
  }

  /** The inner loop of `transitive_closure`: the pair `p` of `reachable` is joined with every pair of `rel`. */
  method ExtendFrom<T(==,!new)>(p: (T, T), rel: Rel<T>, reach: Rel<T>, newPairs: Rel<T>, changed: bool)
    returns (newPairs': Rel<T>, changed': bool)
    ensures newPairs' == newPairs + (Composed({p}, rel) - reach)
    ensures changed' <==> changed || Composed({p}, rel) - reach != {}
  {
    newPairs', changed' := newPairs, changed;
    var inner := rel;
    ghost var seen: Rel<T> := {};
    while inner != {}
      invariant seen + inner == rel
      invariant newPairs' == newPairs + (Composed({p}, seen) - reach)
      invariant changed' <==> changed || exists q :: q in seen && Hit(p, q, reach)
      decreases |inner|
    {
      var q :| q in inner;
      ClosureInnerStep(newPairs, p, seen, q, reach, newPairs');
      if p.1 == q.0 && (p.0, q.1) !in reach {
        newPairs' := newPairs' + {(p.0, q.1)};
        changed' := true;
      }
      seen := seen + {q};
      inner := inner - {q};
    }
    HitsLeave(p, rel, reach);
  }

  /** Nothing composes with the empty relation. */
  lemma ComposedEmptyLeft<T(!new)>(rel: Rel<T>)
    ensures Composed({}, rel) == {}
  {
  }

  /** One pass of the middle loop of `transitive_closure`: the pair `p` of `reachable` has met every pair of `rel`. */
  lemma ClosureOuterStep<T(!new)>(rel: Rel<T>, reach: Rel<T>, done: Rel<T>, p: (T, T),
                                  newPairs: Rel<T>, changed: bool, newPairs': Rel<T>, changed': bool)
    requires newPairs == Composed(done, rel) - reach
    requires changed <==> newPairs != {}
    requires newPairs' == newPairs + (Composed({p}, rel) - reach)
    requires changed' <==> changed || Composed({p}, rel) - reach != {}
    ensures newPairs' == Composed(done + {p}, rel) - reach
    ensures changed' <==> newPairs' != {}
  {
    ComposedAddLeft(done, p, rel);
    if changed' {
      if changed {
        var e :| e in newPairs;
        assert e in newPairs';
      } else {
        var e :| e in Composed({p}, rel) - reach;
        assert e in newPairs';
      }
    }
  }

  /** The pass ends with `reachable.update(new_pairs)`: it adds nothing exactly when `reachable` is closed. */
  lemma ClosurePassStep<T(!new)>(rel: Rel<T>, reach: Rel<T>, newPairs: Rel<T>)
    requires newPairs == Composed(reach, rel) - reach
    ensures newPairs == {} <==> ClosedUnder(reach, rel)
  {
    if newPairs != {} {
      var e :| e in newPairs;
      assert e in Composed(reach, rel) && e !in reach;
    } else {
      forall e | e in Composed(reach, rel) ensures e in reach {
        assert e !in newPairs;
      }
    }
  }

  /** A pass never leaves the closure. */
  lemma PassWithin<T(!new)>(rel: Rel<T>, c: Rel<T>, reach: Rel<T>, newPairs: Rel<T>)
    requires reach <= c && ClosedUnder(c, rel)
    requires newPairs == Composed(reach, rel) - reach
    ensures reach + newPairs <= c
  {
    ComposedMonotone(reach, c, rel, rel);
  }

  /** The body of one pass of `transitive_closure`: every pair of `reachable` is joined with every pair of `rel`. */
  method NewPairs<T(==,!new)>(rel: Rel<T>, reachable: Rel<T>) returns (newPairs: Rel<T>, changed: bool)
    ensures newPairs == Composed(reachable, rel) - reachable
    ensures changed <==> newPairs != {}
  {
    changed := false;
    newPairs := {};
    var todo := reachable;
    ghost var done: Rel<T> := {};
    ComposedEmptyLeft(rel);
    while todo != {}
      invariant done + todo == reachable
      invariant newPairs == Composed(done, rel) - reachable
      invariant changed <==> newPairs != {}
      decreases |todo|
    {
      var p :| p in todo;
      var newPairs', changed' := ExtendFrom(p, rel, reachable, newPairs, changed);
      ClosureOuterStep(rel, reachable, done, p, newPairs, changed, newPairs', changed');
      newPairs, changed := newPairs', changed';
      done := done + {p};
      todo := todo - {p};
    }
    assert done == reachable;
  }

  /** `transitive_closure(rel)`: extends `reachable` by one `rel` step per pass until a pass adds nothing. */
  method TransitiveClosure<T(==,!new)>(rel: Rel<T>) returns (reachable: Rel<T>)
    ensures reachable == Closure(rel)
  {
    ghost var c := Closure(rel);
    reachable := rel;
    var changed := true;
    while changed
      invariant rel <= reachable <= c
      invariant !changed ==> ClosedUnder(reachable, rel)
      decreases |c - reachable|, changed
    {
      var newPairs;
      newPairs, changed := NewPairs(rel, reachable);
      ghost var previous := reachable;
      ClosurePassStep(rel, previous, newPairs);
      PassWithin(rel, c, previous, newPairs);
      reachable := reachable + newPairs;
      if changed {
        var e :| e in newPairs;
        Text.CardSubset(c - reachable, c - previous);
      }
    }
    ClosureLeast(rel, reachable);
  }
}
