/**
 * The table printer for the solver's output: token cleaning, column widths, the lookup of a
 * rule's parameter, the order of the states along the `good/2` chain, the objects a feature
 * holds at the last time step, and the rows of the second and third tables. Facts arrive
 * already parsed into tuples of their raw text.
 */
module Tables {
  import opened Wrappers
  import opened Text

  // ---------------------------------------------------------------------------
  // clean_token
  // ---------------------------------------------------------------------------

  /** `r` is `t`, or what lies inside a pair of double quotes that encloses `t`. */
  predicate QuotesDropped(t: string, r: string)
  {
    r == t || (|r| + 2 == |t| && t[0] == '"' && t[|r| + 1] == '"' && t[1..|r| + 1] == r)
  }

  /** Strips whitespace, then drops one pair of enclosing double quotes. */
  function CleanToken(tok: string): (r: string)
    ensures QuotesDropped(Strip(tok), r)
  {
    var t := Strip(tok);
    if |t| >= 2 && t[0] == '"' && t[|t| - 1] == '"' then t[1..|t| - 1] else t
  }

  predicate Blanks(pad: string)
  {
    forall k :: 0 <= k < |pad| ==> IsSpace(pad[k])
  }

  /** A quoted token loses its padding and exactly one pair of quotes, whatever it holds. */
  lemma CleanTokenQuoted(left: string, s: string, right: string)
    requires Blanks(left) && Blanks(right)
    ensures CleanToken(left + "\"" + s + "\"" + right) == s
  {
    var q := "\"" + s + "\"";
    assert left + "\"" + s + "\"" + right == left + q + right;
    assert !IsSpace(q[0]) && !IsSpace(q[|q| - 1]);
    StripPadded(left, q, right);
    assert q[1..|q| - 1] == s;
  }

  /** A token not enclosed in quotes only loses its padding. */
  lemma CleanTokenBare(left: string, s: string, right: string)
    requires Blanks(left) && Blanks(right)
    requires s == [] || (!IsSpace(s[0]) && !IsSpace(s[|s| - 1]))
    requires |s| < 2 || s[0] != '"' || s[|s| - 1] != '"'
    ensures CleanToken(left + s + right) == s
  {
    StripPadded(left, s, right);
  }

  // ---------------------------------------------------------------------------
  // compute_col_widths
  // ---------------------------------------------------------------------------

  /** The default least column width. */
  const CellWidth: int := 34

  /** The width of column `i` over the first `n` rows: the least width, or a cell's length plus one. */
  function ColumnWidth(rows: seq<seq<string>>, n: nat, i: nat, minWidth: int): int
    requires n <= |rows|
  {
    if n == 0 then minWidth
    else
      var w := ColumnWidth(rows, n - 1, i, minWidth);
      if i < |rows[n - 1]| && |rows[n - 1][i]| + 1 > w then |rows[n - 1][i]| + 1 else w
  }

  /** The column width is the largest of the least width and every cell's length plus one. */
  lemma {:induction false} ColumnWidthIsMax(rows: seq<seq<string>>, n: nat, i: nat, minWidth: int)
    requires n <= |rows|
    ensures ColumnWidth(rows, n, i, minWidth) >= minWidth
    ensures forall k :: 0 <= k < n && i < |rows[k]| ==> ColumnWidth(rows, n, i, minWidth) >= |rows[k][i]| + 1
    ensures ColumnWidth(rows, n, i, minWidth) == minWidth
            || exists k :: 0 <= k < n && i < |rows[k]| && ColumnWidth(rows, n, i, minWidth) == |rows[k][i]| + 1
  {
    if n > 0 {
      ColumnWidthIsMax(rows, n - 1, i, minWidth);
    }
  }

  /** No row is longer than the first one; a longer row makes the width update index past the end. */
  predicate RowsFit(rows: seq<seq<string>>)
  {
    forall k :: 0 <= k < |rows| ==> |rows[k]| <= |rows[0]|
  }

  /**
   * One width per column of the first row, each the largest of `minWidth` and the cells'
   * lengths plus one; `None` where a longer row fails, and no widths for no rows.
   */
  method ComputeColWidths(rows: seq<seq<string>>, minWidth: int) returns (widths: Option<seq<int>>)
    ensures rows == [] ==> widths == Some([])
    ensures rows != [] ==> (widths.Some? <==> RowsFit(rows))
    ensures rows != [] && widths.Some? ==>
              |widths.value| == |rows[0]|
              && forall i :: 0 <= i < |rows[0]| ==> widths.value[i] == ColumnWidth(rows, |rows|, i, minWidth)
  {
    if rows == [] {
      return Some([]);
    }
    var ncols := |rows[0]|;
    var w := seq(ncols, _ => minWidth);
    for n := 0 to |rows|
      invariant |w| == ncols
      invariant forall k :: 0 <= k < n ==> |rows[k]| <= ncols
      invariant forall i :: 0 <= i < ncols ==> w[i] == ColumnWidth(rows, n, i, minWidth)
    {
      var r := rows[n];
      for i := 0 to |r|
        invariant |w| == ncols && i <= ncols
        invariant forall j :: 0 <= j < ncols ==>
                    w[j] == if j < i then ColumnWidth(rows, n + 1, j, minWidth) else ColumnWidth(rows, n, j, minWidth)
      {
        if i >= ncols {
          return None;
        }
        w := w[i := if |r[i]| + 1 > w[i] then |r[i]| + 1 else w[i]];
      }
    }
    return Some(w);
  }

  // ---------------------------------------------------------------------------
  // fetch_param and the first table's rule cell
  // ---------------------------------------------------------------------------

  /** A parameter table: `(time, concept)` to the parameter's text. */
  type ParamMap = map<(nat, string), string>

  /** Python's `dict.get`: the entry for `key`, or `None`. */
  function Lookup<K, V>(m: map<K, V>, key: K): (r: Option<V>)
    ensures r.Some? <==> key in m
    ensures r.Some? ==> r.value == m[key]
  {
    if key in m then Some(m[key]) else None
  }

  /** The rules that take no parameter. */
  const NoParamRules: set<string> := {"negation", "top", "bottom"}

  /** The parameter of `rule` for concept `c` at time `t`, from the table that kind of rule uses. */
  function FetchParam(t: nat, c: string, rule: string, param: ParamMap, paramR: ParamMap, paramN: ParamMap): (r: Option<string>)
    ensures rule in NoParamRules ==> r == None
    ensures (rule == "conjunction" || rule == "disjunction") ==>
              (r.Some? <==> (t, c) in param) && (r.Some? ==> r.value == param[(t, c)])
    ensures (rule == "forall" || rule == "exists") ==>
              (r.Some? <==> (t, c) in paramR) && (r.Some? ==> r.value == paramR[(t, c)])
    ensures rule !in NoParamRules + {"conjunction", "disjunction", "forall", "exists"} ==>
              (r.Some? <==> (t, c) in paramN) && (r.Some? ==> r.value == paramN[(t, c)])
  {
    if rule in NoParamRules then None
    else if rule == "conjunction" || rule == "disjunction" then Lookup(param, (t, c))
    else if rule == "forall" || rule == "exists" then Lookup(paramR, (t, c))
    else Lookup(paramN, (t, c))
  }

  /**
   * Each kind of rule reads one table only: the result does not change when the other tables
   * do, and a rule without a parameter reads none.
   */
  lemma FetchParamReadsOneTable(t: nat, c: string, rule: string, p1: ParamMap, r1: ParamMap, n1: ParamMap,
                                p2: ParamMap, r2: ParamMap, n2: ParamMap)
    ensures rule in NoParamRules ==> FetchParam(t, c, rule, p1, r1, n1) == None
    ensures (rule == "conjunction" || rule == "disjunction") && p1 == p2 ==>
              FetchParam(t, c, rule, p1, r1, n1) == FetchParam(t, c, rule, p2, r2, n2)
    ensures (rule == "forall" || rule == "exists") && r1 == r2 ==>
              FetchParam(t, c, rule, p1, r1, n1) == FetchParam(t, c, rule, p2, r2, n2)
    ensures rule !in NoParamRules + {"conjunction", "disjunction", "forall", "exists"} && n1 == n2 ==>
              FetchParam(t, c, rule, p1, r1, n1) == FetchParam(t, c, rule, p2, r2, n2)
  {
  }

  /** The table the rule selects: `param`, `paramR` or `paramN`. */
  function SelectedTable(rule: string, param: ParamMap, paramR: ParamMap, paramN: ParamMap): ParamMap
  {
    if rule == "conjunction" || rule == "disjunction" then param
    else if rule == "forall" || rule == "exists" then paramR
    else paramN
  }

  /**
   * A rule with a parameter finds one exactly when the table it selects holds `(t, c)`, and
   * then finds that entry.
   */
  lemma FetchParamFound(t: nat, c: string, rule: string, param: ParamMap, paramR: ParamMap, paramN: ParamMap)
    requires rule !in NoParamRules
    ensures var r, table := FetchParam(t, c, rule, param, paramR, paramN), SelectedTable(rule, param, paramR, paramN);
            (r.Some? <==> (t, c) in table) && (r.Some? ==> r.value == table[(t, c)])
  {
  }

  /** A first-table cell for a selected rule: the rule, then ` : ` and its parameter if it has one. */
  function RuleCell(rule: string, p: Option<string>): (cell: string)
    ensures StartsWith(cell, rule)
    ensures p.Some? ==> EndsWith(cell, p.value) && |cell| == |rule| + 3 + |p.value|
    ensures p.Some? ==> cell[|rule|..|rule| + 3] == " : "
    ensures p.None? ==> cell == rule
  {
    match p
    case None => rule
    case Some(v) => rule + " : " + v
  }

  // ---------------------------------------------------------------------------
  // good/2 edges: the successor map and the state sets
  // ---------------------------------------------------------------------------

  /** A `good("a","b")` fact as its two raw captures. */
  datatype Edge = Edge(src: string, dst: string)

  /** The edges with both ends cleaned, in order. */
  function CleanEdges(edges: seq<Edge>): (r: seq<(string, string)>)
    ensures |r| == |edges|
  {
    if edges == [] then []
    else CleanEdges(edges[..|edges| - 1]) + [(CleanToken(edges[|edges| - 1].src), CleanToken(edges[|edges| - 1].dst))]
  }

  lemma {:induction false} CleanEdgesAt(edges: seq<Edge>, n: nat)
    requires n < |edges|
    ensures CleanEdges(edges)[n] == (CleanToken(edges[n].src), CleanToken(edges[n].dst))
  {
    var init := edges[..|edges| - 1];
    if n < |edges| - 1 {
      CleanEdgesAt(init, n);
    }
  }

  /** A dictionary after `d[k] = v` for the first `n` pairs, in order. */
  function LastWins<K, V>(kvs: seq<(K, V)>, n: nat): map<K, V>
    requires n <= |kvs|
  {
    if n == 0 then map[] else LastWins(kvs, n - 1)[kvs[n - 1].0 := kvs[n - 1].1]
  }

  /** A later pair with the same key overrides an earlier one: each entry comes from the last pair with its key. */
  lemma {:induction false} LastWinsSpec<K, V>(kvs: seq<(K, V)>, n: nat, a: K)
    requires n <= |kvs|
    ensures a in LastWins(kvs, n) <==> exists k :: 0 <= k < n && kvs[k].0 == a
    ensures a in LastWins(kvs, n) ==>
              exists k :: 0 <= k < n && kvs[k].0 == a && LastWins(kvs, n)[a] == kvs[k].1
                          && forall j :: k < j < n ==> kvs[j].0 != a
  {
    if n > 0 {
      LastWinsSpec(kvs, n - 1, a);
      if kvs[n - 1].0 != a && a in LastWins(kvs, n) {
        var k :| 0 <= k < n - 1 && kvs[k].0 == a && LastWins(kvs, n - 1)[a] == kvs[k].1
                 && forall j :: k < j < n - 1 ==> kvs[j].0 != a;
        assert forall j :: k < j < n ==> kvs[j].0 != a;
      }
    }
  }

  /** The second components of the first `n` pairs. */
  function Seconds(kvs: seq<(string, string)>, n: nat): set<string>
    requires n <= |kvs|
  {
    if n == 0 then {} else Seconds(kvs, n - 1) + {kvs[n - 1].1}
  }

  /** Both components of the first `n` pairs. */
  function Ends(kvs: seq<(string, string)>, n: nat): set<string>
    requires n <= |kvs|
  {
    if n == 0 then {} else Ends(kvs, n - 1) + {kvs[n - 1].0, kvs[n - 1].1}
  }

  /** The two sets hold exactly the targets, and the sources and targets, of the pairs. */
  lemma {:induction false} EdgeSetsSpec(kvs: seq<(string, string)>, n: nat, s: string)
    requires n <= |kvs|
    ensures s in Seconds(kvs, n) <==> exists k :: 0 <= k < n && kvs[k].1 == s
    ensures s in Ends(kvs, n) <==> exists k :: 0 <= k < n && (kvs[k].0 == s || kvs[k].1 == s)
  {
    if n > 0 {
      EdgeSetsSpec(kvs, n - 1, s);
    }
  }

  /** Every source and target of the successor map is a known state, and every target a predecessor. */
  lemma {:induction false} SuccessorWithinStates(kvs: seq<(string, string)>, n: nat)
    requires n <= |kvs|
    ensures LastWins(kvs, n).Keys <= Ends(kvs, n)
    ensures Seconds(kvs, n) <= Ends(kvs, n)
    ensures forall a :: a in LastWins(kvs, n) ==> LastWins(kvs, n)[a] in Seconds(kvs, n)
  {
    if n > 0 {
      SuccessorWithinStates(kvs, n - 1);
    }
  }

  /** The successor map of the edges; it leads only to states of the edges. */
  function SuccessorOf(edges: seq<Edge>): (succ: map<string, string>)
    ensures Closed(succ, StatesOf(edges))
  {
    SuccessorWithinStates(CleanEdges(edges), |edges|);
    LastWins(CleanEdges(edges), |edges|)
  }
  function PredecessorsOf(edges: seq<Edge>): set<string> { Seconds(CleanEdges(edges), |edges|) }
  function StatesOf(edges: seq<Edge>): set<string> { Ends(CleanEdges(edges), |edges|) }

  /**
   * The loop over the edges that fills `successor`, `predecessor` and `all_states_from_edges`:
   * the successor map after overwriting in order, the cleaned targets, and all cleaned ends.
   */
  method ReadEdges(edges: seq<Edge>) returns (successor: map<string, string>, predecessor: set<string>, allStates: set<string>)
    ensures successor == SuccessorOf(edges)
    ensures predecessor == PredecessorsOf(edges)
    ensures allStates == StatesOf(edges)
  {
    ghost var kvs := CleanEdges(edges);
    successor, predecessor, allStates := map[], {}, {};
    for n := 0 to |edges|
      invariant successor == LastWins(kvs, n)
      invariant predecessor == Seconds(kvs, n)
      invariant allStates == Ends(kvs, n)
    {
      var a := CleanToken(edges[n].src);
      var b := CleanToken(edges[n].dst);
      CleanEdgesAt(edges, n);
      successor := successor[a := b];
      predecessor := predecessor + {b};
      allStates := allStates + {a, b};
    }
  }

  // ---------------------------------------------------------------------------
  // The chain from a unique start
  // ---------------------------------------------------------------------------

  /** Following `succ` from `s` reaches a state without a successor within `fuel` steps. */
  predicate WalkEnds(succ: map<string, string>, s: string, fuel: nat)
    decreases fuel
  {
    s !in succ || (fuel > 0 && WalkEnds(succ, succ[s], fuel - 1))
  }

  /** `path` starts at `start`, takes one `succ` step at a time and stops at the first state without one. */
  predicate FollowsChain(succ: map<string, string>, start: string, path: seq<string>)
  {
    |path| >= 1 && path[0] == start && path[|path| - 1] !in succ
    && forall k :: 0 <= k < |path| - 1 ==> path[k] in succ && path[k + 1] == succ[path[k]]
  }

  /**
   * The walk from the unique start appends the successor of the last state while it has one;
   * it has no visited guard, so the walk from `start` must end.
   */
  method WalkChain(succ: map<string, string>, start: string) returns (ordered: seq<string>)
    requires exists fuel: nat :: WalkEnds(succ, start, fuel)
    ensures FollowsChain(succ, start, ordered)
  {
    ghost var fuel: nat :| WalkEnds(succ, start, fuel);
    ordered := [start];
    while ordered[|ordered| - 1] in succ
      invariant |ordered| >= 1 && ordered[0] == start
      invariant forall k :: 0 <= k < |ordered| - 1 ==> ordered[k] in succ && ordered[k + 1] == succ[ordered[k]]
      invariant WalkEnds(succ, ordered[|ordered| - 1], fuel)
      decreases fuel
    {
      ordered := ordered + [succ[ordered[|ordered| - 1]]];
      fuel := fuel - 1;
    }
  }

  /** The chain is determined by its start: two chains from the same start agree. */
  lemma FollowsChainUnique(succ: map<string, string>, start: string, p: seq<string>, q: seq<string>)
    requires FollowsChain(succ, start, p) && FollowsChain(succ, start, q)
    ensures p == q
  {
    forall m | 0 <= m < |p| && m < |q| ensures p[m] == q[m] {
      ChainsAgree(succ, start, p, q, m);
    }
    if |p| < |q| {
      assert false;
    }
    if |q| < |p| {
      assert false;
    }
  }

  lemma {:induction false} ChainsAgree(succ: map<string, string>, start: string, p: seq<string>, q: seq<string>, m: nat)
    requires FollowsChain(succ, start, p) && FollowsChain(succ, start, q) && m < |p| && m < |q|
    ensures p[m] == q[m]
  {
    if m > 0 {
      ChainsAgree(succ, start, p, q, m - 1);
    }
  }

  /** A chain that ends visits no state twice, so it is at most one longer than the successor map. */
  lemma ChainNoRepeat(succ: map<string, string>, start: string, path: seq<string>)
    requires FollowsChain(succ, start, path)
    ensures NoDup(path)
    ensures |path| <= |succ| + 1
  {
    forall i, j | 0 <= i < j < |path| ensures path[i] != path[j] {
      if path[i] == path[j] {
        ChainRepeats(succ, start, path, i, j, |path| - 1 - j);
        assert false;
      }
    }
    var body := path[..|path| - 1];
    assert Elems(body) <= succ.Keys;
    NoDupCard(body);
    CardSubset(Elems(body), succ.Keys);
  }

  /** Two equal states of a chain have equal successors, so a repeat carries on to the end. */
  lemma {:induction false} ChainRepeats(succ: map<string, string>, start: string, path: seq<string>, i: nat, j: nat, m: nat)
    requires FollowsChain(succ, start, path) && i < j && j + m < |path| && path[i] == path[j]
    ensures path[i + m] == path[j + m]
  {
    if m > 0 {
      ChainRepeats(succ, start, path, i, j, m - 1);
    }
  }

  /**
   * For the edges `s -> a`, `a -> b`, `b -> a` the only start is `s`, and the walk from it runs
   * around the cycle `a, b` without ever reaching a state without a successor.
   */
  lemma CycleChainNeverEnds()
    ensures StartsOf([Edge("s", "a"), Edge("a", "b"), Edge("b", "a")]) == {"s"}
    ensures forall fuel: nat :: !WalkEnds(SuccessorOf([Edge("s", "a"), Edge("a", "b"), Edge("b", "a")]), "s", fuel)
    ensures !UniqueStartEnds([Edge("s", "a"), Edge("a", "b"), Edge("b", "a")])
  {
    var edges := [Edge("s", "a"), Edge("a", "b"), Edge("b", "a")];
    CycleEdgesOf(edges);
    var succ := SuccessorOf(edges);
    CycleNeverEnds(succ);
    assert |StartsOf(edges)| == 1 && "s" in StartsOf(edges);
  }

  /** The successor map and the starts of the three cycle edges. */
  lemma CycleEdgesOf(edges: seq<Edge>)
    requires edges == [Edge("s", "a"), Edge("a", "b"), Edge("b", "a")]
    ensures SuccessorOf(edges) == map["s" := "a", "a" := "b", "b" := "a"]
    ensures StartsOf(edges) == {"s"}
  {
    CycleEdgesCleaned(edges);
    CycleEdgesTables(CleanEdges(edges));
  }

  /** On `s -> a`, `a -> b`, `b -> a` no amount of fuel ends the walk from `s`. */
  lemma CycleNeverEnds(succ: map<string, string>)
    requires succ == map["s" := "a", "a" := "b", "b" := "a"]
    ensures forall fuel: nat :: !WalkEnds(succ, "s", fuel)
  {
    var p := ["s", "a", "b"];
    assert FollowsGuardedChain(succ, "s", p);
    forall fuel: nat ensures !WalkEnds(succ, "s", fuel) {
      GuardedCycleNeverEnds(succ, "s", p, 0, fuel);
    }
  }

  lemma CycleEdgesCleaned(edges: seq<Edge>)
    requires edges == [Edge("s", "a"), Edge("a", "b"), Edge("b", "a")]
    ensures CleanEdges(edges) == [("s", "a"), ("a", "b"), ("b", "a")]
  {
    assert CleanToken("s") == "s" && CleanToken("a") == "a" && CleanToken("b") == "b";
    assert edges[..1] == [Edge("s", "a")] && edges[..2] == [Edge("s", "a"), Edge("a", "b")];
    assert CleanEdges(edges[..1]) == [("s", "a")];
    assert CleanEdges(edges[..2]) == [("s", "a"), ("a", "b")];
  }

  lemma CycleEdgesTables(kvs: seq<(string, string)>)
    requires kvs == [("s", "a"), ("a", "b"), ("b", "a")]
    ensures LastWins(kvs, 3) == map["s" := "a", "a" := "b", "b" := "a"]
    ensures Seconds(kvs, 3) == {"a", "b"} && Ends(kvs, 3) == {"s", "a", "b"}
  {
    assert LastWins(kvs, 1) == map["s" := "a"];
    assert LastWins(kvs, 2) == map["s" := "a", "a" := "b"];
    assert Seconds(kvs, 1) == {"a"} && Ends(kvs, 1) == {"s", "a"};
    assert Seconds(kvs, 2) == {"a", "b"} && Ends(kvs, 2) == {"s", "a", "b"};
  }

  /**
   * `path` starts at `start`, takes one `succ` step at a time without repeating a state, and
   * stops at the first state that has no successor or whose successor it already holds.
   */
  predicate FollowsGuardedChain(succ: map<string, string>, start: string, path: seq<string>)
  {
    |path| >= 1 && path[0] == start && NoDup(path)
    && (forall k :: 0 <= k < |path| - 1 ==> path[k] in succ && path[k + 1] == succ[path[k]])
    && (path[|path| - 1] in succ ==> succ[path[|path| - 1]] in path)
  }

  /**
   * The chain walk with the guard the fallback walk has: it also stops before revisiting a
   * state, so it ends on every successor map; where the unguarded walk ends, both agree.
   */
  method WalkChainGuarded(succ: map<string, string>, start: string) returns (ordered: seq<string>)
    ensures FollowsGuardedChain(succ, start, ordered)
    ensures (exists fuel: nat :: WalkEnds(succ, start, fuel)) ==> FollowsChain(succ, start, ordered)
  {
    ordered := [start];
    while ordered[|ordered| - 1] in succ && succ[ordered[|ordered| - 1]] !in ordered
      invariant |ordered| >= 1 && ordered[0] == start && NoDup(ordered)
      invariant forall k :: 0 <= k < |ordered| - 1 ==> ordered[k] in succ && ordered[k + 1] == succ[ordered[k]]
      invariant Elems(ordered) <= {start} + succ.Values
      decreases |{start} + succ.Values| - |ordered|
    {
      var next := succ[ordered[|ordered| - 1]];
      NoDupAppendOne(ordered, next);
      ordered := ordered + [next];
      NoDupCard(ordered);
      CardSubset(Elems(ordered), {start} + succ.Values);
    }
    if fuel: nat :| WalkEnds(succ, start, fuel) {
      GuardedEnds(succ, start, ordered, fuel);
    }
  }

  lemma NoDupAppendOne(s: seq<string>, x: string)
    requires NoDup(s) && x !in s
    ensures NoDup(s + [x])
  {
  }

  /** A guarded chain from a start whose walk ends is the unguarded chain. */
  lemma GuardedEnds(succ: map<string, string>, start: string, path: seq<string>, fuel: nat)
    requires FollowsGuardedChain(succ, start, path) && WalkEnds(succ, start, fuel)
    ensures FollowsChain(succ, start, path)
  {
    if path[|path| - 1] in succ {
      GuardedCycleNeverEnds(succ, start, path, 0, fuel);
    }
  }

  /** When the guard stopped a chain at a repeat, the walk from any of its states never ends. */
  lemma {:induction false} GuardedCycleNeverEnds(succ: map<string, string>, start: string, path: seq<string>, j: nat, fuel: nat)
    requires FollowsGuardedChain(succ, start, path) && path[|path| - 1] in succ && j < |path|
    ensures !WalkEnds(succ, path[j], fuel)
    decreases fuel
  {
    var n := |path| - 1;
    if fuel > 0 {
      if j < n {
        GuardedCycleNeverEnds(succ, start, path, j + 1, fuel - 1);
      } else {
        var i :| 0 <= i < |path| && path[i] == succ[path[n]];
        GuardedCycleNeverEnds(succ, start, path, i, fuel - 1);
      }
    }
  }

  lemma Singleton<T>(a: set<T>, x: T)
    requires |a| == 1 && x in a
    ensures a == {x}
  {
    if y :| y in a && y != x {
      CardSubset({x, y}, a);
    }
  }

  // ---------------------------------------------------------------------------
  // The fallback order: walks from the sorted starts, then the sorted leftovers
  // ---------------------------------------------------------------------------

  /** Every state the successor map leads to lies in `univ`. */
  predicate Closed(succ: map<string, string>, univ: set<string>)
  {
    forall a :: a in succ ==> succ[a] in univ
  }

  /**
   * The states one walk of the fallback appends: from `cur`, while it is present, not empty
   * and not yet visited, append it and move to its successor, if any.
   */
  function Trail(succ: map<string, string>, univ: set<string>, visited: set<string>, cur: Option<string>): seq<string>
    requires Closed(succ, univ) && visited <= univ && (cur.Some? ==> cur.value in univ)
    decreases |univ - visited|
  {
    if cur.None? || cur.value == "" || cur.value in visited then []
    else
      assert univ - (visited + {cur.value}) < univ - visited;
      [cur.value] + Trail(succ, univ, visited + {cur.value}, Lookup(succ, cur.value))
  }

  /** A walk appends distinct states not yet visited, each the successor of the one before. */
  lemma {:induction false} TrailFacts(succ: map<string, string>, univ: set<string>, visited: set<string>, cur: Option<string>)
    requires Closed(succ, univ) && visited <= univ && (cur.Some? ==> cur.value in univ)
    ensures var t := Trail(succ, univ, visited, cur);
            NoDup(t) && Elems(t) <= univ && Elems(t) !! visited
            && (cur.Some? && cur.value != "" && cur.value !in visited ==> t != [] && t[0] == cur.value)
            && (cur.None? || cur.value == "" || cur.value in visited ==> t == [])
            && forall k :: 0 <= k < |t| - 1 ==> t[k] in succ && t[k + 1] == succ[t[k]]
    decreases |univ - visited|
  {
    if !(cur.None? || cur.value == "" || cur.value in visited) {
      var x := cur.value;
      assert univ - (visited + {x}) < univ - visited;
      var rest := Trail(succ, univ, visited + {x}, Lookup(succ, x));
      TrailFacts(succ, univ, visited + {x}, Lookup(succ, x));
      ElemsAppend([x], rest);
      NoDupAppend([x], rest);
      var t := [x] + rest;
      forall k | 0 <= k < |t| - 1 ensures t[k] in succ && t[k + 1] == succ[t[k]] {
        if k > 0 {
          assert t[k] == rest[k - 1] && t[k + 1] == rest[k];
        }
      }
    }
  }

  /** The chain the fallback builds from the starts `starts[i..]`, given the states visited so far. */
  function Chains(succ: map<string, string>, univ: set<string>, starts: seq<string>, i: nat, visited: set<string>): seq<string>
    requires Closed(succ, univ) && visited <= univ && Elems(starts) <= univ && i <= |starts|
    decreases |starts| - i
  {
    if i == |starts| then []
    else
      var t := Trail(succ, univ, visited, Some(starts[i]));
      TrailFacts(succ, univ, visited, Some(starts[i]));
      t + Chains(succ, univ, starts, i + 1, visited + Elems(t))
  }

  /** The chain lists distinct unvisited states, and every non-empty start is in it or was visited before. */
  lemma {:induction false} ChainsFacts(succ: map<string, string>, univ: set<string>, starts: seq<string>, i: nat, visited: set<string>)
    requires Closed(succ, univ) && visited <= univ && Elems(starts) <= univ && i <= |starts|
    ensures var c := Chains(succ, univ, starts, i, visited);
            NoDup(c) && Elems(c) <= univ && Elems(c) !! visited
            && forall k :: i <= k < |starts| && starts[k] != "" ==> starts[k] in visited + Elems(c)
    decreases |starts| - i
  {
    if i < |starts| {
      var t := Trail(succ, univ, visited, Some(starts[i]));
      TrailFacts(succ, univ, visited, Some(starts[i]));
      var v' := visited + Elems(t);
      var rest := Chains(succ, univ, starts, i + 1, v');
      ChainsFacts(succ, univ, starts, i + 1, v');
      ElemsAppend(t, rest);
      NoDupAppend(t, rest);
      if starts[i] != "" && starts[i] !in visited {
        assert starts[i] == t[0] && t[0] in Elems(t);
      }
    }
  }

  lemma CardShrinks(univ: set<string>, visited: set<string>, x: string)
    requires x in univ && x !in visited
    ensures |univ - (visited + {x})| < |univ - visited|
  {
    var rest := univ - (visited + {x});
    assert univ - visited == rest + {x} && x !in rest;
  }

  lemma TrailUnfold(succ: map<string, string>, univ: set<string>, visited: set<string>, x: string)
    requires Closed(succ, univ) && visited <= univ && x in univ && x != "" && x !in visited
    ensures Trail(succ, univ, visited, Some(x)) == [x] + Trail(succ, univ, visited + {x}, Lookup(succ, x))
  {
  }

  lemma ChainsUnfold(succ: map<string, string>, univ: set<string>, starts: seq<string>, i: nat, visited: set<string>)
    requires Closed(succ, univ) && visited <= univ && Elems(starts) <= univ && i < |starts|
    ensures var t := Trail(succ, univ, visited, Some(starts[i]));
            Elems(t) <= univ
            && Chains(succ, univ, starts, i, visited) == t + Chains(succ, univ, starts, i + 1, visited + Elems(t))
  {
    TrailFacts(succ, univ, visited, Some(starts[i]));
  }


  /** The state of the inner walk: `trail` so far, the visited states and the current state. */
  ghost predicate Walking(succ: map<string, string>, univ: set<string>, visited: set<string>, st: string,
                          trail: seq<string>, visited': set<string>, cur: Option<string>)
  {
    Closed(succ, univ) && visited <= univ && st in univ
    && visited' <= univ && (cur.Some? ==> cur.value in univ)
    && visited' == visited + Elems(trail)
    && trail + Trail(succ, univ, visited', cur) == Trail(succ, univ, visited, Some(st))
  }

  lemma WalkStep(succ: map<string, string>, univ: set<string>, visited: set<string>, st: string,
                 trail: seq<string>, visited': set<string>, x: string)
    requires Walking(succ, univ, visited, st, trail, visited', Some(x)) && x != "" && x !in visited'
    ensures Walking(succ, univ, visited, st, trail + [x], visited' + {x}, Lookup(succ, x))
    ensures |univ - (visited' + {x})| < |univ - visited'|
  {
    CardShrinks(univ, visited', x);
    ElemsAppend(trail, [x]);
    TrailUnfold(succ, univ, visited', x);
    SeqAssoc(trail, [x], Trail(succ, univ, visited' + {x}, Lookup(succ, x)));
  }

  /** The inner `while cur and cur not in visited` walk of the fallback. */
  method WalkTrail(succ: map<string, string>, univ: set<string>, visited: set<string>, st: string)
    returns (trail: seq<string>, visited': set<string>)
    requires Closed(succ, univ) && visited <= univ && st in univ
    ensures trail == Trail(succ, univ, visited, Some(st))
    ensures visited' == visited + Elems(trail)
  {
    var cur: Option<string> := Some(st);
    trail, visited' := [], visited;
    while cur.Some? && cur.value != "" && cur.value !in visited'
      invariant Walking(succ, univ, visited, st, trail, visited', cur)
      decreases |univ - visited'|
    {
      var x := cur.value;
      WalkStep(succ, univ, visited, st, trail, visited', x);
      trail := trail + [x];
      visited' := visited' + {x};
      cur := Lookup(succ, x);
    }
  }

  /** The starts the fallback walks from: the states nobody points to, or all states if there are none. */
  ghost function FallbackStarts(starts: set<string>, univ: set<string>): seq<string>
  {
    if starts != {} then SortedSeqOf(starts) else SortedSeqOf(univ)
  }

  /** The fallback's order: the chains from the starts, then the states they missed, sorted. */
  ghost function FallbackSpec(succ: map<string, string>, starts: set<string>, univ: set<string>): seq<string>
    requires Closed(succ, univ) && starts <= univ
  {
    var chain := Chains(succ, univ, FallbackStarts(starts, univ), 0, {});
    chain + SortedSeqOf(univ - Elems(chain))
  }

  /** The fallback lists every state exactly once. */
  lemma FallbackIsPermutation(succ: map<string, string>, starts: set<string>, univ: set<string>)
    requires Closed(succ, univ) && starts <= univ
    ensures NoDup(FallbackSpec(succ, starts, univ))
    ensures Elems(FallbackSpec(succ, starts, univ)) == univ
  {
    var ss := FallbackStarts(starts, univ);
    var chain := Chains(succ, univ, ss, 0, {});
    ChainsFacts(succ, univ, ss, 0, {});
    LeftoversAppended(chain, univ);
  }

  /** Appending the sorted states a listing missed lists every state exactly once. */
  lemma LeftoversAppended(chain: seq<string>, univ: set<string>)
    requires NoDup(chain) && Elems(chain) <= univ
    ensures NoDup(chain + SortedSeqOf(univ - Elems(chain)))
    ensures Elems(chain + SortedSeqOf(univ - Elems(chain))) == univ
  {
    var left := SortedSeqOf(univ - Elems(chain));
    StrictlySortedNoDup(left);
    NoDupAppend(chain, left);
    ElemsAppend(chain, left);
  }

  /** The fallback branch: walks from the sorted starts, then the sorted leftovers. */
  method Fallback(succ: map<string, string>, starts: set<string>, univ: set<string>) returns (ordered: seq<string>)
    requires Closed(succ, univ) && starts <= univ
    ensures ordered == FallbackSpec(succ, starts, univ)
  {
    var startsSorted;
    if starts != {} {
      startsSorted := SortStrings(starts);
    } else {
      startsSorted := SortStrings(univ);
    }
    assert startsSorted == FallbackStarts(starts, univ);
    var chain := WalkAll(succ, univ, startsSorted);
    var leftover := SortStrings(univ - Elems(chain));
    ordered := chain + leftover;
  }

  /** The loop over the sorted starts, each walked until it meets a visited state. */
  method WalkAll(succ: map<string, string>, univ: set<string>, startsSorted: seq<string>) returns (chain: seq<string>)
    requires Closed(succ, univ) && Elems(startsSorted) <= univ
    ensures chain == Chains(succ, univ, startsSorted, 0, {})
  {
    ghost var whole := Chains(succ, univ, startsSorted, 0, {});
    chain := [];
    var visited: set<string> := {};
    for i := 0 to |startsSorted|
      invariant visited == Elems(chain) && visited <= univ
      invariant chain + Chains(succ, univ, startsSorted, i, visited) == whole
    {
      var trail;
      ghost var before := visited;
      trail, visited := WalkTrail(succ, univ, visited, startsSorted[i]);
      ChainsUnfold(succ, univ, startsSorted, i, before);
      ElemsAppend(chain, trail);
      SeqAssoc(chain, trail, Chains(succ, univ, startsSorted, i + 1, visited));
      chain := chain + trail;
    }
    assert Chains(succ, univ, startsSorted, |startsSorted|, visited) == [];
  }

  // ---------------------------------------------------------------------------
  // ordered_states
  // ---------------------------------------------------------------------------

  /** The states no edge points to. */
  function StartsOf(edges: seq<Edge>): set<string> { StatesOf(edges) - PredecessorsOf(edges) }

  /** When there is exactly one start, the unguarded walk from it ends. */
  ghost predicate UniqueStartEnds(edges: seq<Edge>)
  {
    |StartsOf(edges)| == 1 ==> forall s :: s in StartsOf(edges) ==> exists fuel: nat :: WalkEnds(SuccessorOf(edges), s, fuel)
  }

  /**
   * `ordered_states`: the chain from the unique start, walked with a visited guard so that a
   * cycle ends it; otherwise the fallback over the states of the edges; with no edges, the
   * states seen in the concept facts, sorted.
   */
  method OrderStates(edges: seq<Edge>, statesSeen: set<string>) returns (ordered: seq<string>)
    ensures forall s :: s in StartsOf(edges) && |StartsOf(edges)| == 1 ==> FollowsGuardedChain(SuccessorOf(edges), s, ordered)
    ensures UniqueStartEnds(edges) ==>
              forall s :: s in StartsOf(edges) && |StartsOf(edges)| == 1 ==> FollowsChain(SuccessorOf(edges), s, ordered)
    ensures |StartsOf(edges)| != 1 && StatesOf(edges) != {} ==>
              ordered == FallbackSpec(SuccessorOf(edges), StartsOf(edges), StatesOf(edges))
    ensures StatesOf(edges) == {} ==> ordered == SortedSeqOf(statesSeen)
  {
    var successor, predecessor, allStates := ReadEdges(edges);
    var initial := allStates - predecessor;
    if |initial| == 1 {
      var s :| s in initial;
      Singleton(initial, s);
      ordered := WalkChainGuarded(successor, s);
    } else if allStates != {} {
      ordered := Fallback(successor, initial, allStates);
    } else {
      ordered := SortStrings(statesSeen);
    }
  }

  // ---------------------------------------------------------------------------
  // concept facts at the last time step
  // ---------------------------------------------------------------------------

  /** A `concept("feature","state",object,time)` fact: three raw captures and the parsed time. */
  datatype ConceptFact = ConceptFact(feature: string, state: string, obj: string, time: nat)

  /** `LAST_T`: the largest time of any concept fact, `None` when there are none. */
  function MaxTime(facts: seq<ConceptFact>): (r: Option<nat>)
    ensures r.None? <==> facts == []
    ensures r.Some? ==> forall k :: 0 <= k < |facts| ==> facts[k].time <= r.value
    ensures r.Some? ==> exists k :: 0 <= k < |facts| && facts[k].time == r.value
  {
    if facts == [] then None
    else
      var m := MaxTime(facts[..|facts| - 1]);
      var t := facts[|facts| - 1].time;
      if m.None? || t > m.value then Some(t) else m
  }

  function CleanFact(f: ConceptFact): ConceptFact
  {
    ConceptFact(CleanToken(f.feature), CleanToken(f.state), CleanToken(f.obj), f.time)
  }

  /** The facts with their feature, state and object cleaned, in order. */
  function CleanFacts(facts: seq<ConceptFact>): (r: seq<ConceptFact>)
    ensures |r| == |facts|
  {
    if facts == [] then [] else CleanFacts(facts[..|facts| - 1]) + [CleanFact(facts[|facts| - 1])]
  }

  lemma {:induction false} CleanFactsAt(facts: seq<ConceptFact>, n: nat)
    requires n < |facts|
    ensures CleanFacts(facts)[n] == CleanFact(facts[n])
  {
    if n < |facts| - 1 {
      CleanFactsAt(facts[..|facts| - 1], n);
    }
  }

  /** The objects of a (state, feature) pair; the nested dictionary is keyed by the pair. */
  type StateFeatures = map<(string, string), set<string>>

  /** `state_features` after the first `n` cleaned facts, keeping those at time `t`. */
  function ConceptTable(cf: seq<ConceptFact>, t: nat, n: nat): StateFeatures
    requires n <= |cf|
  {
    if n == 0 then map[]
    else
      var m := ConceptTable(cf, t, n - 1);
      var f := cf[n - 1];
      if f.time != t then m
      else
        var key := (f.state, f.feature);
        m[key := (if key in m then m[key] else {}) + {f.obj}]
  }

  /** `states_seen` after the first `n` cleaned facts, keeping those at time `t`. */
  function StatesAt(cf: seq<ConceptFact>, t: nat, n: nat): set<string>
    requires n <= |cf|
  {
    if n == 0 then {} else StatesAt(cf, t, n - 1) + (if cf[n - 1].time == t then {cf[n - 1].state} else {})
  }

  /** `features_seen` after the first `n` cleaned facts, keeping those at time `t`. */
  function FeaturesAt(cf: seq<ConceptFact>, t: nat, n: nat): set<string>
    requires n <= |cf|
  {
    if n == 0 then {} else FeaturesAt(cf, t, n - 1) + (if cf[n - 1].time == t then {cf[n - 1].feature} else {})
  }

  /**
   * Only facts at time `t` count: a pair has an entry exactly when such a fact names it, and
   * the entry holds exactly the objects of those facts; the seen sets hold their states and features.
   */
  lemma {:induction false} ConceptTableSpec(cf: seq<ConceptFact>, t: nat, n: nat, key: (string, string), o: string)
    requires n <= |cf|
    ensures key in ConceptTable(cf, t, n) <==>
              exists k :: 0 <= k < n && cf[k].time == t && cf[k].state == key.0 && cf[k].feature == key.1
    ensures key in ConceptTable(cf, t, n) && o in ConceptTable(cf, t, n)[key] <==>
              exists k :: 0 <= k < n && cf[k].time == t && cf[k].state == key.0 && cf[k].feature == key.1 && cf[k].obj == o
    ensures key.0 in StatesAt(cf, t, n) <==> exists k :: 0 <= k < n && cf[k].time == t && cf[k].state == key.0
    ensures key.1 in FeaturesAt(cf, t, n) <==> exists k :: 0 <= k < n && cf[k].time == t && cf[k].feature == key.1
  {
    if n > 0 {
      ConceptTableSpec(cf, t, n - 1, key, o);
    }
  }

  /** One more fact extends the tables only when it is at time `t`. */
  lemma ConceptStep(cf: seq<ConceptFact>, t: nat, n: nat)
    requires n < |cf|
    ensures cf[n].time != t ==>
              ConceptTable(cf, t, n + 1) == ConceptTable(cf, t, n) && StatesAt(cf, t, n + 1) == StatesAt(cf, t, n)
              && FeaturesAt(cf, t, n + 1) == FeaturesAt(cf, t, n)
    ensures cf[n].time == t ==>
              var m := ConceptTable(cf, t, n);
              var key := (cf[n].state, cf[n].feature);
              ConceptTable(cf, t, n + 1) == m[key := (if key in m then m[key] else {}) + {cf[n].obj}]
              && StatesAt(cf, t, n + 1) == StatesAt(cf, t, n) + {cf[n].state}
              && FeaturesAt(cf, t, n + 1) == FeaturesAt(cf, t, n) + {cf[n].feature}
  {
  }

  /** The tables hold what the first `n` cleaned facts at time `t` contribute. */
  ghost predicate ConceptProgress(cf: seq<ConceptFact>, t: nat, n: nat, sf: StateFeatures, ss: set<string>,
                                  fs: set<string>)
  {
    n <= |cf| && sf == ConceptTable(cf, t, n) && ss == StatesAt(cf, t, n) && fs == FeaturesAt(cf, t, n)
  }

  /** The loop body: a fact at another time changes nothing; one at `t` adds its object, state and feature. */
  lemma ConceptAdvance(cf: seq<ConceptFact>, t: nat, n: nat, sf: StateFeatures, ss: set<string>, fs: set<string>)
    requires n < |cf| && ConceptProgress(cf, t, n, sf, ss, fs)
    ensures cf[n].time != t ==> ConceptProgress(cf, t, n + 1, sf, ss, fs)
    ensures cf[n].time == t ==>
              var key := (cf[n].state, cf[n].feature);
              ConceptProgress(cf, t, n + 1, sf[key := (if key in sf then sf[key] else {}) + {cf[n].obj}],
                              ss + {cf[n].state}, fs + {cf[n].feature})
  {
    ConceptStep(cf, t, n);
  }

  lemma CleanFactsTime(facts: seq<ConceptFact>, n: nat)
    requires n < |facts|
    ensures CleanFacts(facts)[n].time == facts[n].time
  {
    CleanFactsAt(facts, n);
  }

  /** The `n`-th fact with its tokens cleaned. */
  method CleanConcept(facts: seq<ConceptFact>, n: nat) returns (f: ConceptFact)
    requires n < |facts|
    ensures f == CleanFacts(facts)[n] && f.time == facts[n].time
  {
    CleanFactsAt(facts, n);
    f := CleanFact(facts[n]);
  }

  /** The LAST_T filter: the last time, and the objects, states and features of the facts at it. */
  method CollectConcepts(facts: seq<ConceptFact>)
    returns (lastT: Option<nat>, stateFeatures: StateFeatures, statesSeen: set<string>, featuresSeen: set<string>)
    ensures lastT == MaxTime(facts)
    ensures lastT.None? ==> stateFeatures == map[] && statesSeen == {} && featuresSeen == {}
    ensures lastT.Some? ==>
              stateFeatures == ConceptTable(CleanFacts(facts), lastT.value, |facts|)
              && statesSeen == StatesAt(CleanFacts(facts), lastT.value, |facts|)
              && featuresSeen == FeaturesAt(CleanFacts(facts), lastT.value, |facts|)
  {
    lastT := MaxTime(facts);
    stateFeatures, statesSeen, featuresSeen := map[], {}, {};
    if lastT.None? {
      return;
    }
    var last := lastT.value;
    ghost var cf := CleanFacts(facts);
    for n := 0 to |facts|
      invariant ConceptProgress(cf, last, n, stateFeatures, statesSeen, featuresSeen)
    {
      ConceptAdvance(cf, last, n, stateFeatures, statesSeen, featuresSeen);
      CleanFactsTime(facts, n);
      if facts[n].time != last {
        continue;
      }
      var f := CleanConcept(facts, n);
      var feat, state, obj := f.feature, f.state, f.obj;
      var key := (state, feat);
      stateFeatures := stateFeatures[key := (if key in stateFeatures then stateFeatures[key] else {}) + {obj}];
      statesSeen := statesSeen + {state};
      featuresSeen := featuresSeen + {feat};
    }
  }

  // ---------------------------------------------------------------------------
  // The second table
  // ---------------------------------------------------------------------------

  /** A second-table cell: the distinct objects sorted and joined by `, `, or empty when there are none. */
  ghost function ObjectsCell(sf: StateFeatures, s: string, f: string): string
  {
    var objs := if (s, f) in sf then sf[(s, f)] else {};
    if objs != {} then Join(SortedSeqOf(objs), ", ") else ""
  }

  /** A second-table row: the feature, then its cell for each ordered state. */
  ghost predicate SecondRow(row: seq<string>, f: string, ordered: seq<string>, sf: StateFeatures)
  {
    |row| == |ordered| + 1 && row[0] == f
    && forall c :: 1 <= c <= |ordered| ==> row[c] == ObjectsCell(sf, ordered[c - 1], f)
  }

  /** Its header row, then one row per feature in sorted order with one cell per ordered state. */
  method SecondTable(ordered: seq<string>, featuresSeen: set<string>, sf: StateFeatures) returns (rows: seq<seq<string>>)
    ensures |rows| == |featuresSeen| + 1 && rows[0] == ["Feature"] + ordered
    ensures forall r :: 1 <= r < |rows| ==> SecondRow(rows[r], SortedSeqOf(featuresSeen)[r - 1], ordered, sf)
  {
    var feats := SortStrings(featuresSeen);
    rows := SecondRows(feats, ordered, sf);
  }

  method SecondRows(feats: seq<string>, ordered: seq<string>, sf: StateFeatures) returns (rows: seq<seq<string>>)
    ensures |rows| == |feats| + 1 && rows[0] == ["Feature"] + ordered
    ensures forall r :: 1 <= r < |rows| ==> SecondRow(rows[r], feats[r - 1], ordered, sf)
  {
    rows := [["Feature"] + ordered];
    for i := 0 to |feats|
      invariant |rows| == i + 1 && rows[0] == ["Feature"] + ordered
      invariant forall r :: 1 <= r < |rows| ==> SecondRow(rows[r], feats[r - 1], ordered, sf)
    {
      var row := BuildSecondRow(feats[i], ordered, sf);
      rows := rows + [row];
    }
  }

  method BuildSecondRow(f: string, ordered: seq<string>, sf: StateFeatures) returns (row: seq<string>)
    ensures SecondRow(row, f, ordered, sf)
  {
    row := [f];
    for j := 0 to |ordered|
      invariant |row| == j + 1 && row[0] == f
      invariant forall c :: 1 <= c <= j ==> row[c] == ObjectsCell(sf, ordered[c - 1], f)
    {
      var objs := if (ordered[j], f) in sf then sf[(ordered[j], f)] else {};
      var cell := "";
      if objs != {} {
        var names := SortStrings(objs);
        cell := Join(names, ", ");
      }
      row := row + [cell];
    }
  }

  // ---------------------------------------------------------------------------
  // The third table
  // ---------------------------------------------------------------------------

  /** An `evaluation("feature","state",value)` fact: two raw captures and the parsed value. */
  datatype Evaluation = Evaluation(feature: string, state: string, value: nat)

  /** The evaluations as `((state, feature), value)` pairs with both names cleaned, in order. */
  function CleanEvals(evals: seq<Evaluation>): (r: seq<((string, string), nat)>)
    ensures |r| == |evals|
  {
    if evals == [] then []
    else
      var e := evals[|evals| - 1];
      CleanEvals(evals[..|evals| - 1]) + [((CleanToken(e.state), CleanToken(e.feature)), e.value)]
  }

  lemma {:induction false} CleanEvalsAt(evals: seq<Evaluation>, n: nat)
    requires n < |evals|
    ensures CleanEvals(evals)[n] == ((CleanToken(evals[n].state), CleanToken(evals[n].feature)), evals[n].value)
  {
    if n < |evals| - 1 {
      CleanEvalsAt(evals[..|evals| - 1], n);
    }
  }

  /** The features of the first `n` cleaned evaluations. */
  function EvalFeaturesOf(ce: seq<((string, string), nat)>, n: nat): set<string>
    requires n <= |ce|
  {
    if n == 0 then {} else EvalFeaturesOf(ce, n - 1) + {ce[n - 1].0.1}
  }

  lemma {:induction false} EvalFeaturesSpec(ce: seq<((string, string), nat)>, n: nat, f: string)
    requires n <= |ce|
    ensures f in EvalFeaturesOf(ce, n) <==> exists k :: 0 <= k < n && ce[k].0.1 == f
  {
    if n > 0 {
      EvalFeaturesSpec(ce, n - 1, f);
    }
  }

  /** The loop over the evaluations that fills `eval_map` (a later value overrides) and `eval_features`. */
  method ReadEvaluations(evals: seq<Evaluation>) returns (evalMap: map<(string, string), nat>, evalFeatures: set<string>)
    ensures evalMap == LastWins(CleanEvals(evals), |evals|)
    ensures evalFeatures == EvalFeaturesOf(CleanEvals(evals), |evals|)
  {
    ghost var ce := CleanEvals(evals);
    evalMap, evalFeatures := map[], {};
    for n := 0 to |evals|
      invariant evalMap == LastWins(ce, n)
      invariant evalFeatures == EvalFeaturesOf(ce, n)
    {
      CleanEvalsAt(evals, n);
      var f := CleanToken(evals[n].feature);
      var s := CleanToken(evals[n].state);
      evalMap := evalMap[(s, f) := evals[n].value];
      evalFeatures := evalFeatures + {f};
    }
  }

  /** A third-table cell: the value written in decimal, or empty when the state has none for the feature. */
  function EvalCell(evalMap: map<(string, string), nat>, s: string, f: string): string
  {
    if (s, f) in evalMap then NatToString(evalMap[(s, f)]) else ""
  }

  /** A third-table row: the feature, then its cell for each ordered state. */
  predicate ThirdRow(row: seq<string>, f: string, ordered: seq<string>, evalMap: map<(string, string), nat>)
  {
    |row| == |ordered| + 1 && row[0] == f
    && forall c :: 1 <= c <= |ordered| ==> row[c] == EvalCell(evalMap, ordered[c - 1], f)
  }

  /** Its header row, then one row per feature both evaluated and selected, in sorted order. */
  method ThirdTable(ordered: seq<string>, evalMap: map<(string, string), nat>, evalFeatures: set<string>, selected: set<string>)
    returns (rows: seq<seq<string>>)
    ensures |rows| == |evalFeatures * selected| + 1 && rows[0] == ["Feature"] + ordered
    ensures forall r :: 1 <= r < |rows| ==> ThirdRow(rows[r], SortedSeqOf(evalFeatures * selected)[r - 1], ordered, evalMap)
  {
    var feats := SortStrings(evalFeatures * selected);
    rows := ThirdRows(feats, ordered, evalMap);
  }

  method ThirdRows(feats: seq<string>, ordered: seq<string>, evalMap: map<(string, string), nat>) returns (rows: seq<seq<string>>)
    ensures |rows| == |feats| + 1 && rows[0] == ["Feature"] + ordered
    ensures forall r :: 1 <= r < |rows| ==> ThirdRow(rows[r], feats[r - 1], ordered, evalMap)
  {
    rows := [["Feature"] + ordered];
    for i := 0 to |feats|
      invariant |rows| == i + 1 && rows[0] == ["Feature"] + ordered
      invariant forall r :: 1 <= r < |rows| ==> ThirdRow(rows[r], feats[r - 1], ordered, evalMap)
    {
      var row := BuildThirdRow(feats[i], ordered, evalMap);
      rows := rows + [row];
    }
  }

  method BuildThirdRow(f: string, ordered: seq<string>, evalMap: map<(string, string), nat>) returns (row: seq<string>)
    ensures ThirdRow(row, f, ordered, evalMap)
  {
    row := [f];
    for j := 0 to |ordered|
      invariant |row| == j + 1 && row[0] == f
      invariant forall c :: 1 <= c <= j ==> row[c] == EvalCell(evalMap, ordered[c - 1], f)
    {
      var st := ordered[j];
      var cell := if (st, f) in evalMap then NatToString(evalMap[(st, f)]) else "";
      row := row + [cell];
    }
  }

  /** The first column of the third table is exactly the evaluated and selected features, each once, ascending. */
  lemma ThirdTableFeatures(evalFeatures: set<string>, selected: set<string>, f: string)
    ensures StrictlySorted(SortedSeqOf(evalFeatures * selected))
    ensures f in Elems(SortedSeqOf(evalFeatures * selected)) <==> f in evalFeatures && f in selected
  {
  }
}
