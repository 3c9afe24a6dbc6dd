/**
 * The string functions of the state-space explorers: the state identifier built from a
 * problem name and a state's hash, the `goal(...)` fact and the slice that reads its
 * identifier back, and the rewriting of a ground atom `p(a, b)` into a tuple term.
 */
module StateIdentity {
  import opened Wrappers
  import opened Text

  // ---------------------------------------------------------------------------
  // get_state_id
  // ---------------------------------------------------------------------------

  /** The sign-and-magnitude tag of a hash: `p<hash>` when it is not negative, `m<|hash|>` otherwise. */
  function HashTag(h: int): string
  {
    if h >= 0 then "p" + NatToString(h) else "m" + NatToString(-h)
  }

  /** The text in front of the tag: `"s_<problem>_`. */
  function IdPrefix(problemName: string): string
  {
    "\"s_" + problemName + "_"
  }

  /** `get_state_id(problem_name, state)` for a state whose `__hash__()` is `h`. */
  function StateId(problemName: string, h: int): (id: string)
    ensures StartsWith(id, IdPrefix(problemName)) && EndsWith(id, "\"")
  {
    IdPrefix(problemName) + HashTag(h) + "\""
  }

  /** Reads a tag back: a sign letter followed by at least one digit. */
  function DecodeTag(t: string): (r: Option<int>)
    ensures r.Some? ==> |t| >= 2 && t[0] in "pm" && AllDigits(t[1..])
  {
    if |t| >= 2 && t[0] == 'p' && AllDigits(t[1..]) then Some(ParseNat(t[1..]))
    else if |t| >= 2 && t[0] == 'm' && AllDigits(t[1..]) then Some(-(ParseNat(t[1..]) as int))
    else None
  }

  /** Reads the hash back out of an identifier of the given problem. */
  function DecodeStateId(problemName: string, id: string): Option<int>
  {
    var pre := IdPrefix(problemName);
    if StartsWith(id, pre) && |id| >= |pre| + 1 && id[|id| - 1] == '"' then DecodeTag(id[|pre|..|id| - 1])
    else None
  }

  /** The tag never carries a minus sign: only a sign letter and decimal digits. */
  lemma HashTagShape(h: int)
    ensures |HashTag(h)| >= 2
    ensures HashTag(h)[0] == (if h >= 0 then 'p' else 'm')
    ensures AllDigits(HashTag(h)[1..])
    ensures '-' !in HashTag(h)
  {
    var t := HashTag(h);
    assert t[1..] == NatToString(if h >= 0 then h else -h);
    assert !IsDigit('-');
  }

  lemma DecodeHashTag(h: int)
    ensures DecodeTag(HashTag(h)) == Some(h)
  {
    var t := HashTag(h);
    HashTagShape(h);
    if h >= 0 {
      assert t[1..] == NatToString(h);
      ParseNatToString(h);
    } else {
      assert t[1..] == NatToString(-h);
      ParseNatToString(-h);
    }
  }

  /** The identifier determines the hash: decoding an identifier gives back its hash. */
  lemma DecodeStateIdRoundTrip(problemName: string, h: int)
    ensures DecodeStateId(problemName, StateId(problemName, h)) == Some(h)
  {
    var pre, id := IdPrefix(problemName), StateId(problemName, h);
    assert id[|pre|..|id| - 1] == HashTag(h);
    DecodeHashTag(h);
  }

  /** Distinct hashes give distinct identifiers. */
  lemma StateIdInjective(problemName: string, h1: int, h2: int)
    ensures StateId(problemName, h1) == StateId(problemName, h2) <==> h1 == h2
  {
    if StateId(problemName, h1) == StateId(problemName, h2) {
      DecodeStateIdRoundTrip(problemName, h1);
      DecodeStateIdRoundTrip(problemName, h2);
    }
  }

  // ---------------------------------------------------------------------------
  // goal(...) facts and the identifier slice
  // ---------------------------------------------------------------------------

  /** `f"goal({curr_id})."`. */
  function GoalFact(id: string): string
  {
    "goal(" + id + ")."
  }

  /** `f"init({id})."`: the fact naming the initial state. */
  function InitFact(id: string): string
  {
    "init(" + id + ")."
  }

  /** Python's `s[i:-n]` for `0 <= i` and `0 < n`: empty when the bounds cross. */
  function SliceFromTo(s: string, i: nat, n: nat): (r: string)
    ensures |r| <= |s|
    ensures i + n <= |s| ==> r == s[i..|s| - n]
    ensures i + n > |s| ==> r == []
  {
    var start := if i <= |s| then i else |s|;
    var end := if n <= |s| then |s| - n else 0;
    if start < end then s[start..end] else []
  }

  /** The identifier inside a `goal(...)` line: all but its first five and last two characters. */
  function GoalIdOf(line: string): (r: string)
    ensures |line| >= 7 ==> line == line[..5] + r + line[|line| - 2..]
    ensures |line| < 7 ==> r == []
  {
    SliceFromTo(line, |"goal("|, 2)
  }

  /** The slice recovers exactly the identifier written into a goal fact. */
  lemma GoalIdOfGoalFact(id: string)
    ensures GoalIdOf(GoalFact(id)) == id
  {
    var line := GoalFact(id);
    assert line[5..|line| - 2] == id;
  }

  /** A line too short to hold `goal(` and `).` slices to the empty string. */
  lemma GoalIdOfShort(line: string)
    requires |line| < 7
    ensures GoalIdOf(line) == []
  {
  }

  // ---------------------------------------------------------------------------
  // predicate_to_tuple
  // ---------------------------------------------------------------------------

  /** The stripped pieces, in order. */
  function StripAll(xs: seq<string>): (r: seq<string>)
    ensures |r| == |xs| && forall k :: 0 <= k < |xs| ==> r[k] == Strip(xs[k])
  {
    seq(|xs|, k requires 0 <= k < |xs| => Strip(xs[k]))
  }

  /**
   * `predicate_to_tuple(atom)`: drop the trailing `)`s, split at `(`, strip every
   * comma-separated argument and write `("p", a1, ..., an)`. Unpacking the split into two
   * names fails unless the atom holds exactly one `(`; that failure is `None`.
   */
  function PredicateToTuple(atom: string): (r: Option<string>)
    ensures r.Some? <==> |Split(TrimRightChar(atom, ')'), '(')| == 2
  {
    var parts := Split(TrimRightChar(atom, ')'), '(');
    if |parts| != 2 then None
    else
      var args := StripAll(Split(parts[1], ','));
      Some("(\"" + parts[0] + "\", " + Join(args, ", ") + ")")
  }

  /** A name or argument as the planner prints it: no brackets, commas or surrounding blanks. */
  predicate Plain(s: string)
  {
    '(' !in s && ')' !in s && ',' !in s && Strip(s) == s
  }

  /** The pieces `a1`, ` a2`, ..., ` an` that a split at `,` finds in `"a1, a2, ..., an"`. */
  function Spaced(xs: seq<string>): (r: seq<string>)
    requires |xs| >= 1
    ensures |r| == |xs| && r[0] == xs[0] && forall k :: 1 <= k < |xs| ==> r[k] == " " + xs[k]
  {
    [xs[0]] + seq(|xs| - 1, k requires 0 <= k < |xs| - 1 => " " + xs[k + 1])
  }

  lemma {:induction false} JoinSpaced(xs: seq<string>)
    requires |xs| >= 1
    ensures Join(xs, ", ") == Join(Spaced(xs), ",")
    decreases |xs|
  {
    if |xs| > 1 {
      JoinSpaced(xs[1..]);
      var t := Spaced(xs[1..]);
      var sp := Spaced(xs);
      assert sp[1..] == [" " + t[0]] + t[1..];
      assert Join(sp[1..], ",") == " " + Join(t, ",") by {
        if |t| > 1 {
          assert ([" " + t[0]] + t[1..])[1..] == t[1..];
          assert t[1..] == t[1..][..];
          assert Join(t, ",") == t[0] + "," + Join(t[1..], ",");
        }
      }
    }
  }

  lemma TrimLeftBlank(a: string)
    ensures TrimLeft(" " + a) == TrimLeft(a)
  {
    var s := " " + a;
    assert s[0] == ' ' && s[1..] == a;
  }

  lemma StripSpacedAt(xs: seq<string>, k: nat)
    requires k < |xs| && Strip(xs[k]) == xs[k]
    ensures Strip(Spaced(xs)[k]) == xs[k]
  {
    if k > 0 {
      TrimLeftBlank(xs[k]);
    }
  }

  lemma StripSpaced(xs: seq<string>)
    requires |xs| >= 1 && forall k :: 0 <= k < |xs| ==> Plain(xs[k])
    ensures StripAll(Spaced(xs)) == xs
  {
    forall k | 0 <= k < |xs| ensures StripAll(Spaced(xs))[k] == xs[k] {
      StripSpacedAt(xs, k);
    }
  }

  /** Dropping the trailing `)` of `x)` when `x` itself does not end in `)`. */
  lemma TrimOneClose(x: string)
    requires x != [] && x[|x| - 1] != ')'
    ensures TrimRightChar(x + ")", ')') == x
  {
    assert (x + ")")[..|x|] == x;
  }

  lemma NotInBlankFirst(a: string)
    ensures forall c :: c != ' ' ==> (c in " " + a <==> c in a)
  {
    assert (" " + a)[1..] == a;
  }

  /** The arguments come back, stripped, from the comma split of their `", "`-join. */
  lemma ArgumentsOfJoin(args: seq<string>)
    requires |args| >= 1 && forall k :: 0 <= k < |args| ==> Plain(args[k])
    ensures StripAll(Split(Join(args, ", "), ',')) == args
    ensures '(' !in Join(args, ", ") && ')' !in Join(args, ", ")
  {
    var sp := Spaced(args);
    assert Join(args, ", ") == Join(sp, ",") by {
      JoinSpaced(args);
    }
    assert forall k :: 0 <= k < |sp| ==> ',' !in sp[k] && '(' !in sp[k] && ')' !in sp[k] by {
      forall k | 0 <= k < |sp| ensures ',' !in sp[k] && '(' !in sp[k] && ')' !in sp[k] {
        if k > 0 {
          NotInBlankFirst(args[k]);
        }
      }
    }
    assert Split(Join(sp, ","), ',') == sp by {
      SplitJoin(sp, ',');
    }
    StripSpaced(args);
    assert '(' !in Join(sp, ",") && ')' !in Join(sp, ",") by {
      JoinNoChar(sp, ',', '(');
      JoinNoChar(sp, ',', ')');
    }
  }

  lemma SplitAtOpen(p: string, body: string)
    requires '(' !in p && '(' !in body
    ensures Split(p + "(" + body, '(') == [p, body]
  {
    var parts := [p, body];
    assert parts[1..] == [body];
    SplitJoin(parts, '(');
  }

  /**
   * An atom `p(x1,...,xn)` whose comma-separated pieces hold no bracket or comma becomes
   * `("p", strip(x1), ..., strip(xn))`.
   */
  lemma PredicateToTupleOfPieces(p: string, pieces: seq<string>)
    requires '(' !in p && |pieces| >= 1
    requires forall k :: 0 <= k < |pieces| ==> '(' !in pieces[k] && ')' !in pieces[k] && ',' !in pieces[k]
    ensures PredicateToTuple(p + "(" + Join(pieces, ",") + ")") == Some("(\"" + p + "\", " + Join(StripAll(pieces), ", ") + ")")
  {
    var body := Join(pieces, ",");
    var open := p + "(" + body;
    assert Split(body, ',') == pieces by {
      SplitJoin(pieces, ',');
    }
    assert '(' !in body && ')' !in body by {
      JoinNoChar(pieces, ',', '(');
      JoinNoChar(pieces, ',', ')');
    }
    assert TrimRightChar(open + ")", ')') == open by {
      assert open[|open| - 1] != ')' by {
        if body != [] {
          assert open[|open| - 1] == body[|body| - 1];
        }
      }
      TrimOneClose(open);
    }
    assert Split(open, '(') == [p, body] by {
      SplitAtOpen(p, body);
    }
  }

  /** A run of blanks holds no bracket and no comma. */
  lemma BlanksPlain(pad: string)
    requires forall i :: 0 <= i < |pad| ==> IsSpace(pad[i])
    ensures '(' !in pad && ')' !in pad && ',' !in pad
  {
    assert forall i :: 0 <= i < |pad| ==> pad[i] != '(' && pad[i] != ')' && pad[i] != ',';
  }

  /**
   * Every argument may carry any blank padding on either side, as in `p( a ,b )`: the tuple
   * holds the arguments without it, in order.
   */
  lemma PredicateToTupleOfAtom(p: string, left: seq<string>, args: seq<string>, right: seq<string>)
    requires '(' !in p && |args| >= 1 && |left| == |args| && |right| == |args|
    requires forall k :: 0 <= k < |args| ==> Plain(args[k])
    requires forall k, i :: 0 <= k < |left| && 0 <= i < |left[k]| ==> IsSpace(left[k][i])
    requires forall k, i :: 0 <= k < |right| && 0 <= i < |right[k]| ==> IsSpace(right[k][i])
    ensures PredicateToTuple(p + "(" + Join(seq(|args|, k requires 0 <= k < |args| => left[k] + args[k] + right[k]), ",") + ")")
            == Some("(\"" + p + "\", " + Join(args, ", ") + ")")
  {
    var pieces := seq(|args|, k requires 0 <= k < |args| => left[k] + args[k] + right[k]);
    forall k | 0 <= k < |pieces|
      ensures '(' !in pieces[k] && ')' !in pieces[k] && ',' !in pieces[k]
      ensures Strip(pieces[k]) == args[k]
    {
      BlanksPlain(left[k]);
      BlanksPlain(right[k]);
      StripShape(args[k]);
      StripPadded(left[k], args[k], right[k]);
    }
    assert StripAll(pieces) == args;
    PredicateToTupleOfPieces(p, pieces);
  }

  /** A joined list holds a character only if a piece or the separator does. */
  lemma {:induction false} JoinNoChar(xs: seq<string>, sep: char, c: char)
    requires c != sep && forall k :: 0 <= k < |xs| ==> c !in xs[k]
    ensures c !in Join(xs, [sep])
    decreases |xs|
  {
    if |xs| > 1 {
      JoinNoChar(xs[1..], sep, c);
    }
  }
}
