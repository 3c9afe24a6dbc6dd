/**
 * The two small text filters around the answer-set solver: the picker that keeps the line after
 * the last `Answer` header of the solver's output, and the role extractor that collects the
 * `ANSWER` block, renames each matched relation after its role and derives the output file name.
 */
module AnswerText {
  import opened Wrappers
  import opened Text

  // ---------------------------------------------------------------------------
  // last_answer_set.py
  // ---------------------------------------------------------------------------

  /** The lines as the script reads them: each one stripped. */
  function Stripped(lines: seq<string>): (st: seq<string>)
    ensures |st| == |lines|
  {
    if lines == [] then [] else Stripped(lines[..|lines| - 1]) + [Strip(lines[|lines| - 1])]
  }

  lemma {:induction false} StrippedAt(lines: seq<string>, n: nat)
    requires n < |lines|
    ensures Stripped(lines)[n] == Strip(lines[n])
  {
    var front := lines[..|lines| - 1];
    if n < |front| {
      StrippedAt(front, n);
    }
  }

  /** The text that opens a header line of the solver's output. */
  const HeaderWord: string := "Answer"

  /** A header: a stripped line starting with `Answer`. */
  predicate Header(line: string)
  {
    StartsWith(line, HeaderWord)
  }

  /** After the first `n` stripped lines, capture is armed: the last non-blank one is a header. */
  predicate Armed(st: seq<string>, n: nat)
    requires n <= |st|
  {
    if n == 0 then false
    else if st[n - 1] == [] then Armed(st, n - 1)
    else Header(st[n - 1])
  }

  /** Line `i` is captured: it is neither blank nor a header, and capture is armed when it is read. */
  predicate Captured(st: seq<string>, i: nat)
    requires i < |st|
  {
    st[i] != [] && !Header(st[i]) && Armed(st, i)
  }

  /** The last captured line among the first `n`. */
  function LastCapture(st: seq<string>, n: nat): Option<string>
    requires n <= |st|
  {
    if n == 0 then None
    else if Captured(st, n - 1) then Some(st[n - 1])
    else LastCapture(st, n - 1)
  }

  /** Capture is armed exactly when some header is followed only by blank lines. */
  lemma {:induction false} ArmedIff(st: seq<string>, n: nat)
    requires n <= |st|
    ensures Armed(st, n) <==> exists h :: 0 <= h < n && Header(st[h]) && forall m :: h < m < n ==> st[m] == []
  {
    if n > 0 {
      ArmedIff(st, n - 1);
      if st[n - 1] == [] {
        if exists h :: 0 <= h < n && Header(st[h]) && forall m :: h < m < n ==> st[m] == [] {
          var h :| 0 <= h < n && Header(st[h]) && forall m :: h < m < n ==> st[m] == [];
          assert h != n - 1;
        }
      }
    }
  }

  /**
   * The result is the last captured line, and there is none exactly when no line is
   * captured.
   */
  lemma {:induction false} LastCaptureIsLast(st: seq<string>, n: nat)
    requires n <= |st|
    ensures LastCapture(st, n) == None <==> forall i :: 0 <= i < n ==> !Captured(st, i)
    ensures LastCapture(st, n).Some? ==>
              exists i :: 0 <= i < n && Captured(st, i) && LastCapture(st, n).value == st[i]
                          && forall j :: i < j < n ==> !Captured(st, j)
  {
    if n > 0 {
      LastCaptureIsLast(st, n - 1);
    }
  }

  /** Two captured lines are separated by a header: only the first line after a header is taken. */
  lemma OnlyFirstAfterHeader(st: seq<string>, i: nat, j: nat)
    requires i < j < |st| && Captured(st, i) && Captured(st, j)
    ensures exists h :: i < h < j && Header(st[h])
  {
    ArmedIff(st, j);
    var h :| 0 <= h < j && Header(st[h]) && forall m :: h < m < j ==> st[m] == [];
    assert h > i;
  }

  /** `main`'s loop: strip each line, skip blanks, arm at a header, take the next line after it. */
  method LastAnswer(lines: seq<string>) returns (lastAnswer: Option<string>)
    ensures lastAnswer == LastCapture(Stripped(lines), |lines|)
  {
    ghost var st := Stripped(lines);
    lastAnswer := None;
    var expectingAtoms := false;
    for n := 0 to |lines|
      invariant expectingAtoms == Armed(st, n)
      invariant lastAnswer == LastCapture(st, n)
    {
      StrippedAt(lines, n);
      expectingAtoms, lastAnswer := ReadLine(lines[n], st, n, expectingAtoms, lastAnswer);
    }
  }

  /** One pass of the loop, on the line `n` whose stripped text is `st[n]`. */
  method ReadLine(raw: string, ghost st: seq<string>, ghost n: nat, expectingAtoms: bool, lastAnswer: Option<string>)
    returns (expectingAtoms': bool, lastAnswer': Option<string>)
    requires n < |st| && st[n] == Strip(raw)
    requires expectingAtoms == Armed(st, n) && lastAnswer == LastCapture(st, n)
    ensures expectingAtoms' == Armed(st, n + 1) && lastAnswer' == LastCapture(st, n + 1)
  {
    expectingAtoms', lastAnswer' := expectingAtoms, lastAnswer;
    var line := Strip(raw);
    if line == [] {
    } else if StartsWith(line, HeaderWord) {
      expectingAtoms' := true;
    } else if expectingAtoms {
      lastAnswer' := Some(line);
      expectingAtoms' := false;
    }
  }

  /** The exit status and the printed text: status 1 and nothing, or status 0 and the line. */
  method LastAnswerSet(lines: seq<string>) returns (status: nat, out: string)
    ensures status == 1 <==> forall i :: 0 <= i < |lines| ==> !Captured(Stripped(lines), i)
    ensures status == 1 ==> out == []
    ensures status == 0 ==>
              exists i :: 0 <= i < |lines| && Captured(Stripped(lines), i) && out == Strip(lines[i]) + "\n"
                          && forall j :: i < j < |lines| ==> !Captured(Stripped(lines), j)
    ensures status == 0 || status == 1
  {
    var lastAnswer := LastAnswer(lines);
    LastCaptureIsLast(Stripped(lines), |lines|);
    if lastAnswer == None {
      status, out := 1, [];
    } else {
      ghost var i :| 0 <= i < |lines| && Captured(Stripped(lines), i) && lastAnswer.value == Stripped(lines)[i]
                     && forall j :: i < j < |lines| ==> !Captured(Stripped(lines), j);
      StrippedAt(lines, i);
      status, out := 0, lastAnswer.value + "\n";
    }
  }

  // ---------------------------------------------------------------------------
  // Generate_Roles.py: the ANSWER block
  // ---------------------------------------------------------------------------

  /** The line that opens the answer block. */
  const MarkerWord: string := "ANSWER"

  /** A stripped line that starts with `%`. */
  predicate Comment(stripped: string)
  {
    stripped != [] && stripped[0] == '%'
  }

  /** The index of the first stripped line from `i` on equal to `ANSWER`, or the length when there is none. */
  function NextMarker(st: seq<string>, i: nat): (r: nat)
    requires i <= |st|
    ensures i <= r <= |st| && (r < |st| ==> st[r] == MarkerWord)
    ensures forall k :: i <= k < r ==> st[k] != MarkerWord
    decreases |st| - i
  {
    if i == |st| || st[i] == MarkerWord then i else NextMarker(st, i + 1)
  }

  /** The index of the first stripped line from `i` on starting with `%`, or the length when there is none. */
  function NextComment(st: seq<string>, i: nat): (r: nat)
    requires i <= |st|
    ensures i <= r <= |st| && (r < |st| ==> Comment(st[r]))
    ensures forall k :: i <= k < r ==> !Comment(st[k])
    decreases |st| - i
  {
    if i == |st| || Comment(st[i]) then i else NextComment(st, i + 1)
  }

  /** A line of the block, by its stripped text, is collected unless blank or a repeated marker. */
  predicate Collected(stripped: string)
  {
    stripped != [] && stripped != MarkerWord
  }

  /** The collected lines among `lines[i..j]`, unstripped and in order; `st` holds the stripped texts. */
  function Kept(lines: seq<string>, st: seq<string>, i: nat, j: nat): seq<string>
    requires |st| == |lines| && i <= j <= |lines|
    decreases j
  {
    if j == i then []
    else Kept(lines, st, i, j - 1) + (if Collected(st[j - 1]) then [lines[j - 1]] else [])
  }

  /**
   * The block the extractor collects: after the first `ANSWER` line and before the first
   * later comment line, the collected lines; nothing without an `ANSWER` line. `st` holds the
   * stripped texts of the lines.
   */
  function AnswerBlock(lines: seq<string>, st: seq<string>): seq<string>
    requires |st| == |lines|
  {
    var a := NextMarker(st, 0);
    if a == |lines| then [] else Kept(lines, st, a + 1, NextComment(st, a + 1))
  }

  /** The state of the extraction loop before line `n`. */
  ghost predicate Extracting(lines: seq<string>, st: seq<string>, a: nat, n: nat, inAnswer: bool, content: seq<string>)
  {
    |st| == |lines| && n <= |lines| && a == NextMarker(st, 0)
    && (!inAnswer ==> a >= n && content == [])
    && (inAnswer ==> a < n && NextComment(st, a + 1) >= n && content == Kept(lines, st, a + 1, n))
  }

  /** The extraction loop with its `in_answer` flag and its `break` at a comment line. */
  method ExtractAnswer(lines: seq<string>) returns (content: seq<string>)
    ensures content == AnswerBlock(lines, Stripped(lines))
  {
    ghost var st := Stripped(lines);
    ghost var a := NextMarker(st, 0);
    var inAnswer := false;
    content := [];
    var n := 0;
    while n < |lines|
      invariant Extracting(lines, st, a, n, inAnswer, content)
    {
      var line := lines[n];
      var stripped := Strip(line);
      StrippedAt(lines, n);
      var stop;
      inAnswer, content, stop := ScanLine(line, stripped, lines, st, a, n, inAnswer, content);
      if stop {
        break;
      }
      n := n + 1;
    }
    BlockOf(lines, st, a, n, inAnswer, content);
  }

  /** One pass of the extraction loop; `stop` is the `break` at the closing comment line. */
  method ScanLine(line: string, stripped: string, ghost lines: seq<string>, ghost st: seq<string>, ghost a: nat,
                  ghost n: nat, inAnswer: bool, content: seq<string>)
    returns (inAnswer': bool, content': seq<string>, stop: bool)
    requires Extracting(lines, st, a, n, inAnswer, content)
    requires n < |lines| && line == lines[n] && stripped == st[n]
    ensures stop ==> Extracting(lines, st, a, n, inAnswer', content') && inAnswer' && n < |lines| && NextComment(st, a + 1) == n
    ensures !stop ==> Extracting(lines, st, a, n + 1, inAnswer', content')
  {
    inAnswer', content', stop := inAnswer, content, false;
    if stripped == MarkerWord {
      assert !Comment(MarkerWord);
      inAnswer' := true;
    } else if inAnswer && Comment(stripped) {
      stop := true;
    } else if inAnswer {
      if stripped != [] {
        content' := content + [line];
      }
    }
  }

  /** Where the loop ends, the collected content is the block. */
  lemma BlockOf(lines: seq<string>, st: seq<string>, a: nat, n: nat, inAnswer: bool, content: seq<string>)
    requires Extracting(lines, st, a, n, inAnswer, content)
    requires n == |lines| || (inAnswer && n < |lines| && NextComment(st, a + 1) == n)
    ensures content == AnswerBlock(lines, st)
  {
  }

  /** Every collected line is a line of the input, kept as it was, whose stripped text is collected. */
  lemma {:induction false} KeptLines(lines: seq<string>, st: seq<string>, i: nat, j: nat)
    requires |st| == |lines| && i <= j <= |lines|
    ensures forall x :: x in Kept(lines, st, i, j) ==> exists m :: i <= m < j && x == lines[m] && Collected(st[m])
    decreases j
  {
    if j > i {
      KeptLines(lines, st, i, j - 1);
    }
  }

  /** Collected lines keep their order: collecting two adjacent ranges collects their union. */
  lemma {:induction false} KeptAppend(lines: seq<string>, st: seq<string>, i: nat, j: nat, k: nat)
    requires |st| == |lines| && i <= j <= k <= |lines|
    ensures Kept(lines, st, i, k) == Kept(lines, st, i, j) + Kept(lines, st, j, k)
    decreases k
  {
    if k > j {
      KeptAppend(lines, st, i, j, k - 1);
    }
  }

  /** Nothing after the first comment line of the block matters. */
  lemma StopsAtComment(lines: seq<string>, st: seq<string>, tail: seq<string>, stTail: seq<string>)
    requires |st| == |lines| && |stTail| == |tail|
    requires NextMarker(st, 0) < |lines| && NextComment(st, NextMarker(st, 0) + 1) < |lines|
    ensures AnswerBlock(lines + tail, st + stTail) == AnswerBlock(lines, st)
  {
    var a := NextMarker(st, 0);
    var c := NextComment(st, a + 1);
    NextMarkerAppend(st, stTail, 0);
    NextCommentAppend(st, stTail, a + 1);
    KeptPrefix(lines, st, tail, stTail, a + 1, c);
    var whole, stWhole := lines + tail, st + stTail;
    assert |stWhole| == |whole| && NextMarker(stWhole, 0) == a < |whole| && NextComment(stWhole, a + 1) == c;
    assert AnswerBlock(whole, stWhole) == Kept(whole, stWhole, a + 1, c);
  }

  lemma {:induction false} NextMarkerAppend(xs: seq<string>, ys: seq<string>, i: nat)
    requires i <= |xs| && NextMarker(xs, i) < |xs|
    ensures NextMarker(xs + ys, i) == NextMarker(xs, i)
    decreases |xs| - i
  {
    assert (xs + ys)[i] == xs[i];
    if xs[i] != MarkerWord {
      NextMarkerAppend(xs, ys, i + 1);
    }
  }

  lemma {:induction false} NextCommentAppend(xs: seq<string>, ys: seq<string>, i: nat)
    requires i <= |xs| && NextComment(xs, i) < |xs|
    ensures NextComment(xs + ys, i) == NextComment(xs, i)
    decreases |xs| - i
  {
    assert (xs + ys)[i] == xs[i];
    if !Comment(xs[i]) {
      NextCommentAppend(xs, ys, i + 1);
    }
  }

  lemma {:induction false} KeptPrefix(lines: seq<string>, st: seq<string>, tail: seq<string>, stTail: seq<string>, i: nat, j: nat)
    requires |st| == |lines| && |stTail| == |tail| && i <= j <= |lines|
    ensures Kept(lines + tail, st + stTail, i, j) == Kept(lines, st, i, j)
    decreases j
  {
    if j > i {
      KeptPrefix(lines, st, tail, stTail, i, j - 1);
      assert (lines + tail)[j - 1] == lines[j - 1] && (st + stTail)[j - 1] == st[j - 1];
    }
  }

  /** The block as one string for the fact matcher: its lines joined by single spaces. */
  function ProcessedData(content: seq<string>): (r: string)
    ensures content == [] ==> r == []
    ensures |content| >= 1 ==> StartsWith(r, content[0]) && EndsWith(r, content[|content| - 1])
  {
    JoinEnds(content, " ");
    Join(content, " ")
  }

  /** Lines without blanks inside come back from the joined string by a split at spaces. */
  lemma ProcessedDataSplit(content: seq<string>)
    requires |content| >= 1 && forall k :: 0 <= k < |content| ==> ' ' !in content[k]
    ensures Split(ProcessedData(content), ' ') == content
  {
    SplitJoin(content, ' ');
  }

  // ---------------------------------------------------------------------------
  // Generate_Roles.py: renaming and the output file
  // ---------------------------------------------------------------------------

  /** The groups of one matched fact `holds("id",("relation",b1,b2),role).`. */
  datatype RoleFact = RoleFact(objId: string, relation: string, b1: string, b2: string, role: string)

  /** The relation renamed after the role. */
  function NewRelation(f: RoleFact): (r: string)
    ensures StartsWith(r, f.relation) && EndsWith(r, f.role) && |r| == |f.relation| + 1 + |f.role|
    ensures r[|f.relation|] == '_'
  {
    f.relation + "_" + f.role
  }

  /** The line written for a matched fact: the same id and objects, the renamed relation, no role. */
  function RenamedFact(f: RoleFact): (r: string)
    ensures StartsWith(r, "holds(\"" + f.objId + "\",(\"" + f.relation + "_" + f.role + "\",")
    ensures EndsWith(r, "," + f.b1 + "," + f.b2 + ")).\n")
    ensures |r| == |f.objId| + |NewRelation(f)| + |f.b1| + |f.b2| + 18
  {
    "holds(\"" + f.objId + "\",(\"" + NewRelation(f) + "\"," + f.b1 + "," + f.b2 + ")).\n"
  }

  /**
   * Roles are alphanumeric, so they hold no `_`: the renamed relation determines both the
   * relation and the role.
   */
  lemma NewRelationInjective(f: RoleFact, g: RoleFact)
    requires '_' !in f.role && '_' !in g.role
    ensures NewRelation(f) == NewRelation(g) <==> f.relation == g.relation && f.role == g.role
  {
    if NewRelation(f) == NewRelation(g) {
      var r := NewRelation(f);
      var i, j := |f.relation|, |g.relation|;
      assert r[i] == '_' && r[j] == '_';
      assert r[i + 1..] == f.role && r[j + 1..] == g.role;
      assert r[..i] == f.relation && r[..j] == g.relation;
    }
  }

  /**
   * The output file name: the part before the last `.`, then `-role.`, then the part after it.
   * A name without a `.` has no second part, which is `None`.
   */
  function RoleFileName(inputFile: string): (r: Option<string>)
    ensures r.Some? <==> '.' in inputFile
  {
    if '.' !in inputFile then None
    else
      var i := LastIndexOf(inputFile, '.');
      Some(inputFile[..i] + "-role." + inputFile[i + 1..])
  }

  /** The name splits at its last `.`: the stem gets `-role` and the extension is kept. */
  lemma RoleFileNameOf(stem: string, ext: string)
    requires '.' !in ext
    ensures RoleFileName(stem + "." + ext) == Some(stem + "-role." + ext)
  {
    var s := stem + "." + ext;
    assert s[|stem|] == '.';
    var i := LastIndexOf(s, '.');
    assert s[..|stem|] == stem && s[|stem| + 1..] == ext;
  }

  /**
   * The match loop: the output file is named at the first match, and every match writes its
   * renamed line and is counted. `ok` is false when naming the file fails, which happens at the
   * first match, before anything is written; without matches no file is named.
   */
  method WriteRoleFacts(inputFile: string, matches: seq<RoleFact>)
    returns (ok: bool, outputName: Option<string>, written: seq<string>, matchesFound: nat)
    ensures matches == [] ==> ok && outputName == None && written == [] && matchesFound == 0
    ensures matches != [] ==> (ok <==> '.' in inputFile)
    ensures !ok ==> outputName == None && written == [] && matchesFound == 0
    ensures ok && matches != [] ==> outputName == RoleFileName(inputFile) && matchesFound == |matches|
    ensures ok ==> |written| == |matches| && forall k :: 0 <= k < |matches| ==> written[k] == RenamedFact(matches[k])
  {
    ok, outputName, written, matchesFound := true, None, [], 0;
    for k := 0 to |matches|
      invariant matchesFound == k && |written| == k
      invariant forall i :: 0 <= i < k ==> written[i] == RenamedFact(matches[i])
      invariant k == 0 ==> outputName == None
      invariant k > 0 ==> outputName == RoleFileName(inputFile) && '.' in inputFile
    {
      if matchesFound == 0 {
        outputName := RoleFileName(inputFile);
        if outputName == None {
          ok, written := false, [];
          return;
        }
      }
      written := written + [RenamedFact(matches[k])];
      matchesFound := matchesFound + 1;
    }
  }
}
