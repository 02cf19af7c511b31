/** The console program's reading, comparing and merging classes
    (TextFileManager/Source.cpp): File::retrieveContent, Comparator and
    Merger. */
module ConsoleApp {
  import opened Base
  import opened Lines
  import opened Diffs
  import opened UserInput

  /** What File::retrieveContent returns for `path`: the getline lines of the
      file, empty lines included; an unopenable or zero-length file throws. */
  function ReadFile(files: map<string, string>, path: string): Result<seq<string>>
  {
    if path !in files then Failure(FileNotFound(path))
    else if files[path] == "" then Failure(EmptyFile(path))
    else Success(SplitLines(files[path]))
  }

  /** File::retrieveContent: the open check, the peek-for-EOF check and the
      `while (std::getline(file, line)) lines.push_back(line);` loop. */
  method RetrieveContent(fs: FileSystem, path: string) returns (r: Result<seq<string>>)
    ensures r == ReadFile(fs.files, path)
  {
    if path !in fs.files {
      return Failure(FileNotFound(path));
    }
    var text := fs.files[path];
    if text == "" {
      return Failure(EmptyFile(path));
    }
    var lines: seq<string> := [];
    var pos := 0;
    while pos < |text|
      invariant pos <= |text|
      invariant SplitLines(text) == lines + SplitLines(text[pos..])
      decreases |text| - pos
    {
      var line, next := GetLine(text, pos);
      AppendAssociative(lines, [line], SplitLines(text[next..]));
      lines := lines + [line];
      pos := next;
    }
    assert text[pos..] == [];
    assert lines + [] == lines;
    return Success(lines);
  }

  /** Comparator: its `differences` member is filled by compareFiles and is
      never cleared. */
  class Comparator {
    var differences: seq<Difference>

    constructor ()
      ensures differences == []
    {
      differences := [];
    }

    /** Appends the positional differences of the two line sequences to the
        member and returns the whole member, earlier differences included. */
    method CompareFiles(firstFileContent: seq<string>, secondFileContent: seq<string>)
      returns (r: seq<Difference>)
      modifies this
      ensures differences == old(differences) + PositionalDiff(firstFileContent, secondFileContent)
      ensures r == differences
    {
      var maxLines := Max(|firstFileContent|, |secondFileContent|);
      ghost var earlier := differences;
      var i := 0;
      while i < maxLines
        invariant i <= maxLines
        invariant differences == earlier + DiffsUpTo(firstFileContent, secondFileContent, i)
      {
        var firstFileLine := if i < |firstFileContent| then firstFileContent[i] else "";
        var secondFileLine := if i < |secondFileContent| then secondFileContent[i] else "";
        if firstFileLine != secondFileLine {
          differences := differences + [Difference(i + 1, firstFileLine, secondFileLine)];
        }
        i := i + 1;
      }
      r := differences;
    }
  }

  /** The merge walk's difference cursor (`diffIndex`) after n positions: it
      advances past differences[c] exactly when differences[c].lineNumber is
      the position being filled. */
  function MatchCount(differences: seq<Difference>, n: nat): (c: nat)
    ensures c <= |differences| && c <= n
  {
    if n == 0 then 0
    else
      var c := MatchCount(differences, n - 1);
      if c < |differences| && differences[c].lineNumber == n then c + 1 else c
  }

  lemma {:induction false} MatchCountMonotone(differences: seq<Difference>, i: nat, n: nat)
    requires i <= n
    ensures MatchCount(differences, i) <= MatchCount(differences, n)
  {
    if i < n {
      MatchCountMonotone(differences, i, n - 1);
    }
  }

  /** The line kept where no difference is pending: the line of the file with
      more lines, and of the second file when the counts are equal. Always in
      range for i < max(|a|, |b|). */
  function Fallback(a: seq<string>, b: seq<string>, i: nat): (line: string)
    requires i < Max(|a|, |b|)
    ensures i >= |b| ==> line == a[i]
    ensures i >= |a| ==> line == b[i]
    ensures line == EffectiveLine(a, i) || line == EffectiveLine(b, i)
    ensures EffectiveLine(a, i) == EffectiveLine(b, i) ==> line == EffectiveLine(a, i)
  {
    if |a| > |b| then a[i] else b[i]
  }

  /** The first n merged lines, given the accepted choices in input order. */
  function MergeUpTo(a: seq<string>, b: seq<string>, differences: seq<Difference>,
                     choices: seq<string>, n: nat): (merged: seq<string>)
    requires n <= Max(|a|, |b|) && MatchCount(differences, n) <= |choices|
    ensures |merged| == n
  {
    if n == 0 then []
    else
      var c := MatchCount(differences, n - 1);
      MergeUpTo(a, b, differences, choices, n - 1)
        + [if c < |differences| && differences[c].lineNumber == n
           then Pick(choices[c], differences[c])
           else Fallback(a, b, n - 1)]
  }

  /** The state of Merger::mergeFiles's loop after n positions: the merged
      lines so far, the difference cursor and the unread input; Stuck once the
      input ran out at a choice prompt. */
  datatype Walk = Walk(merged: seq<string>, diffIndex: nat, rest: seq<string>) | Stuck

  function WalkUpTo(a: seq<string>, b: seq<string>, differences: seq<Difference>,
                    input: seq<string>, n: nat): Walk
    requires n <= Max(|a|, |b|)
  {
    if n == 0 then Walk([], 0, input)
    else
      match WalkUpTo(a, b, differences, input, n - 1)
      case Stuck => Stuck
      case Walk(merged, d, rest) =>
        if d < |differences| && n == differences[d].lineNumber then
          var (choice, rest') := NextChoice(rest);
          if choice.None? then Stuck
          else Walk(merged + [Pick(choice.value, differences[d])], d + 1, rest')
        else Walk(merged + [Fallback(a, b, n - 1)], d, rest)
  }

  /** Merger::mergeFiles with the console replaced by the token stream
      `input`: fills every position, asking for a choice at each pending
      difference. Stalled means the input ran out at a prompt. */
  method MergeFiles(firstFileContent: seq<string>, secondFileContent: seq<string>,
                    differences: seq<Difference>, input: seq<string>)
    returns (r: MergeOutcome)
    ensures var n := Max(|firstFileContent|, |secondFileContent|);
      var m := MatchCount(differences, n);
      && (r.Merged? <==> m <= |Choices(input)|)
      && (r.Merged? ==>
            && r.lines == MergeUpTo(firstFileContent, secondFileContent, differences, Choices(input), n)
            && r.rest == AfterChoices(input, m))
  {
    var mergedContent: seq<string> := [];
    var maxLines := Max(|firstFileContent|, |secondFileContent|);
    var diffIndex := 0;
    var rest := input;
    var i := 0;
    while i < maxLines
      invariant i <= maxLines
      invariant WalkUpTo(firstFileContent, secondFileContent, differences, input, i)
        == Walk(mergedContent, diffIndex, rest)
    {
      WalkStep(firstFileContent, secondFileContent, differences, input, i, mergedContent, diffIndex, rest);
      if diffIndex < |differences| && i + 1 == differences[diffIndex].lineNumber {
        var choice;
        choice, rest := ReadChoice(rest);
        if choice.None? {
          StuckStaysStuck(firstFileContent, secondFileContent, differences, input, i + 1, maxLines);
          WalkUpToSpec(firstFileContent, secondFileContent, differences, input, maxLines);
          return Stalled;
        }
        mergedContent := mergedContent + [Pick(choice.value, differences[diffIndex])];
        diffIndex := diffIndex + 1;
      } else {
        var line := if |firstFileContent| > |secondFileContent| then firstFileContent[i] else secondFileContent[i];
        mergedContent := mergedContent + [line];
      }
      i := i + 1;
    }
    WalkUpToSpec(firstFileContent, secondFileContent, differences, input, maxLines);
    return Merged(mergedContent, rest);
  }

  /** One position of the walk from a state that got through. */
  lemma WalkStep(a: seq<string>, b: seq<string>, differences: seq<Difference>, input: seq<string>,
                 i: nat, merged: seq<string>, d: nat, rest: seq<string>)
    requires i < Max(|a|, |b|) && WalkUpTo(a, b, differences, input, i) == Walk(merged, d, rest)
    ensures d < |differences| && i + 1 == differences[d].lineNumber ==>
      WalkUpTo(a, b, differences, input, i + 1)
        == (var (choice, rest') := NextChoice(rest);
            if choice.None? then Stuck else Walk(merged + [Pick(choice.value, differences[d])], d + 1, rest'))
    ensures !(d < |differences| && i + 1 == differences[d].lineNumber) ==>
      WalkUpTo(a, b, differences, input, i + 1) == Walk(merged + [Fallback(a, b, i)], d, rest)
  {
  }

  lemma {:induction false} StuckStaysStuck(a: seq<string>, b: seq<string>, differences: seq<Difference>,
                                           input: seq<string>, i: nat, n: nat)
    requires i <= n <= Max(|a|, |b|)
    requires WalkUpTo(a, b, differences, input, i) == Stuck
    ensures WalkUpTo(a, b, differences, input, n) == Stuck
  {
    if i < n {
      StuckStaysStuck(a, b, differences, input, i, n - 1);
    }
  }

  /** What the loop state after n positions is meant to be: the walk gets
      through iff the cursor has not outrun the accepted choices, and then it
      holds MergeUpTo's lines, the cursor MatchCount and the input after that
      many choices. */
  predicate WalkMeetsSpec(a: seq<string>, b: seq<string>, differences: seq<Difference>,
                          input: seq<string>, n: nat, w: Walk)
    requires n <= Max(|a|, |b|)
  {
    var m := MatchCount(differences, n);
    && (w.Walk? <==> m <= |Choices(input)|)
    && (w.Walk? ==>
          && w.merged == MergeUpTo(a, b, differences, Choices(input), n)
          && w.diffIndex == m
          && w.rest == AfterChoices(input, m))
  }

  lemma {:induction false} WalkUpToSpec(a: seq<string>, b: seq<string>, differences: seq<Difference>,
                                        input: seq<string>, n: nat)
    requires n <= Max(|a|, |b|)
    ensures WalkMeetsSpec(a, b, differences, input, n, WalkUpTo(a, b, differences, input, n))
  {
    if n > 0 {
      WalkUpToSpec(a, b, differences, input, n - 1);
      var c := MatchCount(differences, n - 1);
      if WalkUpTo(a, b, differences, input, n - 1).Stuck? {
        MatchCountMonotone(differences, n - 1, n);
      } else if c < |differences| && differences[c].lineNumber == n {
        WalkStepAtDifference(a, b, differences, input, n - 1);
      } else {
        MergeStepElsewhere(a, b, differences, Choices(input), n - 1);
      }
    }
  }

  lemma WalkStepAtDifference(a: seq<string>, b: seq<string>, differences: seq<Difference>,
                             input: seq<string>, i: nat)
    requires i < Max(|a|, |b|)
    requires WalkMeetsSpec(a, b, differences, input, i, WalkUpTo(a, b, differences, input, i))
    requires WalkUpTo(a, b, differences, input, i).Walk?
    requires MatchCount(differences, i) < |differences|
    requires differences[MatchCount(differences, i)].lineNumber == i + 1
    ensures WalkMeetsSpec(a, b, differences, input, i + 1, WalkUpTo(a, b, differences, input, i + 1))
  {
    var c, choices := MatchCount(differences, i), Choices(input);
    var w := WalkUpTo(a, b, differences, input, i);
    MatchCountAtDifference(differences, i);
    NextChoiceSpec(w.rest);
    var (choice, rest') := NextChoice(w.rest);
    assert Choices(w.rest) == choices[c..];
    if c < |choices| {
      assert choice == Some(choices[c]);
      AfterChoicesStep(input, c);
      MergeStepAtDifference(a, b, differences, choices, i);
      assert WalkUpTo(a, b, differences, input, i + 1)
        == Walk(w.merged + [Pick(choices[c], differences[c])], c + 1, rest');
    } else {
      assert choice.None?;
      assert WalkUpTo(a, b, differences, input, i + 1) == Stuck;
    }
  }

  /** The cursor moves past a difference exactly at that difference's line. */
  lemma MatchCountAtDifference(differences: seq<Difference>, i: nat)
    requires MatchCount(differences, i) < |differences|
    requires differences[MatchCount(differences, i)].lineNumber == i + 1
    ensures MatchCount(differences, i + 1) == MatchCount(differences, i) + 1
  {
  }

  /** One step of the walk at a position where the pending difference sits. */
  lemma MergeStepAtDifference(a: seq<string>, b: seq<string>, differences: seq<Difference>,
                              choices: seq<string>, i: nat)
    requires i < Max(|a|, |b|)
    requires MatchCount(differences, i) < |differences| && MatchCount(differences, i) < |choices|
    requires differences[MatchCount(differences, i)].lineNumber == i + 1
    ensures MatchCount(differences, i + 1) == MatchCount(differences, i) + 1
    ensures MergeUpTo(a, b, differences, choices, i + 1)
      == MergeUpTo(a, b, differences, choices, i)
         + [Pick(choices[MatchCount(differences, i)], differences[MatchCount(differences, i)])]
  {
  }

  /** One step of the walk at a position where no difference is pending. */
  lemma MergeStepElsewhere(a: seq<string>, b: seq<string>, differences: seq<Difference>,
                           choices: seq<string>, i: nat)
    requires i < Max(|a|, |b|) && MatchCount(differences, i) <= |choices|
    requires !(MatchCount(differences, i) < |differences|
               && differences[MatchCount(differences, i)].lineNumber == i + 1)
    ensures MatchCount(differences, i + 1) == MatchCount(differences, i)
    ensures MergeUpTo(a, b, differences, choices, i + 1)
      == MergeUpTo(a, b, differences, choices, i) + [Fallback(a, b, i)]
  {
  }

  /** The merged line at position i is decided at step i of the walk. */
  lemma {:induction false} MergeUpToAt(a: seq<string>, b: seq<string>, differences: seq<Difference>,
                                       choices: seq<string>, n: nat, i: nat)
    requires n <= Max(|a|, |b|) && MatchCount(differences, n) <= |choices|
    requires i < n
    ensures MatchCount(differences, i + 1) <= |choices|
    ensures MergeUpTo(a, b, differences, choices, n)[i]
      == MergeUpTo(a, b, differences, choices, i + 1)[i]
  {
    MatchCountMonotone(differences, i + 1, n);
    if i + 1 < n {
      MatchCountMonotone(differences, n - 1, n);
      MergeUpToAt(a, b, differences, choices, n - 1, i);
      MergeUpToExtends(a, b, differences, choices, n);
      assert MergeUpTo(a, b, differences, choices, n)[i]
        == MergeUpTo(a, b, differences, choices, n)[..n - 1][i];
    }
  }

  /** The first n merged lines begin with the first n - 1. */
  lemma MergeUpToExtends(a: seq<string>, b: seq<string>, differences: seq<Difference>,
                         choices: seq<string>, n: nat)
    requires 0 < n <= Max(|a|, |b|) && MatchCount(differences, n) <= |choices|
    ensures MatchCount(differences, n - 1) <= |choices|
    ensures MergeUpTo(a, b, differences, choices, n)[..n - 1] == MergeUpTo(a, b, differences, choices, n - 1)
  {
    MatchCountMonotone(differences, n - 1, n);
  }

  /** On a comparison's own differences the merge cursor has consumed exactly
      the differences found so far. */
  lemma {:induction false} MatchCountOfOwnDiffs(a: seq<string>, b: seq<string>, i: nat)
    requires i <= Max(|a|, |b|)
    ensures MatchCount(PositionalDiff(a, b), i) == |DiffsUpTo(a, b, i)|
  {
    if i > 0 {
      var ds, n := PositionalDiff(a, b), Max(|a|, |b|);
      MatchCountOfOwnDiffs(a, b, i - 1);
      DiffsUpToPrefix(a, b, i, n);
      assert ds == DiffsUpTo(a, b, n);
      DiffsUpToNext(a, b, i - 1);
      MatchCountFollows(ds, i, DiffsUpTo(a, b, i - 1), DiffsUpTo(a, b, i));
    }
  }

  /** The cursor after i positions, when the differences found by then form
      a prefix `cur` of the list that extends the prefix `prev` found one
      position earlier by nothing or by a difference at line i. */
  lemma MatchCountFollows(ds: seq<Difference>, i: nat, prev: seq<Difference>, cur: seq<Difference>)
    requires 0 < i && MatchCount(ds, i - 1) == |prev|
    requires |cur| <= |ds| && ds[..|cur|] == cur
    requires forall j :: |cur| <= j < |ds| ==> ds[j].lineNumber > i
    requires cur == prev || (|cur| == |prev| + 1 && cur[|prev|].lineNumber == i)
    ensures MatchCount(ds, i) == |cur|
  {
    if cur != prev {
      assert ds[|prev|] == cur[|prev|];
    }
  }

  /** Merging the differences compareFiles(a, b) produced: the output has
      max(|a|, |b|) lines, one choice is consumed per difference, every
      position where both files agree keeps the common line, and every
      differing position keeps the first file's line for "1" and the second
      file's for "2". */
  lemma MergeOfOwnDiffs(a: seq<string>, b: seq<string>, choices: seq<string>, i: nat)
    requires |PositionalDiff(a, b)| <= |choices|
    requires i < Max(|a|, |b|)
    ensures MatchCount(PositionalDiff(a, b), Max(|a|, |b|)) == |PositionalDiff(a, b)|
    ensures var merged := MergeUpTo(a, b, PositionalDiff(a, b), choices, Max(|a|, |b|));
      var x, y, k := EffectiveLine(a, i), EffectiveLine(b, i), |DiffsUpTo(a, b, i)|;
      && |merged| == Max(|a|, |b|)
      && (x == y ==> merged[i] == x)
      && (x != y ==> k < |choices| && merged[i] == if choices[k] == "1" then x else y)
  {
    var ds, n := PositionalDiff(a, b), Max(|a|, |b|);
    MatchCountOfOwnDiffs(a, b, n);
    MatchCountOfOwnDiffs(a, b, i);
    MergeUpToAt(a, b, ds, choices, n, i);
    assert ds == DiffsUpTo(a, b, n);
    DiffsUpToPrefix(a, b, i + 1, n);
    DiffsUpToNext(a, b, i);
    var p := |DiffsUpTo(a, b, i)|;
    if EffectiveLine(a, i) != EffectiveLine(b, i) {
      assert ds[p] == DiffsUpTo(a, b, i + 1)[p];
    }
  }

  /** The scenario x/y against x/z resolved with "2" yields x/z. */
  lemma MergeScenario()
    ensures PositionalDiff(["x", "y"], ["x", "z"]) == [Difference(2, "y", "z")]
    ensures MergeUpTo(["x", "y"], ["x", "z"], [Difference(2, "y", "z")], ["2"], 2) == ["x", "z"]
  {
  }
}
