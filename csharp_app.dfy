/** The C# console program (Program.cs): File.RetrieveContent through
    ReadAllLines, Comparator.CompareFiles, Merger.MergeFiles and
    OutputFile.Save. */
module CSharpApp {
  import opened Base
  import opened Lines
  import opened Diffs
  import opened UserInput
  import ConsoleApp

  /** File.RetrieveContent: a missing file throws; otherwise the file's
      lines, an empty file giving no lines at all. */
  function ReadAllLines(files: map<string, string>, path: string): (r: Result<seq<string>>)
    ensures r.Failure? <==> path !in files
    ensures r.Failure? ==> r.error == FileNotFound(path)
    ensures r.Success? ==> NoNewlines(r.value) && (r.value == [] <==> files[path] == "")
  {
    if path !in files then Failure(FileNotFound(path))
    else SplitLinesNoNewlines(files[path]); Success(SplitLines(files[path]))
  }

  /** The C# reader and the C++ reader agree except on an empty file, which
      the C# one reads as no lines and the C++ one rejects. */
  lemma ReadAllLinesAgainstConsole(files: map<string, string>, path: string)
    ensures path in files && files[path] == "" ==>
      ReadAllLines(files, path) == Success([]) && ConsoleApp.ReadFile(files, path) == Failure(EmptyFile(path))
    ensures !(path in files && files[path] == "") ==>
      ReadAllLines(files, path) == ConsoleApp.ReadFile(files, path)
  {
  }

  /** Comparator.CompareFiles: a fresh list of the positional differences. */
  method CompareFiles(file1Lines: seq<string>, file2Lines: seq<string>) returns (differences: seq<Difference>)
    ensures differences == PositionalDiff(file1Lines, file2Lines)
  {
    differences := [];
    var maxLines := if |file1Lines| > |file2Lines| then |file1Lines| else |file2Lines|;
    var i := 0;
    while i < maxLines
      invariant i <= maxLines == Max(|file1Lines|, |file2Lines|)
      invariant differences == DiffsUpTo(file1Lines, file2Lines, i)
    {
      var line1 := if i < |file1Lines| then file1Lines[i] else "";
      var line2 := if i < |file2Lines| then file2Lines[i] else "";
      if line1 != line2 {
        differences := differences + [Difference(i + 1, line1, line2)];
      }
      i := i + 1;
    }
  }

  /** The lines the C# merger keeps: for the k-th difference, the side the
      k-th accepted choice names. */
  function PickedLines(ds: seq<Difference>, choices: seq<string>): (r: seq<string>)
    requires |ds| <= |choices|
    ensures |r| == |ds|
  {
    if ds == [] then []
    else PickedLines(ds[..|ds| - 1], choices) + [Pick(choices[|ds| - 1], ds[|ds| - 1])]
  }

  /** The k-th kept line is the side of the k-th difference that the k-th
      accepted choice names; the difference's line number plays no part. */
  lemma {:induction false} PickedLinesAt(ds: seq<Difference>, choices: seq<string>)
    requires |ds| <= |choices|
    ensures forall k :: 0 <= k < |ds| ==> PickedLines(ds, choices)[k] == Pick(choices[k], ds[k])
  {
    if ds != [] {
      PickedLinesAt(ds[..|ds| - 1], choices);
    }
  }

  /** One prompt of the loop: with a difference and an accepted token left,
      the prompt returns the next choice and the kept lines grow by the side
      it names. */
  lemma MergeStep(differences: seq<Difference>, input: seq<string>, k: nat)
    requires k < |differences| && k < |Choices(input)|
    ensures NextChoice(AfterChoices(input, k)) == (Some(Choices(input)[k]), AfterChoices(input, k + 1))
    ensures PickedLines(differences[..k + 1], Choices(input))
      == PickedLines(differences[..k], Choices(input)) + [Pick(Choices(input)[k], differences[k])]
  {
    NextChoiceSpec(AfterChoices(input, k));
    AfterChoicesStep(input, k);
    assert differences[..k + 1][..k] == differences[..k];
  }

  /** The prompt finds no accepted token exactly when all have been used. */
  lemma PromptExhausted(input: seq<string>, k: nat)
    requires k <= |Choices(input)|
    ensures NextChoice(AfterChoices(input, k)).0.None? <==> k == |Choices(input)|
  {
    NextChoiceSpec(AfterChoices(input, k));
  }

  /** What Merger.MergeFiles produces over files of n positions: one prompt
      per position while differences remain, so min(n, |differences|)
      choices are needed. */
  function MergeResult(n: nat, differences: seq<Difference>, input: seq<string>): MergeOutcome
  {
    var m := Min(n, |differences|);
    if m <= |Choices(input)| then Merged(PickedLines(differences[..m], Choices(input)), AfterChoices(input, m))
    else Stalled
  }

  /** Merger.MergeFiles: re-read both files (either missing throws), then for
      each position ask for a choice while differences remain, and keep only
      the chosen lines. */
  method MergeFiles(fs: FileSystem, file1Path: string, file2Path: string,
                    differences: seq<Difference>, input: seq<string>)
    returns (r: Result<MergeOutcome>)
    ensures ReadAllLines(fs.files, file1Path).Failure? ==> r == Failure(FileNotFound(file1Path))
    ensures ReadAllLines(fs.files, file1Path).Success? && ReadAllLines(fs.files, file2Path).Failure? ==>
      r == Failure(FileNotFound(file2Path))
    ensures ReadAllLines(fs.files, file1Path).Success? && ReadAllLines(fs.files, file2Path).Success? ==>
      var n := Max(|ReadAllLines(fs.files, file1Path).value|, |ReadAllLines(fs.files, file2Path).value|);
      r == Success(MergeResult(n, differences, input))
  {
    var file1Lines := ReadAllLines(fs.files, file1Path);
    if file1Lines.Failure? {
      return Failure(file1Lines.error);
    }
    var file2Lines := ReadAllLines(fs.files, file2Path);
    if file2Lines.Failure? {
      return Failure(file2Lines.error);
    }
    var maxLines := if |file1Lines.value| > |file2Lines.value| then |file1Lines.value| else |file2Lines.value|;
    var outcome := MergeLoop(maxLines, differences, input);
    return Success(outcome);
  }

  /** The position loop of Merger.MergeFiles over maxLines positions. */
  method MergeLoop(maxLines: nat, differences: seq<Difference>, input: seq<string>) returns (r: MergeOutcome)
    ensures r == MergeResult(maxLines, differences, input)
  {
    var mergedContent: seq<string> := [];
    ghost var choices := Choices(input);
    var diffIndex := 0;
    var rest := input;
    var i := 0;
    while i < maxLines
      invariant i <= maxLines
      invariant diffIndex == Min(i, |differences|) && diffIndex <= |choices|
      invariant rest == AfterChoices(input, diffIndex)
      invariant mergedContent == PickedLines(differences[..diffIndex], choices)
    {
      if diffIndex < |differences| {
        PromptExhausted(input, diffIndex);
        var choice;
        choice, rest := ReadChoice(rest);
        if choice.None? {
          return Stalled;
        }
        MergeStep(differences, input, diffIndex);
        mergedContent := mergedContent + [Pick(choice.value, differences[diffIndex])];
        diffIndex := diffIndex + 1;
      }
      i := i + 1;
    }
    return Merged(mergedContent, rest);
  }

  /** Merging the differences of the two files themselves: one choice per
      difference, and the output is exactly the chosen side of each one;
      without differences nothing is read and nothing is written. */
  lemma MergeOfOwnDiffs(a: seq<string>, b: seq<string>, input: seq<string>)
    ensures var ds := PositionalDiff(a, b);
      var r := MergeResult(Max(|a|, |b|), ds, input);
      && (r.Merged? <==> |ds| <= |Choices(input)|)
      && (r.Merged? ==> |r.lines| == |ds| && forall k :: 0 <= k < |ds| ==> r.lines[k] == Pick(Choices(input)[k], ds[k]))
      && (ds == [] ==> r == Merged([], input))
  {
    var ds := PositionalDiff(a, b);
    PositionalDiffSpec(a, b);
    assert ds[..|ds|] == ds;
    if |ds| <= |Choices(input)| {
      PickedLinesAt(ds, Choices(input));
    }
  }

  /** As written, the merger keeps only the differing lines: as soon as one
      position agrees, its output is shorter than either full file would
      be. */
  lemma MergerDropsAgreeingLines(a: seq<string>, b: seq<string>, input: seq<string>, i: nat)
    requires i < Max(|a|, |b|) && EffectiveLine(a, i) == EffectiveLine(b, i)
    requires |PositionalDiff(a, b)| <= |Choices(input)|
    ensures MergeResult(Max(|a|, |b|), PositionalDiff(a, b), input).Merged?
    ensures |MergeResult(Max(|a|, |b|), PositionalDiff(a, b), input).lines| < Max(|a|, |b|)
  {
    MergeOfOwnDiffs(a, b, input);
    DiffCountBelowWhenALineMatches(a, b, Max(|a|, |b|), i);
  }

  /** x/y against x/z resolved with "2": the C# merger writes only "z", the
      C++ merger writes x/z. */
  lemma MergerScenario()
    ensures PositionalDiff(["x", "y"], ["x", "z"]) == [Difference(2, "y", "z")]
    ensures MergeResult(2, [Difference(2, "y", "z")], ["2"]) == Merged(["z"], [])
    ensures ConsoleApp.MergeUpTo(["x", "y"], ["x", "z"], [Difference(2, "y", "z")], ["2"], 2) == ["x", "z"]
  {
    ConsoleApp.MergeScenario();
    assert [Difference(2, "y", "z")][..1] == [Difference(2, "y", "z")];
  }

  /** OutputFile.Save: WriteAllLines writes every line followed by a line
      break; a path that cannot be written throws. */
  method Save(fs: FileSystem, outputPath: string, content: seq<string>) returns (r: Outcome)
    modifies fs
    ensures fs.readOnly == old(fs.readOnly)
    ensures outputPath in old(fs.readOnly) ==> r == Fail(WriteError(outputPath)) && fs.files == old(fs.files)
    ensures outputPath !in old(fs.readOnly) ==> r == Pass && fs.files == old(fs.files)[outputPath := JoinLines(content)]
  {
    if outputPath in fs.readOnly {
      return Fail(WriteError(outputPath));
    }
    var text := WriteLines(content);
    fs.files := fs.files[outputPath := text];
    return Pass;
  }

  /** Saving lines and reading them back gives the same lines, even none. */
  lemma SaveThenReadBack(files: map<string, string>, path: string, content: seq<string>)
    requires NoNewlines(content)
    ensures ReadAllLines(files[path := JoinLines(content)], path) == Success(content)
  {
    SplitJoin(content);
  }
}
