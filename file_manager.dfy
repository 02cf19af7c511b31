/** The library's streaming comparator and the empty-line clean-up of its
    converter (TextFileManager/FileManager.cpp). */
module FileManager {
  import opened Base
  import opened Lines
  import opened Diffs

  /** Comparator of FileManager.cpp: compareFilesContent replaces the member
      `differences` by those of the latest comparison. */
  class Comparator {
    var differences: seq<Difference>

    constructor ()
      ensures differences == []
    {
      differences := [];
    }

    /** compareFilesContent: open both files (the first is checked first;
        either failure throws before anything changes), clear `differences`,
        then read both files in lock step until both are exhausted, recording
        a Difference wherever the lines (a finished file giving "") differ
        and copying each file's own lines, each followed by "\n", into its
        output string. The two strings are the success value; on failure the
        caller's strings are untouched. */
    method CompareFilesContent(fs: FileSystem, file1Path: string, file2Path: string)
      returns (r: Result<(string, string)>)
      modifies this
      ensures file1Path !in fs.files ==>
        r == Failure(FileNotFound(file1Path)) && differences == old(differences)
      ensures file1Path in fs.files && file2Path !in fs.files ==>
        r == Failure(FileNotFound(file2Path)) && differences == old(differences)
      ensures file1Path in fs.files && file2Path in fs.files ==>
        var a, b := SplitLines(fs.files[file1Path]), SplitLines(fs.files[file2Path]);
        && differences == PositionalDiff(a, b)
        && r == Success((JoinLines(a), JoinLines(b)))
    {
      if file1Path !in fs.files {
        return Failure(FileNotFound(file1Path));
      }
      if file2Path !in fs.files {
        return Failure(FileNotFound(file2Path));
      }
      var text1, text2 := fs.files[file1Path], fs.files[file2Path];
      differences := [];
      var file1Content, file2Content := LockStepWalk(text1, text2, SplitLines(text1), SplitLines(text2));
      return Success((file1Content, file2Content));
    }

    /** The read loop of compareFilesContent over the texts of two open
        files whose lines are `a` and `b`, starting from a cleared
        `differences`. */
    method LockStepWalk(text1: string, text2: string, ghost a: seq<string>, ghost b: seq<string>)
      returns (file1Content: string, file2Content: string)
      requires StreamAt(text1, 0, a, 0, "") && StreamAt(text2, 0, b, 0, "")
      requires differences == []
      modifies this
      ensures differences == PositionalDiff(a, b)
      ensures file1Content == JoinLines(a) && file2Content == JoinLines(b)
    {
      file1Content, file2Content := "", "";
      var pos1, pos2 := 0, 0;
      var lineNumber := 0;
      while true
        invariant lineNumber <= Max(|a|, |b|)
        invariant StreamAt(text1, pos1, a, lineNumber, file1Content)
        invariant StreamAt(text2, pos2, b, lineNumber, file2Content)
        invariant differences == DiffsUpTo(a, b, lineNumber)
        decreases |text1| - pos1 + |text2| - pos2
      {
        var gotLine1, line1, next1 := ReadLine(text1, pos1, a, lineNumber, file1Content);
        var gotLine2, line2, next2 := ReadLine(text2, pos2, b, lineNumber, file2Content);
        DiffStep(a, b, lineNumber, gotLine1, line1, gotLine2, line2);
        pos1, pos2 := next1, next2;
        lineNumber := lineNumber + 1;
        if !gotLine1 && !gotLine2 {
          break;
        }
        var currentLine1 := if gotLine1 then line1 else "";
        var currentLine2 := if gotLine2 then line2 else "";
        if currentLine1 != currentLine2 {
          differences := differences + [Difference(lineNumber, currentLine1, currentLine2)];
        }
        if gotLine1 {
          file1Content := file1Content + line1 + "\n";
        }
        if gotLine2 {
          file2Content := file2Content + line2 + "\n";
        }
      }
      StreamDone(text1, pos1, a, lineNumber, file1Content);
      StreamDone(text2, pos2, b, lineNumber, file2Content);
    }

    /** getDifferences: the differences of the latest successful comparison. */
    method GetDifferences() returns (r: seq<Difference>)
      ensures r == differences
    {
      return differences;
    }
  }

  /** One file's side of the lock-step walk after k positions: the unread
      text holds the lines from index k on, and the output string holds the
      lines before it, each followed by "\n". */
  ghost predicate StreamAt(text: string, pos: nat, ls: seq<string>, k: nat, copied: string)
  {
    && pos <= |text|
    && SplitLines(text[pos..]) == ls[Min(k, |ls|)..]
    && copied == JoinLines(ls[..Min(k, |ls|)])
  }

  /** `std::getline(file, line)` in the lock-step walk: it succeeds iff the
      file still has a line at index k, and then returns that line. The
      caller appends it to the output string only when it succeeded. */
  method ReadLine(text: string, pos: nat, ghost ls: seq<string>, ghost k: nat, ghost copied: string)
    returns (got: bool, line: string, next: nat)
    requires StreamAt(text, pos, ls, k, copied)
    ensures got <==> k < |ls|
    ensures got ==> line == ls[k] && pos < next && StreamAt(text, next, ls, k + 1, copied + line + "\n")
    ensures !got ==> next == pos && StreamAt(text, next, ls, k + 1, copied)
  {
    if pos < |text| {
      got := true;
      line, next := GetLine(text, pos);
      StreamAdvance(text, pos, next, ls, k, copied, line);
    } else {
      StreamStays(text, pos, ls, k, copied);
      got, line, next := false, "", pos;
    }
  }

  /** A line read from the unread text is the file's line at index k. */
  lemma StreamAdvance(text: string, pos: nat, next: nat, ls: seq<string>, k: nat, copied: string, line: string)
    requires StreamAt(text, pos, ls, k, copied)
    requires pos < next <= |text| && SplitLines(text[pos..]) == [line] + SplitLines(text[next..])
    ensures k < |ls| && line == ls[k]
    ensures StreamAt(text, next, ls, k + 1, copied + line + "\n")
  {
    LinesStep(ls, k, copied, line, SplitLines(text[next..]));
  }

  /** The same step on the line sequences alone. */
  lemma LinesStep(ls: seq<string>, k: nat, copied: string, line: string, unread: seq<string>)
    requires ls[Min(k, |ls|)..] == [line] + unread && copied == JoinLines(ls[..Min(k, |ls|)])
    ensures k < |ls| && line == ls[k]
    ensures unread == ls[Min(k + 1, |ls|)..] && copied + line + "\n" == JoinLines(ls[..Min(k + 1, |ls|)])
  {
    SuffixCons(ls, Min(k, |ls|), line, unread);
    assert ls[..k + 1] == ls[..k] + [line];
    JoinSnoc(ls[..k], line);
  }

  lemma SuffixCons<T>(s: seq<T>, m: nat, x: T, rest: seq<T>)
    requires m <= |s| && s[m..] == [x] + rest
    ensures m < |s| && s[m] == x && rest == s[m + 1..]
  {
    assert s[m..][0] == x;
    assert s[m..][1..] == s[m + 1..];
  }

  /** With nothing left unread the file has no line at index k. */
  lemma StreamStays(text: string, pos: nat, ls: seq<string>, k: nat, copied: string)
    requires StreamAt(text, pos, ls, k, copied) && pos == |text|
    ensures |ls| <= k && StreamAt(text, pos, ls, k + 1, copied)
  {
    assert text[pos..] == [];
  }

  /** One position of the lock-step walk: the lines compared are the
      effective lines at index k, and the walk ends there when both files are
      exhausted. */
  lemma DiffStep(a: seq<string>, b: seq<string>, k: nat,
                 got1: bool, line1: string, got2: bool, line2: string)
    requires (got1 <==> k < |a|) && (got1 ==> line1 == a[k])
    requires (got2 <==> k < |b|) && (got2 ==> line2 == b[k])
    ensures var x, y := (if got1 then line1 else ""), (if got2 then line2 else "");
      && x == EffectiveLine(a, k) && y == EffectiveLine(b, k)
      && DiffsUpTo(a, b, k + 1) == DiffsUpTo(a, b, k) + (if x != y then [Difference(k + 1, x, y)] else [])
    ensures !got1 && !got2 ==> Max(|a|, |b|) <= k
  {
  }

  /** When both files are exhausted the walk has covered every position and
      each output string holds its whole file. */
  lemma StreamDone(text: string, pos: nat, ls: seq<string>, k: nat, copied: string)
    requires StreamAt(text, pos, ls, k, copied) && |ls| <= k
    ensures copied == JoinLines(ls)
  {
    assert ls[..Min(k, |ls|)] == ls;
  }

  /** Two empty files compare clean and stream to empty strings; no
      empty-file error is raised on this path. */
  lemma EmptyFilesCompareClean()
    ensures PositionalDiff(SplitLines(""), SplitLines("")) == []
    ensures JoinLines(SplitLines("")) == ""
  {
  }

  /** The lines the convertToTxt clean-up keeps: the non-empty ones. */
  function CleanedText(text: string): string
  {
    JoinLines(NonEmptyLines(SplitLines(text)))
  }

  /** The clean-up loop of convertToTxt: copy every non-empty line, followed
      by "\n", to the temporary output. */
  method RemoveEmptyLines(text: string) returns (cleaned: string)
    ensures cleaned == CleanedText(text)
  {
    cleaned := "";
    ghost var kept: seq<string> := [];
    var pos := 0;
    while pos < |text|
      invariant pos <= |text|
      invariant cleaned == JoinLines(kept)
      invariant NonEmptyLines(SplitLines(text)) == kept + NonEmptyLines(SplitLines(text[pos..]))
      decreases |text| - pos
    {
      var line, next := GetLine(text, pos);
      NonEmptyLinesCons(line, SplitLines(text[next..]));
      if line != "" {
        JoinSnoc(kept, line);
        AppendAssociative(kept, [line], NonEmptyLines(SplitLines(text[next..])));
        kept := kept + [line];
        cleaned := cleaned + line + "\n";
      }
      pos := next;
    }
    assert text[pos..] == [];
    assert kept + [] == kept;
  }

  lemma NonEmptyLinesCons(line: string, ls: seq<string>)
    ensures line != "" ==> NonEmptyLines([line] + ls) == [line] + NonEmptyLines(ls)
    ensures line == "" ==> NonEmptyLines([line] + ls) == NonEmptyLines(ls)
  {
    assert ([line] + ls)[1..] == ls;
    assert [] + NonEmptyLines(ls) == NonEmptyLines(ls);
  }

  /** Reading the cleaned file back gives exactly the non-empty lines of the
      original, in order. */
  lemma CleanedLines(text: string)
    ensures SplitLines(CleanedText(text)) == NonEmptyLines(SplitLines(text))
    ensures forall k :: 0 <= k < |SplitLines(CleanedText(text))| ==> SplitLines(CleanedText(text))[k] != ""
  {
    var kept := NonEmptyLines(SplitLines(text));
    SplitLinesNoNewlines(text);
    NonEmptyLinesNoNewlines(SplitLines(text));
    SplitJoin(kept);
  }

  lemma {:induction false} NonEmptyLinesNoNewlines(ls: seq<string>)
    requires NoNewlines(ls)
    ensures NoNewlines(NonEmptyLines(ls))
  {
    if ls != [] {
      NonEmptyLinesNoNewlines(ls[1..]);
    }
  }

  lemma {:induction false} NonEmptyLinesIdempotent(ls: seq<string>)
    ensures NonEmptyLines(NonEmptyLines(ls)) == NonEmptyLines(ls)
  {
    if ls != [] {
      NonEmptyLinesIdempotent(ls[1..]);
      NonEmptyLinesCons(ls[0], NonEmptyLines(ls[1..]));
      NonEmptyLinesCons(ls[0], ls[1..]);
      assert [ls[0]] + ls[1..] == ls;
    }
  }

  /** Cleaning a cleaned file changes nothing. */
  lemma CleaningIsIdempotent(text: string)
    ensures CleanedText(CleanedText(text)) == CleanedText(text)
  {
    CleanedLines(text);
    NonEmptyLinesIdempotent(SplitLines(text));
  }
}
