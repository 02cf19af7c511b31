/** The library's exported entry points (TextFileManager/dLLExport.cpp):
    the ".txt" test, RetrieveContent, which copies a file's text into a
    caller-owned character buffer, and CompareFiles, which fills three such
    buffers and reports 0 or -1. A buffer is a `char*` of the stated size;
    the terminating NUL is '\0'. */
module DllExport {
  import opened Base
  import opened Lines
  import opened Decimal
  import opened Diffs
  import ConsoleApp

  /** Index of the last '.' in p (`find_last_of(".")`), if any. */
  function LastDot(p: string): (r: Option<nat>)
    ensures r.Some? ==> r.value < |p| && p[r.value] == '.' && '.' !in p[r.value + 1..]
    ensures r.None? ==> '.' !in p
  {
    if p == [] then None
    else if p[|p| - 1] == '.' then Some(|p| - 1)
    else
      var r := LastDot(p[..|p| - 1]);
      assert r.Some? ==> p[r.value + 1..] == p[..|p| - 1][r.value + 1..] + [p[|p| - 1]];
      assert r.None? ==> p == p[..|p| - 1] + [p[|p| - 1]];
      r
  }

  /** The text after the last '.'; without a '.', `npos + 1` wraps round to
      0 and the whole path is taken. */
  function Extension(p: string): string
  {
    match LastDot(p)
    case Some(i) => p[i + 1..]
    case None => p
  }

  /** isTxtFile: compare the extension with "txt" (case-sensitive). A path
      it accepts ends in "txt", after a '.' unless the path is just "txt". */
  function IsTxtFile(p: string): (r: bool)
    ensures r ==> |p| >= 3 && p[|p| - 3..] == "txt"
    ensures r && p != "txt" ==> |p| >= 4 && p[|p| - 4] == '.'
  {
    ExtensionIsSuffix(p);
    Extension(p) == "txt"
  }

  /** The extension is a tail of the path, preceded by a '.' unless it is the
      whole path. */
  lemma ExtensionIsSuffix(p: string)
    ensures |Extension(p)| <= |p| && p[|p| - |Extension(p)|..] == Extension(p)
    ensures Extension(p) != p ==> |Extension(p)| < |p| && p[|p| - |Extension(p)| - 1] == '.'
  {
  }

  /** find_last_of finds every '.' at or before the last one. */
  lemma {:induction false} LastDotAtLeast(p: string, j: nat)
    requires j < |p| && p[j] == '.'
    ensures LastDot(p).Some? && LastDot(p).value >= j
  {
    if p[|p| - 1] != '.' {
      LastDotAtLeast(p[..|p| - 1], j);
    }
  }

  /** A path is a text file iff it ends in ".txt" or is exactly "txt". */
  lemma IsTxtFileSpec(p: string)
    ensures IsTxtFile(p) <==> p == "txt" || (|p| >= 4 && p[|p| - 4..] == ".txt")
  {
    if |p| >= 4 && p[|p| - 4..] == ".txt" {
      DotTxtIsLastDot(p);
    }
    if IsTxtFile(p) && LastDot(p).Some? {
      TxtAfterLastDot(p, LastDot(p).value);
    }
  }

  /** In a path ending in ".txt" that '.' is the last one. */
  lemma DotTxtIsLastDot(p: string)
    requires |p| >= 4 && p[|p| - 4..] == ".txt"
    ensures LastDot(p) == Some(|p| - 4)
  {
    DotTxtChars(p);
    LastDotAtLeast(p, |p| - 4);
  }

  lemma DotTxtChars(p: string)
    requires |p| >= 4 && p[|p| - 4..] == ".txt"
    ensures p[|p| - 4] == '.' && p[|p| - 3] != '.' && p[|p| - 2] != '.' && p[|p| - 1] != '.'
  {
    var s := p[|p| - 4..];
    assert s[0] == p[|p| - 4] && s[1] == p[|p| - 3] && s[2] == p[|p| - 2] && s[3] == p[|p| - 1];
  }

  /** "txt" after the last '.' makes the path end in ".txt". */
  lemma TxtAfterLastDot(p: string, i: nat)
    requires i < |p| && p[i] == '.' && p[i + 1..] == "txt"
    ensures |p| >= 4 && p[|p| - 4..] == ".txt"
  {
    assert |p| == i + 4;
    assert p[i..] == [p[i]] + p[i + 1..];
  }

  /** The path CompareFiles reads: a ".txt" path as given, any other through
      the external converter (Pandoc run by `system()`), modelled as the
      partial map `conversions`; a missing entry is a failed conversion. */
  function ResolvePath(conversions: map<string, string>, p: string): (r: Result<string>)
    ensures r.Success? <==> IsTxtFile(p) || p in conversions
    ensures IsTxtFile(p) ==> r == Success(p)
    ensures !IsTxtFile(p) && p in conversions ==> r == Success(conversions[p])
    ensures r.Failure? ==> r.error == ConversionFailed(p)
  {
    if IsTxtFile(p) then Success(p)
    else if p in conversions then Success(conversions[p])
    else Failure(ConversionFailed(p))
  }

  /** The text the library hands back for a file: its getline lines, each
      followed by "\n". */
  function DllContent(files: map<string, string>, path: string): Result<string>
  {
    match ConsoleApp.ReadFile(files, path)
    case Success(lines) => Success(JoinLines(lines))
    case Failure(e) => Failure(e)
  }

  /** That text is the file's own text with a final "\n" supplied when it
      was missing; an unopenable or zero-length file is an error. */
  lemma DllContentSpec(files: map<string, string>, path: string)
    ensures path !in files ==> DllContent(files, path) == Failure(FileNotFound(path))
    ensures path in files && files[path] == "" ==> DllContent(files, path) == Failure(EmptyFile(path))
    ensures path in files && files[path] != "" ==>
      var t := files[path];
      DllContent(files, path) == Success(if t[|t| - 1] == '\n' then t else t + "\n")
  {
    if path in files {
      JoinSplit(files[path]);
    }
  }

  /** `buffer` holds `s` followed by a NUL, and every cell after the NUL is
      as it was in `before`. */
  ghost predicate Holds(buffer: array<char>, s: string, before: seq<char>)
    reads buffer
  {
    && |s| < buffer.Length == |before|
    && buffer[..|s|] == s
    && buffer[|s|] == '\0'
    && buffer[|s| + 1..] == before[|s| + 1..]
  }

  /** `std::copy(s.begin(), s.end(), buffer); buffer[s.size()] = '\0';` */
  method CopyToBuffer(s: string, buffer: array<char>)
    requires |s| < buffer.Length
    modifies buffer
    ensures Holds(buffer, s, old(buffer[..]))
  {
    var i := 0;
    while i < |s|
      invariant i <= |s|
      invariant buffer[..i] == s[..i]
      invariant buffer[i..] == old(buffer[i..])
    {
      buffer[i] := s[i];
      i := i + 1;
      assert buffer[..i] == buffer[..i - 1] + [s[i - 1]];
      assert s[..i] == s[..i - 1] + [s[i - 1]];
    }
    buffer[|s|] := '\0';
    assert buffer[..|s|] == s[..|s|];
  }

  /** The getline loop of RetrieveContent, streaming each line and "\n". */
  method StreamLines(text: string) returns (content: string)
    ensures content == JoinLines(SplitLines(text))
  {
    content := "";
    ghost var read: seq<string> := [];
    var pos := 0;
    while pos < |text|
      invariant pos <= |text|
      invariant content == JoinLines(read)
      invariant SplitLines(text) == read + SplitLines(text[pos..])
      decreases |text| - pos
    {
      var line, next := GetLine(text, pos);
      JoinSnoc(read, line);
      AppendAssociative(read, [line], SplitLines(text[next..]));
      read := read + [line];
      content := content + line + "\n";
      pos := next;
    }
    assert text[pos..] == [];
    assert read + [] == read;
  }

  /** RetrieveContent(path, buffer, bufferSize): open (or throw), reject a
      zero-length file, stream the lines, reject content that does not fit
      with its NUL (`size >= bufferSize`), then copy. The caller's buffer has
      at least bufferSize cells. */
  method RetrieveContent(fs: FileSystem, path: string, buffer: array<char>, bufferSize: nat)
    returns (r: Outcome)
    requires bufferSize <= buffer.Length
    modifies buffer
    ensures DllContent(fs.files, path).Failure? ==>
      r == Fail(DllContent(fs.files, path).error) && buffer[..] == old(buffer[..])
    ensures DllContent(fs.files, path).Success? && |DllContent(fs.files, path).value| >= bufferSize ==>
      r == Fail(BufferTooSmall) && buffer[..] == old(buffer[..])
    ensures DllContent(fs.files, path).Success? && |DllContent(fs.files, path).value| < bufferSize ==>
      r == Pass && Holds(buffer, DllContent(fs.files, path).value, old(buffer[..]))
  {
    if path !in fs.files {
      return Fail(FileNotFound(path));
    }
    var text := fs.files[path];
    if text == "" {
      return Fail(EmptyFile(path));
    }
    var content := StreamLines(text);
    if |content| >= bufferSize {
      return Fail(BufferTooSmall);
    }
    CopyToBuffer(content, buffer);
    return Pass;
  }

  /** One record of the difference text: it opens with "Line " and the line
      number, and closes with the second file's line and a "\n". */
  function RenderDifference(d: Difference): (s: string)
    ensures |s| > 5 + |NatToString(d.lineNumber)| + |d.secondFileContent| && s[..5] == "Line "
    ensures s[5..5 + |NatToString(d.lineNumber)|] == NatToString(d.lineNumber)
    ensures s[|s| - |d.secondFileContent| - 1..] == d.secondFileContent + "\n"
  {
    "Line " + NatToString(d.lineNumber) + ": File1 -> " + d.firstFileContent
      + ", File2 -> " + d.secondFileContent + "\n"
  }

  /** The difference text: one record per difference, in order. */
  function RenderDifferences(ds: seq<Difference>): string
  {
    if ds == [] then "" else RenderDifferences(ds[..|ds| - 1]) + RenderDifference(ds[|ds| - 1])
  }

  /** The diffStream loop of CompareFiles. */
  method BuildDiffString(differences: seq<Difference>) returns (diffString: string)
    ensures diffString == RenderDifferences(differences)
  {
    diffString := "";
    var i := 0;
    while i < |differences|
      invariant i <= |differences|
      invariant diffString == RenderDifferences(differences[..i])
    {
      assert differences[..i + 1][..i] == differences[..i];
      diffString := diffString + RenderDifference(differences[i]);
      i := i + 1;
    }
    assert differences[..i] == differences;
  }

  function CountNewlines(s: string): nat
  {
    if s == [] then 0 else CountNewlines(s[..|s| - 1]) + (if s[|s| - 1] == '\n' then 1 else 0)
  }

  lemma {:induction false} CountNewlinesAppend(s: string, t: string)
    ensures CountNewlines(s + t) == CountNewlines(s) + CountNewlines(t)
  {
    if t != [] {
      assert (s + t)[..|s + t| - 1] == s + t[..|t| - 1];
      CountNewlinesAppend(s, t[..|t| - 1]);
    } else {
      assert s + t == s;
    }
  }

  lemma {:induction false} CountNewlinesNone(s: string)
    requires forall k :: 0 <= k < |s| ==> s[k] != '\n'
    ensures CountNewlines(s) == 0
  {
    if s != [] {
      assert s[..|s| - 1] <= s;
      CountNewlinesNone(s[..|s| - 1]);
    }
  }

  /** A record whose lines hold no '\n' is terminated by its only '\n'. */
  lemma RenderDifferenceOneNewline(d: Difference)
    requires '\n' !in d.firstFileContent && '\n' !in d.secondFileContent
    ensures CountNewlines(RenderDifference(d)) == 1
  {
    var n := NatToString(d.lineNumber);
    CountNewlinesNone("Line ");
    CountNewlinesNone(n);
    CountNewlinesNone(": File1 -> ");
    CountNewlinesNone(d.firstFileContent);
    CountNewlinesNone(", File2 -> ");
    CountNewlinesNone(d.secondFileContent);
    CountNewlinesAppend("Line ", n);
    CountNewlinesAppend("Line " + n, ": File1 -> ");
    CountNewlinesAppend("Line " + n + ": File1 -> ", d.firstFileContent);
    CountNewlinesAppend("Line " + n + ": File1 -> " + d.firstFileContent, ", File2 -> ");
    CountNewlinesAppend("Line " + n + ": File1 -> " + d.firstFileContent + ", File2 -> ", d.secondFileContent);
    CountNewlinesAppend("Line " + n + ": File1 -> " + d.firstFileContent + ", File2 -> " + d.secondFileContent, "\n");
  }

  /** With lines free of '\n' (as getline returns them), the difference text
      has exactly one line per difference; it is empty iff there is none. */
  lemma {:induction false} RenderedRecordCount(ds: seq<Difference>)
    requires forall j :: 0 <= j < |ds| ==> '\n' !in ds[j].firstFileContent && '\n' !in ds[j].secondFileContent
    ensures CountNewlines(RenderDifferences(ds)) == |ds|
    ensures RenderDifferences(ds) == "" <==> ds == []
  {
    if ds != [] {
      var last := ds[|ds| - 1];
      RenderedRecordCount(ds[..|ds| - 1]);
      RenderDifferenceOneNewline(last);
      CountNewlinesAppend(RenderDifferences(ds[..|ds| - 1]), RenderDifference(last));
    }
  }

  /** The difference text of a comparison of two files has one record per
      Difference, and none for two identical files. */
  lemma ComparisonRecordCount(t1: string, t2: string)
    ensures var ds := PositionalDiff(SplitLines(t1), SplitLines(t2));
      CountNewlines(RenderDifferences(ds)) == |ds|
    ensures t1 == t2 ==> RenderDifferences(PositionalDiff(SplitLines(t1), SplitLines(t2))) == ""
  {
    var a, b := SplitLines(t1), SplitLines(t2);
    var ds := PositionalDiff(a, b);
    SplitLinesNoNewlines(t1);
    SplitLinesNoNewlines(t2);
    PositionalDiffSpec(a, b);
    forall j | 0 <= j < |ds|
      ensures '\n' !in ds[j].firstFileContent && '\n' !in ds[j].secondFileContent
    {
      assert ds[j] in ds;
    }
    RenderedRecordCount(ds);
    if t1 == t2 {
      IdenticalInputsNoDifferences(a);
    }
  }

  /** The two files' lines once both paths are resolved (first file first)
      and both files retrieved (first file first). */
  function PreparedLines(files: map<string, string>, conversions: map<string, string>,
                         file1Path: string, file2Path: string): Result<(seq<string>, seq<string>)>
  {
    match ResolvePath(conversions, file1Path)
    case Failure(e) => Failure(e)
    case Success(p1) =>
      match ResolvePath(conversions, file2Path)
      case Failure(e) => Failure(e)
      case Success(p2) =>
        match ConsoleApp.ReadFile(files, p1)
        case Failure(e) => Failure(e)
        case Success(a) =>
          match ConsoleApp.ReadFile(files, p2)
          case Failure(e) => Failure(e)
          case Success(b) => Success((a, b))
  }

  /** The conversion and retrieval steps of CompareFiles, in its order; any
      failure is an exception. */
  method PrepareFiles(fs: FileSystem, conversions: map<string, string>, file1Path: string, file2Path: string)
    returns (r: Result<(seq<string>, seq<string>)>)
    ensures r == PreparedLines(fs.files, conversions, file1Path, file2Path)
  {
    var file1Converted := ResolvePath(conversions, file1Path);
    if file1Converted.Failure? {
      return Failure(file1Converted.error);
    }
    var file2Converted := ResolvePath(conversions, file2Path);
    if file2Converted.Failure? {
      return Failure(file2Converted.error);
    }
    var firstFileContent := ConsoleApp.RetrieveContent(fs, file1Converted.value);
    if firstFileContent.Failure? {
      return Failure(firstFileContent.error);
    }
    var secondFileContent := ConsoleApp.RetrieveContent(fs, file2Converted.value);
    if secondFileContent.Failure? {
      return Failure(secondFileContent.error);
    }
    return Success((firstFileContent.value, secondFileContent.value));
  }

  /** The buffer-filling steps of CompareFiles once both files are read:
      content sizes first (nothing written if either is too large), then
      both contents, then the difference text. */
  method FillBuffers(a: seq<string>, b: seq<string>,
                     resultBuffer: array<char>, resultBufferSize: nat,
                     file1ContentBuffer: array<char>, file1ContentBufferSize: nat,
                     file2ContentBuffer: array<char>, file2ContentBufferSize: nat)
    returns (status: int)
    requires resultBufferSize <= resultBuffer.Length
    requires file1ContentBufferSize <= file1ContentBuffer.Length
    requires file2ContentBufferSize <= file2ContentBuffer.Length
    requires resultBuffer != file1ContentBuffer && resultBuffer != file2ContentBuffer
    requires file1ContentBuffer != file2ContentBuffer
    modifies resultBuffer, file1ContentBuffer, file2ContentBuffer
    ensures var s1, s2 := JoinLines(a), JoinLines(b);
      |s1| >= file1ContentBufferSize || |s2| >= file2ContentBufferSize ==>
        && status == -1
        && resultBuffer[..] == old(resultBuffer[..])
        && file1ContentBuffer[..] == old(file1ContentBuffer[..])
        && file2ContentBuffer[..] == old(file2ContentBuffer[..])
    ensures var s1, s2 := JoinLines(a), JoinLines(b);
      var d := RenderDifferences(PositionalDiff(a, b));
      |s1| < file1ContentBufferSize && |s2| < file2ContentBufferSize ==>
        && Holds(file1ContentBuffer, s1, old(file1ContentBuffer[..]))
        && Holds(file2ContentBuffer, s2, old(file2ContentBuffer[..]))
        && (|d| >= resultBufferSize ==> status == -1 && resultBuffer[..] == old(resultBuffer[..]))
        && (|d| < resultBufferSize ==> status == 0 && Holds(resultBuffer, d, old(resultBuffer[..])))
  {
    var originalContentString := WriteLines(a);
    var secondOriginalContentString := WriteLines(b);
    if |originalContentString| >= file1ContentBufferSize || |secondOriginalContentString| >= file2ContentBufferSize {
      return -1;
    }
    CopyToBuffer(originalContentString, file1ContentBuffer);
    CopyToBuffer(secondOriginalContentString, file2ContentBuffer);
    assert Holds(file1ContentBuffer, originalContentString, old(file1ContentBuffer[..]));
    var comparator := new ConsoleApp.Comparator();
    var differences := comparator.CompareFiles(a, b);
    assert differences == PositionalDiff(a, b) by {
      assert [] + PositionalDiff(a, b) == PositionalDiff(a, b);
    }
    var diffString := BuildDiffString(differences);
    if |diffString| >= resultBufferSize {
      return -1;
    }
    ghost var written1, written2 := file1ContentBuffer[..], file2ContentBuffer[..];
    CopyToBuffer(diffString, resultBuffer);
    assert file1ContentBuffer[..] == written1 && file2ContentBuffer[..] == written2;
    return 0;
  }

  /** CompareFiles: any exception gives -1. Content buffers too small: -1
      and nothing written. Result buffer too small: -1, but both content
      buffers already hold their files. Otherwise 0 with all three filled. */
  method CompareFiles(fs: FileSystem, conversions: map<string, string>,
                      file1Path: string, file2Path: string,
                      resultBuffer: array<char>, resultBufferSize: nat,
                      file1ContentBuffer: array<char>, file1ContentBufferSize: nat,
                      file2ContentBuffer: array<char>, file2ContentBufferSize: nat)
    returns (status: int)
    requires resultBufferSize <= resultBuffer.Length
    requires file1ContentBufferSize <= file1ContentBuffer.Length
    requires file2ContentBufferSize <= file2ContentBuffer.Length
    requires resultBuffer != file1ContentBuffer && resultBuffer != file2ContentBuffer
    requires file1ContentBuffer != file2ContentBuffer
    modifies resultBuffer, file1ContentBuffer, file2ContentBuffer
    ensures status == 0 || status == -1
    ensures PreparedLines(fs.files, conversions, file1Path, file2Path).Failure? ==>
      && status == -1
      && resultBuffer[..] == old(resultBuffer[..])
      && file1ContentBuffer[..] == old(file1ContentBuffer[..])
      && file2ContentBuffer[..] == old(file2ContentBuffer[..])
    ensures var prepared := PreparedLines(fs.files, conversions, file1Path, file2Path);
      prepared.Success? ==>
        var s1, s2 := JoinLines(prepared.value.0), JoinLines(prepared.value.1);
        var d := RenderDifferences(PositionalDiff(prepared.value.0, prepared.value.1));
        && (|s1| >= file1ContentBufferSize || |s2| >= file2ContentBufferSize ==>
              && status == -1
              && resultBuffer[..] == old(resultBuffer[..])
              && file1ContentBuffer[..] == old(file1ContentBuffer[..])
              && file2ContentBuffer[..] == old(file2ContentBuffer[..]))
        && (|s1| < file1ContentBufferSize && |s2| < file2ContentBufferSize ==>
              && Holds(file1ContentBuffer, s1, old(file1ContentBuffer[..]))
              && Holds(file2ContentBuffer, s2, old(file2ContentBuffer[..]))
              && (|d| >= resultBufferSize ==> status == -1 && resultBuffer[..] == old(resultBuffer[..]))
              && (|d| < resultBufferSize ==> status == 0 && Holds(resultBuffer, d, old(resultBuffer[..]))))
  {
    var prepared := PrepareFiles(fs, conversions, file1Path, file2Path);
    if prepared.Failure? {
      return -1;
    }
    status := FillBuffers(prepared.value.0, prepared.value.1,
                          resultBuffer, resultBufferSize,
                          file1ContentBuffer, file1ContentBufferSize,
                          file2ContentBuffer, file2ContentBufferSize);
  }
}
