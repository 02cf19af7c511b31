/** The console program's OutputFile (TextFileManager/Source.cpp): saving the
    merged lines and the interactive single-line editor that rewrites the
    saved file. The console is the token stream of module UserInput; a thrown
    exception ends the session (main catches it and exits). */
module MergedStore {
  import opened Base
  import opened Lines
  import opened Decimal
  import opened UserInput
  import ConsoleApp

  /** The largest value of `unsigned long long`. */
  const ULLONG_MAX: nat := 0xFFFF_FFFF_FFFF_FFFF

  /** `std::stoull(token)` in base 10 on a token read by `std::cin >>`
      (which holds no white space): an optional sign, then the longest run of
      digits; anything after it is ignored. No digit throws invalid_argument,
      a magnitude above ULLONG_MAX throws out_of_range, and a '-' negates
      modulo 2^64. */
  function ParseLineNumber(token: string): (r: Result<nat>)
    ensures r.Success? ==> r.value <= ULLONG_MAX
  {
    var signed := |token| > 0 && (token[0] == '+' || token[0] == '-');
    var digits := if signed then token[1..] else token;
    var k := LeadingDigits(digits);
    if k == 0 then Failure(InvalidLineNumber(token))
    else
      var v := DecimalValue(digits[..k]);
      if v > ULLONG_MAX then Failure(LineNumberOutOfRange(token))
      else if signed && token[0] == '-' && v > 0 then Success(ULLONG_MAX + 1 - v)
      else Success(v)
  }

  /** A number printed in decimal is read back as itself. */
  lemma ParseLineNumberOfNatToString(n: nat)
    requires n <= ULLONG_MAX
    ensures ParseLineNumber(NatToString(n)) == Success(n)
  {
    var s := NatToString(n);
    LeadingDigitsOfAllDigits(s);
    assert s[..|s|] == s;
    DecimalValueOfNatToString(n);
  }

  /** Digits followed by other text: the text is ignored. */
  lemma ParseLineNumberIgnoresSuffix(n: nat, suffix: string)
    requires n <= ULLONG_MAX
    requires suffix != [] && !IsDigit(suffix[0])
    ensures ParseLineNumber(NatToString(n) + suffix) == Success(n)
  {
    var s := NatToString(n);
    var t := s + suffix;
    LeadingDigitsOfAllDigits(s);
    LeadingDigitsOfDigitsThen(s, suffix);
    assert t[..|s|] == s;
    DecimalValueOfNatToString(n);
  }

  lemma {:induction false} LeadingDigitsOfDigitsThen(s: string, suffix: string)
    requires AllDigits(s)
    requires suffix != [] && !IsDigit(suffix[0])
    ensures LeadingDigits(s + suffix) == |s|
  {
    if s != [] {
      assert (s + suffix)[1..] == s[1..] + suffix;
      LeadingDigitsOfDigitsThen(s[1..], suffix);
    } else {
      assert s + suffix == suffix;
    }
  }

  /** "-n" for 1 <= n <= ULLONG_MAX wraps round to 2^64 - n. */
  lemma ParseNegativeWraps(n: nat)
    requires 1 <= n <= ULLONG_MAX
    ensures ParseLineNumber("-" + NatToString(n)) == Success(ULLONG_MAX + 1 - n)
  {
    DecimalValueOfNatToString(n);
    ParseNegativeDigits(NatToString(n));
  }

  lemma ParseNegativeDigits(s: string)
    requires s != [] && AllDigits(s) && 1 <= DecimalValue(s) <= ULLONG_MAX
    ensures ParseLineNumber("-" + s) == Success(ULLONG_MAX + 1 - DecimalValue(s))
  {
    var t := "-" + s;
    assert t[1..] == s;
    LeadingDigitsOfAllDigits(s);
    assert s[..|s|] == s;
  }

  /** A token without any digit is rejected. */
  lemma ParseWithoutDigits(token: string)
    requires forall j :: 0 <= j < |token| ==> !IsDigit(token[j])
    ensures ParseLineNumber(token) == Failure(InvalidLineNumber(token))
  {
    if |token| > 0 && (token[0] == '+' || token[0] == '-') {
      assert LeadingDigits(token[1..]) == 0;
    }
  }

  /** The edit loop of modifyFileContent over the lines from 1-based line
      `current` on: the line whose number equals n becomes c. */
  function EditLines(ls: seq<string>, n: nat, c: string, current: nat): (r: seq<string>)
    ensures |r| == |ls|
  {
    if ls == [] then []
    else [if current == n then c else ls[0]] + EditLines(ls[1..], n, c, current + 1)
  }

  /** Only the line numbered n changes, if it exists; otherwise nothing does. */
  lemma {:induction false} EditLinesSpec(ls: seq<string>, n: nat, c: string, current: nat)
    ensures EditLines(ls, n, c, current)
      == if current <= n < current + |ls| then ls[n - current := c] else ls
  {
    if ls != [] {
      var r := EditLines(ls, n, c, current);
      EditLinesSpec(ls[1..], n, c, current + 1);
      assert r == [if current == n then c else ls[0]] + EditLines(ls[1..], n, c, current + 1);
      if current == n {
        assert r == [c] + ls[1..];
        assert r == ls[0 := c];
      } else if current < n < current + |ls| {
        assert r == [ls[0]] + ls[1..][n - current - 1 := c];
        assert r == ls[n - current := c];
      } else {
        assert r == [ls[0]] + ls[1..];
        assert r == ls;
      }
    }
  }

  lemma EditLinesCons(line: string, ls: seq<string>, n: nat, c: string, current: nat)
    ensures EditLines([line] + ls, n, c, current)
      == [if current == n then c else line] + EditLines(ls, n, c, current + 1)
  {
    assert ([line] + ls)[1..] == ls;
  }

  lemma {:induction false} EditLinesNoNewlines(ls: seq<string>, n: nat, c: string, current: nat)
    requires NoNewlines(ls) && '\n' !in c
    ensures NoNewlines(EditLines(ls, n, c, current))
  {
    if ls != [] {
      EditLinesNoNewlines(ls[1..], n, c, current + 1);
    }
  }

  /** How one edit ends. */
  datatype EditResult = Saved | LineOutOfRange(lineNumber: nat) | EditFailed(error: Error)

  /** modifyFileContent after its two prompts: open the file (or throw), edit
      the line while reading (stoull throws on a bad token), reject a line
      number beyond the line count without writing, then rewrite the whole
      file (or throw when it cannot be opened for writing). */
  function Edit(files: map<string, string>, readOnly: set<string>, path: string,
                lineToken: string, newContent: string): (r: (EditResult, map<string, string>))
    ensures r.1.Keys == files.Keys
    ensures r.0 != Saved ==> r.1 == files
    ensures r.0 == Saved ==> path !in readOnly && forall p :: p in files && p != path ==> r.1[p] == files[p]
  {
    if path !in files then (EditFailed(FileNotFound(path)), files)
    else
      match ParseLineNumber(lineToken)
      case Failure(e) => (EditFailed(e), files)
      case Success(n) =>
        var lines := SplitLines(files[path]);
        if n > |lines| then (LineOutOfRange(n), files)
        else if path in readOnly then (EditFailed(WriteError(path)), files)
        else (Saved, files[path := JoinLines(EditLines(lines, n, newContent, 1))])
  }

  /** Reading the file back after a successful edit: the old lines with line n
      replaced when 1 <= n, and unchanged when n is 0. */
  lemma EditSpecification(files: map<string, string>, readOnly: set<string>, path: string,
                          lineToken: string, newContent: string)
    requires '\n' !in newContent
    requires Edit(files, readOnly, path, lineToken, newContent).0 == Saved
    ensures var n := ParseLineNumber(lineToken).value;
      var old_, new_ := SplitLines(files[path]), SplitLines(Edit(files, readOnly, path, lineToken, newContent).1[path]);
      && ParseLineNumber(lineToken).Success?
      && n <= |old_|
      && new_ == (if n == 0 then old_ else old_[n - 1 := newContent])
  {
    EditSaved(files, readOnly, path, lineToken, newContent);
    var n := ParseLineNumber(lineToken).value;
    var lines := SplitLines(files[path]);
    SplitLinesNoNewlines(files[path]);
    ReadBackEdited(lines, n, newContent);
  }

  /** What a saved edit writes. */
  lemma EditSaved(files: map<string, string>, readOnly: set<string>, path: string,
                  lineToken: string, newContent: string)
    requires Edit(files, readOnly, path, lineToken, newContent).0 == Saved
    ensures path in files && ParseLineNumber(lineToken).Success?
    ensures var n, lines := ParseLineNumber(lineToken).value, SplitLines(files[path]);
      && n <= |lines|
      && Edit(files, readOnly, path, lineToken, newContent).1[path] == JoinLines(EditLines(lines, n, newContent, 1))
  {
  }

  /** The edited lines, written and read back. */
  lemma ReadBackEdited(lines: seq<string>, n: nat, newContent: string)
    requires NoNewlines(lines) && '\n' !in newContent && n <= |lines|
    ensures SplitLines(JoinLines(EditLines(lines, n, newContent, 1)))
      == if n == 0 then lines else lines[n - 1 := newContent]
  {
    EditLinesNoNewlines(lines, n, newContent, 1);
    SplitJoin(EditLines(lines, n, newContent, 1));
    EditLinesSpec(lines, n, newContent, 1);
  }

  /** An edit that is not saved reports why and leaves every file alone; an
      out-of-range line number is reported exactly when n exceeds the count. */
  lemma EditRejects(files: map<string, string>, readOnly: set<string>, path: string,
                    lineToken: string, newContent: string)
    requires path in files && ParseLineNumber(lineToken).Success?
    ensures var n := ParseLineNumber(lineToken).value;
      var r := Edit(files, readOnly, path, lineToken, newContent);
      (r.0 == LineOutOfRange(n)) <==> n > |SplitLines(files[path])|
  {
  }

  /** How an edit session ends: the answer to the consent prompt was not "Y",
      or an edit stopped it (a saved edit asks for consent again). */
  datatype SessionEnd = Declined | EditStopped(result: EditResult)

  /** fileModification: ask for consent; "Y" runs one edit. */
  function Session(files: map<string, string>, readOnly: set<string>, path: string,
                   input: seq<string>): (r: (SessionEnd, map<string, string>))
    ensures r.0 != EditStopped(Saved) && r.1.Keys == files.Keys
    decreases |input|, 0
  {
    var (choice, rest) := NextToken(input);
    if choice != "Y" then (Declined, files)
    else EditRound(files, readOnly, path, rest)
  }

  /** modifyFileContent: read the line number and the new content, edit, and
      on success return to the consent prompt. */
  function EditRound(files: map<string, string>, readOnly: set<string>, path: string,
                     input: seq<string>): (r: (SessionEnd, map<string, string>))
    ensures r.0 != EditStopped(Saved) && r.1.Keys == files.Keys
    decreases |input|, 1
  {
    var (lineToken, rest) := NextToken(input);
    var (newContent, rest') := NextToken(rest);
    var (result, files') := Edit(files, readOnly, path, lineToken, newContent);
    if result == Saved then Session(files', readOnly, path, rest')
    else (EditStopped(result), files')
  }

  /** A session ends by a decline or a failed edit, never by a save, it
      touches no file other than `path`, and it creates none. */
  lemma {:induction false} SessionTouchesOnlyPath(files: map<string, string>, readOnly: set<string>,
                                                  path: string, input: seq<string>)
    ensures var (end, files') := Session(files, readOnly, path, input);
      && end != EditStopped(Saved)
      && files'.Keys == files.Keys
      && forall p :: p in files && p != path ==> files'[p] == files[p]
    decreases |input|
  {
    var (choice, rest) := NextToken(input);
    if choice == "Y" {
      var (lineToken, rest1) := NextToken(rest);
      var (newContent, rest2) := NextToken(rest1);
      var (result, files1) := Edit(files, readOnly, path, lineToken, newContent);
      if result == Saved {
        SessionTouchesOnlyPath(files1, readOnly, path, rest2);
      }
    }
  }

  /** With tokens free of line breaks (as `std::cin >>` delivers them), a
      session never changes how many lines the edited file has. */
  lemma {:induction false} SessionKeepsLineCount(files: map<string, string>, readOnly: set<string>,
                                                 path: string, input: seq<string>)
    requires path in files
    requires NoNewlines(input)
    ensures var files' := Session(files, readOnly, path, input).1;
      path in files' && |SplitLines(files'[path])| == |SplitLines(files[path])|
    decreases |input|
  {
    var (choice, rest) := NextToken(input);
    if choice == "Y" {
      NextTokenNoNewlines(input);
      var (lineToken, rest1) := NextToken(rest);
      NextTokenNoNewlines(rest);
      var (newContent, rest2) := NextToken(rest1);
      NextTokenNoNewlines(rest1);
      var (result, files1) := Edit(files, readOnly, path, lineToken, newContent);
      if result == Saved {
        EditSpecification(files, readOnly, path, lineToken, newContent);
        SessionKeepsLineCount(files1, readOnly, path, rest2);
      }
    }
  }

  lemma NextTokenNoNewlines(input: seq<string>)
    requires NoNewlines(input)
    ensures '\n' !in NextToken(input).0 && NoNewlines(NextToken(input).1)
  {
    if input != [] {
      assert NextToken(input).1 == input[1..];
    }
  }

  /** The output file, holding the merged lines it was built from. */
  class OutputFile {
    const content: seq<string>

    constructor (content: seq<string>)
      ensures this.content == content
    {
      this.content := content;
    }

    /** saveContent: truncate-open the path (or throw) and write every line
        followed by "\n". */
    method SaveContent(fs: FileSystem, outputPath: string) returns (r: Outcome)
      modifies fs
      ensures fs.readOnly == old(fs.readOnly)
      ensures outputPath in fs.readOnly ==> r == Fail(WriteError(outputPath)) && fs.files == old(fs.files)
      ensures outputPath !in fs.readOnly ==>
        r == Pass && fs.files == old(fs.files)[outputPath := JoinLines(content)]
    {
      if outputPath in fs.readOnly {
        return Fail(WriteError(outputPath));
      }
      var text := WriteLines(content);
      fs.files := fs.files[outputPath := text];
      return Pass;
    }

    /** fileModification(path) with the console as `input`. */
    method FileModification(fs: FileSystem, path: string, input: seq<string>) returns (end: SessionEnd)
      modifies fs
      ensures fs.readOnly == old(fs.readOnly)
      ensures (end, fs.files) == Session(old(fs.files), old(fs.readOnly), path, input)
      decreases |input|, 0
    {
      var (choice, rest) := NextToken(input);
      if choice == "Y" {
        end := ModifyFileContent(fs, path, rest);
      } else {
        end := Declined;
      }
    }

    /** modifyFileContent(path): read the two tokens, open the file, run
        the edit loop, check the range (std::stoull again), rewrite the file
        and return to fileModification. */
    method ModifyFileContent(fs: FileSystem, path: string, input: seq<string>) returns (end: SessionEnd)
      modifies fs
      ensures fs.readOnly == old(fs.readOnly)
      ensures (end, fs.files) == EditRound(old(fs.files), old(fs.readOnly), path, input)
      decreases |input|, 1
    {
      var (lineNumber, rest) := NextToken(input);
      var (newContent, rest') := NextToken(rest);
      if path !in fs.files {
        return EditStopped(EditFailed(FileNotFound(path)));
      }
      var edited := ReplaceWhileReading(fs.files[path], lineNumber, newContent);
      if edited.Failure? {
        return EditStopped(EditFailed(edited.error));
      }
      var lines := edited.value;
      var target := ParseLineNumber(lineNumber);
      if target.Failure? {
        return EditStopped(EditFailed(target.error));
      }
      if target.value > |lines| {
        return EditStopped(LineOutOfRange(target.value));
      }
      if path in fs.readOnly {
        return EditStopped(EditFailed(WriteError(path)));
      }
      var out := WriteLines(lines);
      fs.files := fs.files[path := out];
      end := FileModification(fs, path, rest');
    }
  }

  /** The read loop of modifyFileContent: `while (std::getline(inputFile,
      line))` with the `currentLine` counter, converting the line-number
      token with std::stoull on every line read and replacing the line whose
      number matches. A bad token throws at the first line; a file without
      lines never converts it here. */
  method ReplaceWhileReading(text: string, lineNumber: string, newContent: string)
    returns (r: Result<seq<string>>)
    ensures text != [] && ParseLineNumber(lineNumber).Failure? ==>
      r == Failure(ParseLineNumber(lineNumber).error)
    ensures ParseLineNumber(lineNumber).Success? ==>
      r == Success(EditLines(SplitLines(text), ParseLineNumber(lineNumber).value, newContent, 1))
    ensures text == [] ==> r == Success([])
  {
    ghost var parsed := ParseLineNumber(lineNumber);
    var lines: seq<string> := [];
    var pos := 0;
    var currentLine := 1;
    while pos < |text|
      invariant pos <= |text|
      invariant currentLine == |lines| + 1 && |lines| <= pos
      invariant pos > 0 ==> parsed.Success?
      invariant parsed.Success? ==>
        EditLines(SplitLines(text), parsed.value, newContent, 1)
          == lines + EditLines(SplitLines(text[pos..]), parsed.value, newContent, currentLine)
      decreases |text| - pos
    {
      var line, next := GetLine(text, pos);
      var target := ParseLineNumber(lineNumber);
      if target.Failure? {
        return Failure(target.error);
      }
      ghost var read := line;
      if currentLine == target.value {
        line := newContent;
      }
      ghost var tail := EditLines(SplitLines(text[next..]), target.value, newContent, currentLine + 1);
      EditLinesCons(read, SplitLines(text[next..]), target.value, newContent, currentLine);
      AppendAssociative(lines, [line], tail);
      lines := lines + [line];
      currentLine := currentLine + 1;
      pos := next;
    }
    assert text[pos..] == [];
    assert parsed.Success? ==> EditLines(SplitLines(text), parsed.value, newContent, 1) == lines + [];
    assert lines + [] == lines;
    return Success(lines);
  }

  /** What saveContent wrote is what retrieveContent reads back, as long as
      no line holds a '\n'; saving no lines leaves a file retrieveContent
      rejects as empty. */
  lemma SaveThenRetrieve(files: map<string, string>, path: string, content: seq<string>)
    requires NoNewlines(content)
    ensures ConsoleApp.ReadFile(files[path := JoinLines(content)], path)
      == if content == [] then Failure(EmptyFile(path)) else Success(content)
  {
    SplitJoin(content);
  }

  /** Consent followed by a line number beyond the file's line count ends
      the session at once: nothing is written and whatever input follows is
      never read, not even a further "Y". */
  lemma OutOfRangeStopsSession(files: map<string, string>, readOnly: set<string>, path: string,
                               n: nat, newContent: string, more: seq<string>)
    requires path in files && |SplitLines(files[path])| < n <= ULLONG_MAX
    ensures Session(files, readOnly, path, ["Y", NatToString(n), newContent] + more)
      == (EditStopped(LineOutOfRange(n)), files)
  {
    ConsentThenEdit(files, readOnly, path, NatToString(n), newContent, more);
    ParseLineNumberOfNatToString(n);
  }

  /** A saved edit returns to the consent prompt: the session goes on with
      the input after the three tokens, on the edited files. */
  lemma SavedEditAsksAgain(files: map<string, string>, readOnly: set<string>, path: string,
                           lineToken: string, newContent: string, more: seq<string>)
    requires Edit(files, readOnly, path, lineToken, newContent).0 == Saved
    ensures Session(files, readOnly, path, ["Y", lineToken, newContent] + more)
      == Session(Edit(files, readOnly, path, lineToken, newContent).1, readOnly, path, more)
  {
    ConsentThenEdit(files, readOnly, path, lineToken, newContent, more);
  }

  /** Consent followed by a line number and a new content runs exactly one
      edit with those two tokens; the session goes on after them only when
      the edit was saved. */
  lemma ConsentThenEdit(files: map<string, string>, readOnly: set<string>, path: string,
                        lineToken: string, newContent: string, more: seq<string>)
    ensures var (result, files') := Edit(files, readOnly, path, lineToken, newContent);
      Session(files, readOnly, path, ["Y", lineToken, newContent] + more)
        == if result == Saved then Session(files', readOnly, path, more) else (EditStopped(result), files')
  {
    var input := ["Y", lineToken, newContent] + more;
    assert input[1..] == [lineToken, newContent] + more;
    assert ([lineToken, newContent] + more)[1..] == [newContent] + more;
    assert ([newContent] + more)[1..] == more;
  }

  /** A first answer other than "Y" ends the session with every file
      untouched. */
  lemma DeclineEndsSession(files: map<string, string>, readOnly: set<string>, path: string,
                           answer: string, more: seq<string>)
    requires answer != "Y"
    ensures Session(files, readOnly, path, [answer] + more) == (Declined, files)
  {
  }
}
