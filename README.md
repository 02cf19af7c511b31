# Text file manager: positional diff, merge and line editor in Dafny

This project models the core of a small text-file manager. The program compares
two text files line by line, by position. It lists the positions where they
differ and lets a user resolve each difference into one merged file. The merged
file can then be edited one line at a time. The core appears in four places:

- **`TextFileManager/Source.cpp`**, the C++ console program. `File::retrieveContent`
  reads a file's lines. `Comparator::compareFiles` records a `Difference` for every
  position whose lines differ; a missing line counts as `""`. `Merger::mergeFiles`
  fills every position, asking for a choice at each difference.
  `OutputFile::saveContent`, `fileModification` and `modifyFileContent` save the
  merged lines and edit them.
- **`TextFileManager/FileManager.cpp`**, the library's comparator.
  `compareFilesContent` streams both files in lock step, and `getDifferences`
  returns the result. The module also covers the empty-line clean-up that
  `convertToTxt` applies.
- **`TextFileManager/dLLExport.cpp`**, the exported C interface. It covers
  `isTxtFile`, `RetrieveContent` (copies a file's text into a caller's buffer) and
  `CompareFiles` (fills three buffers and returns 0 or -1).
- **`Program.cs`**, the C# console program. It has its own `Comparator.CompareFiles`,
  `Merger.MergeFiles` and `OutputFile.Save`.

Modules, one per source unit plus shared vocabulary:

| module | file | models |
|---|---|---|
| `Base` | `base.dfy` | results and error kinds (the exceptions), `Max`/`Min`, the `FileSystem` class |
| `Lines` | `lines.dfy` | `std::getline` splitting (`SplitLines`, `GetLine`), `line << "\n"` writing (`JoinLines`, `WriteLines`) |
| `Decimal` | `decimal.dfy` | printing a line number and reading the digits of a token |
| `Diffs` | `diffs.dfy` | `Difference` and the one positional-diff reference definition (`PositionalDiff`) all three comparators are proved against |
| `UserInput` | `user_input.dfy` | the console as an injected token sequence and the "1"/"2" re-prompt loop |
| `ConsoleApp` | `console_app.dfy` | `File`, `Comparator`, `Merger` of `Source.cpp` |
| `MergedStore` | `merged_store.dfy` | `OutputFile` of `Source.cpp`, `std::stoull`, the edit session |
| `FileManager` | `file_manager.dfy` | `Comparator` and the clean-up loop of `FileManager.cpp` |
| `DllExport` | `dll_export.dfy` | `dLLExport.cpp` |
| `CSharpApp` | `csharp_app.dfy` | `Program.cs` |

How the environment is modelled:

- A file system is a map from path to text, plus the set of paths that cannot be
  opened for writing.
- Console input is a sequence of tokens.
- Each exception is an `Error` value in a `Result`.
- The external document converter is a map from path to converted path.
- Caller-owned `char*` buffers are Dafny arrays.
- A file's text is what a text-mode stream sees. The C++ `ifstream` and `ofstream` translate the platform's "\r\n" to and from "\n", so every line ends in "\n" here. The C# reader and writer do no such translation; "## Left out" says what that leaves out.

Three points where the code is easy to misread; the model follows the code:

- `retrieveContent` keeps empty lines. Only a commented-out draft in `FileManager.cpp`
  drops them.
- After a saved edit, `modifyFileContent` calls `fileModification` again
  (`Source.cpp:266`). So consent is asked again after every saved edit, and a
  non-"Y" answer ends the session.
- The DLL's `CompareFiles` calls `File::retrieveContent` and
  `Comparator::compareFiles`, but `FileManager.cpp` (which it includes) does not
  define them. The model takes both from `Source.cpp`.

## Model

| member | source | states |
|---|---|---|
| Lines.SplitLines | TextFileManager/Source.cpp:33-37 | the getline lines of a text: none exactly when the text is empty |
| Lines.GetLine | TextFileManager/Source.cpp:35 | one successful getline moves forward and returns the first remaining line; the lines still unread are exactly those after it |
| Lines.SplitLinesNoNewlines | TextFileManager/Source.cpp:35-36 | no line getline returns contains '\n' |
| Lines.SplitJoin | TextFileManager/Source.cpp:198-200 | lines without '\n', written each followed by "\n" and read back with getline, are the same lines |
| Lines.JoinSplit | TextFileManager/dLLExport.cpp:88-95 | reading a text with getline and writing the lines back with "\n" reproduces the text; a final "\n" is supplied only when it was missing |
| Lines.JoinAppend | TextFileManager/Source.cpp:198-200 | writing x and then y writes the text of x followed by the text of y |
| Lines.JoinSnoc | TextFileManager/Source.cpp:199 | writing one more line appends that line and its "\n" |
| Lines.WriteLines | TextFileManager/Source.cpp:198-200 | the writer loop produces JoinLines of the lines |
| Lines.SplitFirstLine | TextFileManager/Source.cpp:35 | a non-empty text is its first line, then "\n" if the text has one, then the rest |
| Lines.NonEmptyLines | TextFileManager/FileManager.cpp:193-197 | every kept line is non-empty and comes from the input, and every non-empty input line is kept |
| Decimal.NatToString | TextFileManager/dLLExport.cpp:166 | a line number prints as one or more digits with no leading zero |
| Decimal.DecimalValueOfNatToString | TextFileManager/Source.cpp:240 | the digits printed for n denote n |
| Decimal.LeadingDigits | TextFileManager/Source.cpp:240 | the digit run stoull reads: all digits, and the next character is not a digit |
| Decimal.LeadingDigitsOfAllDigits | TextFileManager/Source.cpp:240 | in an all-digit token the run is the whole token |
| Diffs.DiffsUpToNext | TextFileManager/Source.cpp:74-79 | one more position adds a Difference exactly when the effective lines there differ |
| Diffs.DiffsUpToEntries | TextFileManager/Source.cpp:73-80 | each recorded Difference lies in 1..n and carries the two effective lines, which differ |
| Diffs.DiffsUpToIncreasing | TextFileManager/Source.cpp:73-80 | recorded line numbers strictly increase |
| Diffs.DiffsUpToSound | TextFileManager/Source.cpp:73-80 | at most n Differences, each a genuine mismatch at its position, in increasing order |
| Diffs.DiffsUpToComplete | TextFileManager/Source.cpp:73-80 | every mismatching position is recorded with its effective lines |
| Diffs.PositionalDiffSpec | TextFileManager/Source.cpp:71-80 | Difference(i+1, x, y) is recorded iff x and y are the effective lines at i and differ; line numbers strictly increase within 1..max(\|a\|,\|b\|) |
| Diffs.DiffsUpToPrefix | TextFileManager/Source.cpp:73-80 | walking further only appends Differences at later positions |
| Diffs.NoDiffsUpToOfIdentical | TextFileManager/Source.cpp:77 | a sequence compared with itself gives no Difference at any prefix |
| Diffs.IdenticalInputsNoDifferences | TextFileManager/Source.cpp:71-80 | identical inputs give no differences |
| Diffs.SwapDiffsUpTo | TextFileManager/Source.cpp:73-80 | walking (b, a) gives the Differences of (a, b) with the sides swapped |
| Diffs.CompareSwapped | TextFileManager/Source.cpp:71-80 | comparing (b, a) reports the positions of (a, b) with the sides swapped |
| Diffs.DiffsUpToAgainstEmpty | TextFileManager/Source.cpp:74-78 | against no lines, each non-empty line k gives Difference(k+1, "", line) |
| Diffs.EmptyAgainstLines | TextFileManager/Source.cpp:71-80 | an empty first file against non-empty lines gives one Difference per line, each with an empty first side |
| Diffs.DiffCountBelowWhenALineMatches | TextFileManager/Source.cpp:77-79 | one agreeing position leaves fewer Differences than positions |
| UserInput.Choices | TextFileManager/Source.cpp:133-138 | the tokens the choice prompt accepts are all "1" or "2", and there are no more of them than tokens |
| UserInput.AfterChoices | TextFileManager/Source.cpp:133-138 | what remains after k accepted choices has exactly the remaining accepted tokens |
| UserInput.AfterChoicesStep | TextFileManager/Source.cpp:133-141 | one more accepted choice after k gives the input after k+1 |
| UserInput.NextChoiceSpec | TextFileManager/Source.cpp:133-138 | the prompt yields a token iff an accepted token remains; it is the first one, and the input moves past exactly one choice |
| UserInput.ReadChoice | TextFileManager/Source.cpp:133-138 | the re-prompt loop returns the prompt's choice and the unread input |
| UserInput.NextToken | TextFileManager/Source.cpp:211 | `cin >> s` takes the first token; on exhausted input it gives "" |
| UserInput.Pick | TextFileManager/Source.cpp:140 | choice "1" keeps the first file's side of the difference and "2" the second file's |
| ConsoleApp.RetrieveContent | TextFileManager/Source.cpp:23-40 | a missing file is FileNotFound, a zero-length file is EmptyFile, otherwise the file's getline lines with empty lines kept |
| ConsoleApp.Comparator.constructor | TextFileManager/Source.cpp:64-66 | a new Comparator has no differences |
| ConsoleApp.Comparator.CompareFiles | TextFileManager/Source.cpp:69-82 | the member becomes the old differences followed by the positional differences, and the whole member is returned |
| ConsoleApp.MatchCount | TextFileManager/Source.cpp:123-141 | the cursor never passes the difference count or the position |
| ConsoleApp.MatchCountMonotone | TextFileManager/Source.cpp:126-141 | the cursor never moves back |
| ConsoleApp.Fallback | TextFileManager/Source.cpp:145 | the line kept away from a difference comes from a file that has a line there: the only such file past the shorter one's end, and the common line where both effective lines agree |
| ConsoleApp.MergeUpTo | TextFileManager/Source.cpp:125-148 | the first n merged lines number exactly n |
| ConsoleApp.MergeFiles | TextFileManager/Source.cpp:117-150 | the merge completes iff the input holds enough accepted choices for the differences the cursor meets; the output is MergeUpTo over every position, and the unread input is what follows those choices |
| ConsoleApp.WalkStep | TextFileManager/Source.cpp:126-147 | one position either consumes a choice for the pending difference or adds the size-based fallback line |
| ConsoleApp.StuckStaysStuck | TextFileManager/Source.cpp:135-138 | once the input runs out at a prompt the merge never completes |
| ConsoleApp.WalkUpToSpec | TextFileManager/Source.cpp:125-148 | after n positions the loop state is MergeUpTo's lines, the cursor and the input after that many choices, or stuck iff choices ran out |
| ConsoleApp.WalkStepAtDifference | TextFileManager/Source.cpp:126-141 | a position with a pending difference keeps the loop state as specified |
| ConsoleApp.MatchCountAtDifference | TextFileManager/Source.cpp:126-141 | the cursor moves past a difference exactly at its line |
| ConsoleApp.MergeStepAtDifference | TextFileManager/Source.cpp:126-141 | at a pending difference the output grows by the chosen side |
| ConsoleApp.MergeStepElsewhere | TextFileManager/Source.cpp:143-147 | elsewhere the output grows by the longer file's line and the cursor stays |
| ConsoleApp.MergeUpToAt | TextFileManager/Source.cpp:125-148 | the merged line at position i is settled at step i |
| ConsoleApp.MergeUpToExtends | TextFileManager/Source.cpp:125-148 | the first n merged lines begin with the first n-1 |
| ConsoleApp.MatchCountOfOwnDiffs | TextFileManager/Source.cpp:126-141 | on compareFiles' own output, the cursor after i positions equals the number of differences found by then |
| ConsoleApp.MatchCountFollows | TextFileManager/Source.cpp:126-141 | the cursor tracks a growing prefix of the difference list |
| ConsoleApp.MergeOfOwnDiffs | TextFileManager/Source.cpp:122-146 | merging a comparison's own differences gives max(\|a\|,\|b\|) lines and consumes one choice per difference; an agreeing position keeps the common line, and a differing one keeps the first side for "1" and the second for "2" |
| ConsoleApp.MergeScenario | TextFileManager/Source.cpp:117-150 | ["x","y"] against ["x","z"] gives [Difference(2,"y","z")], and choosing "2" merges to ["x","z"] |
| MergedStore.ParseLineNumber | TextFileManager/Source.cpp:240 | a stoull result never exceeds ULLONG_MAX |
| MergedStore.ParseLineNumberOfNatToString | TextFileManager/Source.cpp:240 | a printed number up to ULLONG_MAX parses back to itself |
| MergedStore.ParseLineNumberIgnoresSuffix | TextFileManager/Source.cpp:240 | text after the digits is ignored |
| MergedStore.LeadingDigitsOfDigitsThen | TextFileManager/Source.cpp:240 | the digit run stops at the first non-digit |
| MergedStore.ParseNegativeWraps | TextFileManager/Source.cpp:240 | "-n" parses to 2^64 - n |
| MergedStore.ParseNegativeDigits | TextFileManager/Source.cpp:240 | a '-' before digits of value v in 1..ULLONG_MAX gives 2^64 - v |
| MergedStore.ParseWithoutDigits | TextFileManager/Source.cpp:240 | a token without digits throws invalid_argument |
| MergedStore.EditLines | TextFileManager/Source.cpp:239-245 | editing keeps the line count |
| MergedStore.EditLinesSpec | TextFileManager/Source.cpp:237-245 | only the line numbered n changes, when it exists; otherwise nothing does |
| MergedStore.EditLinesCons | TextFileManager/Source.cpp:239-245 | one read line is replaced iff its number is n |
| MergedStore.EditLinesNoNewlines | TextFileManager/Source.cpp:239-245 | editing with a token free of '\n' keeps every line free of '\n' |
| MergedStore.Edit | TextFileManager/Source.cpp:219-262 | an edit creates no file; an unsaved edit changes nothing; a saved edit changes only `path`, which is writable |
| MergedStore.EditSpecification | TextFileManager/Source.cpp:237-262 | after a saved edit the file's lines are the old lines with line n replaced (unchanged for n = 0), and n is within the count |
| MergedStore.EditSaved | TextFileManager/Source.cpp:230-262 | a saved edit had an open file and a parsed n within the count, and wrote the edited lines |
| MergedStore.ReadBackEdited | TextFileManager/Source.cpp:259-261 | the written edited lines read back as the old lines with line n replaced |
| MergedStore.EditRejects | TextFileManager/Source.cpp:248-252 | the edit is rejected as out of range iff n exceeds the line count |
| MergedStore.SessionTouchesOnlyPath | TextFileManager/Source.cpp:205-267 | a session never ends on a save, creates no file and touches no file but `path` |
| MergedStore.SessionKeepsLineCount | TextFileManager/Source.cpp:205-267 | with tokens free of '\n', a session keeps the file's line count |
| MergedStore.Session | TextFileManager/Source.cpp:205-216 | a session never ends on a saved edit and creates or removes no file |
| MergedStore.EditRound | TextFileManager/Source.cpp:219-267 | an edit round never ends on a saved edit, because a save goes back to the consent prompt, and creates or removes no file |
| MergedStore.NextTokenNoNewlines | TextFileManager/Source.cpp:224-227 | tokens free of '\n' stay so once read |
| MergedStore.OutputFile.constructor | TextFileManager/Source.cpp:191 | the output file holds the given lines |
| MergedStore.OutputFile.SaveContent | TextFileManager/Source.cpp:193-202 | an unwritable path throws and changes nothing; otherwise the file becomes the lines, each followed by "\n" |
| MergedStore.OutputFile.FileModification | TextFileManager/Source.cpp:205-216 | the session's end and the files match Session |
| MergedStore.OutputFile.ModifyFileContent | TextFileManager/Source.cpp:219-267 | the edit round's end and the files match EditRound |
| MergedStore.ReplaceWhileReading | TextFileManager/Source.cpp:235-246 | a bad token throws at the first line read; a parsed n gives the edited lines; a file without lines gives none |
| MergedStore.SaveThenRetrieve | TextFileManager/Source.cpp:23-40 | saved lines free of '\n' are retrieved as the same lines; saving none leaves a file retrieveContent rejects as empty |
| MergedStore.OutOfRangeStopsSession | TextFileManager/Source.cpp:248-252 | consent followed by a line number beyond the count ends the session without writing or reading further |
| MergedStore.SavedEditAsksAgain | TextFileManager/Source.cpp:266 | after a saved edit the session continues at the consent prompt on the edited files |
| MergedStore.ConsentThenEdit | TextFileManager/Source.cpp:212-213 | "Y" followed by two tokens runs one edit with them, and the session continues only if it was saved |
| MergedStore.DeclineEndsSession | TextFileManager/Source.cpp:212-215 | an answer other than "Y" ends the session with no file changed |
| FileManager.Comparator.constructor | TextFileManager/FileManager.cpp:268-270 | a new Comparator has no differences |
| FileManager.Comparator.CompareFilesContent | TextFileManager/FileManager.cpp:274-319 | a missing first or second file throws and leaves `differences` alone; otherwise `differences` is only the new positional diff, and each returned string is its file's lines, each followed by "\n" |
| FileManager.Comparator.LockStepWalk | TextFileManager/FileManager.cpp:288-311 | the lock-step loop from a cleared member records exactly the positional diff and copies each file's own lines |
| FileManager.Comparator.GetDifferences | TextFileManager/FileManager.cpp:321 | returns the member |
| FileManager.ReadLine | TextFileManager/FileManager.cpp:291-292 | getline succeeds iff the file has a line at index k, and then returns it |
| FileManager.StreamAdvance | TextFileManager/FileManager.cpp:291-292 | a line read is the file's line at index k |
| FileManager.StreamStays | TextFileManager/FileManager.cpp:291-292 | with nothing unread the file has no line at index k |
| FileManager.DiffStep | TextFileManager/FileManager.cpp:291-306 | the compared lines are the effective lines, a Difference is added iff they differ, and the loop stops only past both files |
| FileManager.StreamDone | TextFileManager/FileManager.cpp:316-317 | when both files are exhausted each string holds its whole file |
| FileManager.EmptyFilesCompareClean | TextFileManager/FileManager.cpp:283-317 | two empty files give no differences and empty strings |
| FileManager.RemoveEmptyLines | TextFileManager/FileManager.cpp:192-197 | the clean-up writes exactly the non-empty lines, each followed by "\n" |
| FileManager.NonEmptyLinesCons | TextFileManager/FileManager.cpp:194 | a line is kept iff it is non-empty |
| FileManager.CleanedLines | TextFileManager/FileManager.cpp:192-197 | the cleaned file reads back as exactly the non-empty lines in order, none of them empty |
| FileManager.NonEmptyLinesNoNewlines | TextFileManager/FileManager.cpp:193-195 | filtering keeps lines free of '\n' |
| FileManager.NonEmptyLinesIdempotent | TextFileManager/FileManager.cpp:194 | filtering twice is filtering once |
| FileManager.CleaningIsIdempotent | TextFileManager/FileManager.cpp:192-197 | cleaning a cleaned file changes nothing |
| DllExport.LastDot | TextFileManager/dLLExport.cpp:15 | find_last_of: the index of a '.' with none after it, or none in the path |
| DllExport.LastDotAtLeast | TextFileManager/dLLExport.cpp:15 | the last '.' is at or after any '.' |
| DllExport.IsTxtFile | TextFileManager/dLLExport.cpp:13-16 | an accepted path ends in "txt", preceded by a '.' unless the path is exactly "txt" |
| DllExport.IsTxtFileSpec | TextFileManager/dLLExport.cpp:13-16 | a path counts as text iff it ends in ".txt" or is exactly "txt" (case-sensitive) |
| DllExport.DotTxtIsLastDot | TextFileManager/dLLExport.cpp:15 | in a path ending in ".txt" that '.' is the last one |
| DllExport.TxtAfterLastDot | TextFileManager/dLLExport.cpp:15 | "txt" after the last '.' means the path ends in ".txt" |
| DllExport.ResolvePath | TextFileManager/dLLExport.cpp:116-128 | a ".txt" path is used as given, another path only through its conversion, and a path with neither fails as ConversionFailed |
| DllExport.DllContentSpec | TextFileManager/dLLExport.cpp:80-95 | missing file: FileNotFound; zero-length file: EmptyFile; otherwise the file's text with a final "\n" supplied if missing |
| DllExport.CopyToBuffer | TextFileManager/dLLExport.cpp:99-100 | the buffer holds the text, then NUL, and every later cell is unchanged |
| DllExport.StreamLines | TextFileManager/dLLExport.cpp:88-95 | the streamed content is the file's lines, each followed by "\n" |
| DllExport.RetrieveContent | TextFileManager/dLLExport.cpp:76-101 | a read error fails with the buffer untouched; content of size >= bufferSize fails with BufferTooSmall and the buffer untouched; otherwise the buffer holds content, NUL, and the rest unchanged |
| DllExport.BuildDiffString | TextFileManager/dLLExport.cpp:163-170 | the difference text is the records of the differences in order |
| DllExport.RenderDifference | TextFileManager/dLLExport.cpp:166-167 | a record opens with "Line " and the printed line number, and closes with the second file's line and "\n" |
| DllExport.CountNewlinesAppend | TextFileManager/dLLExport.cpp:164-168 | line breaks of a concatenation add up |
| DllExport.CountNewlinesNone | TextFileManager/dLLExport.cpp:166-167 | text without '\n' has no line breaks |
| DllExport.RenderDifferenceOneNewline | TextFileManager/dLLExport.cpp:166-167 | a record of lines without '\n' has exactly one line break |
| DllExport.RenderedRecordCount | TextFileManager/dLLExport.cpp:164-168 | one line per difference, and the text is empty iff there are none |
| DllExport.ComparisonRecordCount | TextFileManager/dLLExport.cpp:160-168 | comparing two files renders one line per Difference, and nothing for identical files |
| DllExport.PrepareFiles | TextFileManager/dLLExport.cpp:116-134 | a ".txt" path is used as given and any other goes through the converter, first file first; the first failure is reported, otherwise both files' lines |
| DllExport.FillBuffers | TextFileManager/dLLExport.cpp:136-177 | a content too large for its buffer gives -1 with no buffer written; otherwise both contents are written, then the difference text gives 0 if it fits and -1 with the result buffer untouched if not |
| DllExport.CompareFiles | TextFileManager/dLLExport.cpp:104-184 | any conversion or read failure gives -1 with nothing written; otherwise as FillBuffers; the status is always 0 or -1 |
| CSharpApp.ReadAllLinesAgainstConsole | Program.cs:19-24 | the C# reader agrees with retrieveContent except that it reads an empty file as no lines |
| CSharpApp.ReadAllLines | Program.cs:19-24 | a missing file throws FileNotFound; otherwise lines free of '\n', none exactly when the file is empty |
| CSharpApp.CompareFiles | Program.cs:49-72 | a fresh list holding exactly the positional differences |
| CSharpApp.PickedLines | Program.cs:90-111 | one kept line per difference |
| CSharpApp.PickedLinesAt | Program.cs:106-108 | the k-th kept line is the side of difference k that choice k names; its line number plays no part |
| CSharpApp.MergeStep | Program.cs:99-109 | one prompt takes the next accepted choice and appends the side it names |
| CSharpApp.PromptExhausted | Program.cs:99-104 | the prompt finds no accepted token iff all have been used |
| CSharpApp.MergeFiles | Program.cs:78-114 | a missing first or second file throws; otherwise the result is MergeResult over max(\|a\|,\|b\|) positions |
| CSharpApp.MergeLoop | Program.cs:84-113 | the loop's outcome is MergeResult: when enough accepted choices remain, the chosen sides of the first min(n, \|differences\|) differences and the input after those choices; otherwise Stalled |
| CSharpApp.MergeOfOwnDiffs | Program.cs:90-113 | on its own differences the merge completes iff there are enough choices; it then has one line per difference, the chosen side of each, and none for an empty list |
| CSharpApp.MergerDropsAgreeingLines | Program.cs:90-111 | one agreeing position makes the output shorter than max(\|a\|,\|b\|) |
| CSharpApp.MergerScenario | Program.cs:78-114 | ["x","y"] against ["x","z"] with "2" gives ["z"], where the C++ merger gives ["x","z"] |
| CSharpApp.Save | Program.cs:127-130 | an unwritable path throws and changes nothing; otherwise the file becomes the lines, each followed by "\n" (the terminator is fixed, see "## Left out") |
| CSharpApp.SaveThenReadBack | Program.cs:19-24 | saved lines free of '\n' read back as the same lines, even none |

## Left out

- Console prompts, printed messages and the `main` functions are not modelled, nor is the `setw` table of `showDifferences`. Input is a token sequence passed in.
- The external tools are not modelled: the Pandoc converter run by `system()`, the file rename and remove calls, and the `std::filesystem` stem, extension and absolute-path handling. A conversion is a map from path to converted path, and a missing entry is `ConversionFailed`.
- The `File` constructors' name and format fields are not modelled; nothing in the core reads them.
- The WPF front end, the system tests and the unit tests are not modelled.
- `int lineNumber` in the C++ Difference and the C# loop indices are unbounded here, so the model does not capture 32-bit overflow past 2^31 - 1 lines.
- CSharpApp.ReadAllLines: `File.ReadAllLines` also splits at "\r\n" and "\r"; the model splits at '\n' only.
- CSharpApp.Save: `File.WriteAllLines` ends each line with `Environment.NewLine`, "\r\n" on Windows; the model fixes the terminator to "\n", so the bytes on disk are not modelled, only the lines read back.
- DllExport.RetrieveContent and DllExport.CompareFiles take buffer sizes as `nat` no larger than their arrays, and distinct arrays. Negative sizes, undersized `char*` buffers and aliased buffers are undefined behaviour in the source and are not modelled.
- MergedStore.ParseLineNumber does not skip leading white space as `std::stoull` does, because tokens read with `std::cin >>` never hold any.
- MergedStore.OutputFile.ModifyFileContent runs its read loop through ReplaceWhileReading. The loop is a separate method so its invariant is stated once.
- FileManager.Comparator.CompareFilesContent runs its read loop through LockStepWalk, which writes the `differences` member exactly as the source loop does.
- CSharpApp.MergeFiles runs its loop through MergeLoop. DllExport.CompareFiles runs its steps through PrepareFiles and FillBuffers. Each split keeps the source's order of steps.
- When the input runs out at a choice prompt, the merge reports `Stalled`. The source loops for ever there: `cin >>` fails, and `Console.ReadLine` returns null.
- The DLL's `File firstFile(path)` in `RetrieveContent` and the `isFile1Converted` flags have no effect and are not modelled.
- Exception messages are not modelled; each is an `Error` constructor.

## Findings

| source | as written | input that shows it | evidently intended | confidence | as-written member | corrected member |
|---|---|---|---|---|---|---|
| Program.cs:90-111 | `MergeFiles` adds a line only while differences remain, so positions where both files agree are dropped from the output | first file ["x","y"], second ["x","z"], differences [Difference(2,"y","z")], choice "2": output ["z"] | every position filled, as the C++ merger does: ["x","z"], max(\|a\|,\|b\|) lines | not executed | CSharpApp.MergerScenario | ConsoleApp.MergeOfOwnDiffs |
