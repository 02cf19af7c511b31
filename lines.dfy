/** How the C++ code turns file text into lines and back: `std::getline`
    splits at '\n' and drops the terminator (a final line without '\n' still
    counts, an empty tail after the last '\n' does not), and every writer emits
    `line << "\n"` for each line in order. */
module Lines {

  /** Index of the first '\n' in `t`, or |t| when there is none. */
  function LineEnd(t: string): (k: nat)
    ensures k <= |t|
    ensures '\n' !in t[..k]
    ensures k < |t| ==> t[k] == '\n'
  {
    if t == [] || t[0] == '\n' then 0
    else
      var k := 1 + LineEnd(t[1..]);
      assert t[..k] == [t[0]] + t[1..][..k - 1];
      k
  }

  /** The text that follows the first line and its terminator. */
  function AfterLine(t: string): (rest: string)
    ensures |rest| < |t| || t == []
  {
    var k := LineEnd(t);
    if k < |t| then t[k + 1..] else []
  }

  /** The lines successive `std::getline` calls return for the text `t`. */
  function SplitLines(t: string): (ls: seq<string>)
    ensures ls == [] <==> t == []
    decreases |t|
  {
    if t == [] then [] else [t[..LineEnd(t)]] + SplitLines(AfterLine(t))
  }

  /** The text written by `for (line : ls) out << line << "\n";`. */
  function JoinLines(ls: seq<string>): string
  {
    if ls == [] then "" else ls[0] + "\n" + JoinLines(ls[1..])
  }

  predicate NoNewlines(ls: seq<string>)
  {
    forall k :: 0 <= k < |ls| ==> '\n' !in ls[k]
  }

  /** Lines that `std::getline` returns never contain the delimiter. */
  lemma {:induction false} SplitLinesNoNewlines(t: string)
    ensures NoNewlines(SplitLines(t))
    decreases |t|
  {
    if t != [] {
      SplitLinesNoNewlines(AfterLine(t));
    }
  }

  lemma LineEndOfLine(line: string, rest: string)
    requires '\n' !in line
    ensures LineEnd(line + "\n" + rest) == |line|
  {
    var t := line + "\n" + rest;
    assert t[..|line|] == line;
    LineEndIs(t, |line|);
  }

  /** Serialising lines that hold no '\n' and reading them back with getline
      gives the same lines. */
  lemma {:induction false} SplitJoin(ls: seq<string>)
    requires NoNewlines(ls)
    ensures SplitLines(JoinLines(ls)) == ls
  {
    if ls != [] {
      var t := JoinLines(ls);
      LineEndOfLine(ls[0], JoinLines(ls[1..]));
      assert t[..|ls[0]|] == ls[0];
      assert AfterLine(t) == JoinLines(ls[1..]);
      SplitJoin(ls[1..]);
    }
  }

  /** A non-empty text is its first line, then the terminator if there is
      one, then the text that follows. */
  lemma SplitFirstLine(t: string)
    requires t != []
    ensures SplitLines(t) == [t[..LineEnd(t)]] + SplitLines(AfterLine(t))
    ensures LineEnd(t) < |t| ==> t == t[..LineEnd(t)] + "\n" + AfterLine(t)
    ensures LineEnd(t) == |t| ==> t[..LineEnd(t)] == t && AfterLine(t) == [] && t[|t| - 1] != '\n'
  {
    var k := LineEnd(t);
    if k < |t| {
      assert AfterLine(t) == t[k + 1..];
      assert [t[k]] == "\n";
      SplitAround(t, k);
    } else {
      assert t[..k] == t;
      assert t[|t| - 1] in t[..k];
    }
  }

  lemma SplitAround<T>(s: seq<T>, k: nat)
    requires k < |s|
    ensures s == s[..k] + [s[k]] + s[k + 1..]
  {
  }

  lemma JoinCons(line: string, ls: seq<string>)
    ensures JoinLines([line] + ls) == line + "\n" + JoinLines(ls)
  {
    assert ([line] + ls)[1..] == ls;
  }

  /** Reading a text with getline and writing the lines back reproduces the
      text, except that a missing final '\n' is supplied. */
  lemma {:induction false} JoinSplit(t: string)
    ensures JoinLines(SplitLines(t)) == if t == [] || t[|t| - 1] == '\n' then t else t + "\n"
    decreases |t|
  {
    if t != [] {
      var k, rest := LineEnd(t), AfterLine(t);
      SplitFirstLine(t);
      JoinCons(t[..k], SplitLines(rest));
      JoinSplit(rest);
      JoinSplitStep(t, t[..k], rest, JoinLines(SplitLines(rest)));
    }
  }

  /** The text-level step of JoinSplit: a terminated first line followed by
      the rewritten rest is the rewritten whole. */
  lemma JoinSplitStep(t: string, line: string, rest: string, joinedRest: string)
    requires t != []
    requires t == line + "\n" + rest || (t == line && rest == [] && t[|t| - 1] != '\n')
    requires joinedRest == if rest == [] || rest[|rest| - 1] == '\n' then rest else rest + "\n"
    ensures line + "\n" + joinedRest == if t[|t| - 1] == '\n' then t else t + "\n"
  {
    if t == line + "\n" + rest {
      if rest == [] {
        assert line + "\n" + [] == line + "\n";
      } else {
        assert rest[|rest| - 1] == t[|t| - 1];
        if t[|t| - 1] != '\n' {
          assert line + "\n" + (rest + "\n") == (line + "\n" + rest) + "\n";
        }
      }
    } else {
      assert t + "\n" + [] == t + "\n";
    }
  }

  lemma {:induction false} JoinAppend(x: seq<string>, y: seq<string>)
    ensures JoinLines(x + y) == JoinLines(x) + JoinLines(y)
  {
    if x != [] {
      assert (x + y)[1..] == x[1..] + y;
      JoinAppend(x[1..], y);
      calc {
        JoinLines(x + y);
        x[0] + "\n" + JoinLines(x[1..] + y);
        x[0] + "\n" + (JoinLines(x[1..]) + JoinLines(y));
        (x[0] + "\n" + JoinLines(x[1..])) + JoinLines(y);
      }
    } else {
      assert x + y == y;
    }
  }

  /** Writing one more line appends it and its terminator. */
  lemma JoinSnoc(ls: seq<string>, line: string)
    ensures JoinLines(ls + [line]) == JoinLines(ls) + line + "\n"
  {
    JoinAppend(ls, [line]);
    assert JoinLines([line]) == line + "\n" + JoinLines([]);
  }

  /** One `std::getline(file, line)` call that succeeds: reads from `pos` up to
      the next '\n' (or the end of the text) and moves past the delimiter. */
  method GetLine(text: string, pos: nat) returns (line: string, next: nat)
    requires pos < |text|
    ensures pos < next <= |text|
    ensures SplitLines(text[pos..]) == [line] + SplitLines(text[next..])
  {
    var k := pos;
    while k < |text| && text[k] != '\n'
      invariant pos <= k <= |text|
      invariant '\n' !in text[pos..k]
    {
      k := k + 1;
    }
    line := text[pos..k];
    next := if k < |text| then k + 1 else k;
    FirstLineAt(text, pos, k);
  }

  /** The first line of text[pos..] ends at the first '\n' from pos on. */
  lemma FirstLineAt(text: string, pos: nat, k: nat)
    requires pos <= k <= |text| && pos < |text|
    requires '\n' !in text[pos..k] && (k < |text| ==> text[k] == '\n')
    ensures SplitLines(text[pos..]) == [text[pos..k]] + SplitLines(if k < |text| then text[k + 1..] else [])
  {
    var t := text[pos..];
    assert t[..k - pos] == text[pos..k];
    LineEndIs(t, k - pos);
    assert AfterLine(t) == if k < |text| then text[k + 1..] else [];
  }

  lemma LineEndIs(t: string, j: nat)
    requires j <= |t| && '\n' !in t[..j] && (j < |t| ==> t[j] == '\n')
    ensures LineEnd(t) == j
  {
  }

  /** `for (const auto& line : ls) out << line << "\n";` into a string stream. */
  method WriteLines(ls: seq<string>) returns (out: string)
    ensures out == JoinLines(ls)
  {
    out := "";
    var i := 0;
    while i < |ls|
      invariant 0 <= i <= |ls|
      invariant out == JoinLines(ls[..i])
    {
      JoinSnoc(ls[..i], ls[i]);
      assert ls[..i + 1] == ls[..i] + [ls[i]];
      out := out + ls[i] + "\n";
      i := i + 1;
    }
    assert ls[..i] == ls;
  }

  /** The lines that are not empty, in their original order. */
  function NonEmptyLines(ls: seq<string>): (r: seq<string>)
    ensures |r| <= |ls|
    ensures forall k :: 0 <= k < |r| ==> r[k] != "" && r[k] in ls
    ensures forall k :: 0 <= k < |ls| && ls[k] != "" ==> ls[k] in r
  {
    if ls == [] then []
    else (if ls[0] != "" then [ls[0]] else []) + NonEmptyLines(ls[1..])
  }
}
