/** The console as an injected stream of tokens (`std::cin >> s` in C++,
    `Console.ReadLine()` in C#). A merge choice is accepted only as the token
    "1" or "2"; any other token is rejected and the next one is read. */
module UserInput {
  import opened Base
  import opened Diffs

  predicate IsChoice(t: string)
  {
    t == "1" || t == "2"
  }

  /** The tokens a choice prompt would accept, in input order. */
  function Choices(input: seq<string>): (cs: seq<string>)
    ensures |cs| <= |input|
    ensures forall k :: 0 <= k < |cs| ==> IsChoice(cs[k])
  {
    if input == [] then []
    else (if IsChoice(input[0]) then [input[0]] else []) + Choices(input[1..])
  }

  /** What is left of the input once k choices have been accepted: everything
      after the k-th accepted token. */
  function AfterChoices(input: seq<string>, k: nat): (rest: seq<string>)
    requires k <= |Choices(input)|
    ensures |rest| <= |input|
    ensures Choices(rest) == Choices(input)[k..]
    decreases |input|
  {
    if k == 0 then input
    else if IsChoice(input[0]) then AfterChoices(input[1..], k - 1)
    else AfterChoices(input[1..], k)
  }

  lemma {:induction false} AfterChoicesStep(input: seq<string>, k: nat)
    requires k < |Choices(input)|
    ensures AfterChoices(AfterChoices(input, k), 1) == AfterChoices(input, k + 1)
    decreases |input|
  {
    if k > 0 {
      if IsChoice(input[0]) {
        AfterChoicesStep(input[1..], k - 1);
      } else {
        AfterChoicesStep(input[1..], k);
      }
    }
  }

  /** The choice prompt with its re-prompt loop as a function: the first
      accepted token and the input after it, or None when the input runs out
      (where the source keeps re-prompting for ever). */
  function NextChoice(input: seq<string>): (Option<string>, seq<string>)
    decreases |input|
  {
    if input == [] then (None, [])
    else if IsChoice(input[0]) then (Some(input[0]), input[1..])
    else NextChoice(input[1..])
  }

  /** The prompt yields a token exactly when an accepted token remains; it is
      the first of them, and what is left is the input after one choice. */
  lemma {:induction false} NextChoiceSpec(input: seq<string>)
    ensures var (choice, rest) := NextChoice(input);
      && (choice.Some? <==> Choices(input) != [])
      && (choice.Some? ==> choice.value == Choices(input)[0] && rest == AfterChoices(input, 1))
    decreases |input|
  {
    if input != [] && !IsChoice(input[0]) {
      NextChoiceSpec(input[1..]);
    }
  }

  /** `std::cin >> choice; while (choice != "1" && choice != "2") std::cin >> choice;` */
  method ReadChoice(input: seq<string>) returns (choice: Option<string>, rest: seq<string>)
    ensures (choice, rest) == NextChoice(input)
  {
    rest := input;
    while rest != [] && !IsChoice(rest[0])
      invariant NextChoice(rest) == NextChoice(input)
      decreases |rest|
    {
      rest := rest[1..];
    }
    if rest == [] {
      choice := None;
    } else {
      choice := Some(rest[0]);
      rest := rest[1..];
    }
  }

  /** One `std::cin >> s` into a fresh string: the next token, or "" when the
      input is exhausted (the failed extraction leaves the string empty). */
  function NextToken(input: seq<string>): (r: (string, seq<string>))
    ensures input == [] ==> r == ("", [])
    ensures input != [] ==> [r.0] + r.1 == input
  {
    if input == [] then ("", []) else (input[0], input[1..])
  }

  /** The line kept for a difference: the first file's side for "1", the
      second file's for any other accepted token. */
  function Pick(choice: string, d: Difference): (line: string)
    ensures choice == "1" ==> line == d.firstFileContent
    ensures choice == "2" ==> line == d.secondFileContent
  {
    if choice == "1" then d.firstFileContent else d.secondFileContent
  }

  /** The outcome of a merge: the merged lines and the unread input, or
      Stalled when the input ran out at a choice prompt. */
  datatype MergeOutcome = Merged(lines: seq<string>, rest: seq<string>) | Stalled
}
