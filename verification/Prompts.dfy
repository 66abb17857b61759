/** `Prompts.YesNoPrompt`: ask until a line answers yes or no. */
module Prompts {
  import opened Wrappers
  import opened DotNet

  /** What one console line decides: `y` or `n` in either case; anything else, including a
      null line, decides nothing and the question is asked again. */
  function Answer(line: Option<string>): (decision: Option<bool>)
  {
    match line
    case None => None
    case Some(input) =>
      var lower := ToLowerInvariant(input);
      if lower == "y" then Some(true)
      else if lower == "n" then Some(false)
      else None
  }

  /**
   `YesNoPrompt` over the lines the console yields: the answer is that of the first decisive
   line, and no line after it is read (`used` lines are). `None` means the lines ran out
   first (the source would keep asking).
   */
  method YesNoPrompt(lines: seq<Option<string>>) returns (answer: Option<bool>, used: nat)
    ensures used <= |lines|
    ensures forall j :: 0 <= j < used - 1 ==> Answer(lines[j]).None?
    ensures answer.Some? ==> 0 < used && Answer(lines[used - 1]) == answer
    ensures answer.None? ==> used == |lines| && forall j :: 0 <= j < |lines| ==> Answer(lines[j]).None?
  {
    used := 0;
    while used < |lines|
      invariant used <= |lines|
      invariant forall j :: 0 <= j < used ==> Answer(lines[j]).None?
    {
      var input := lines[used];
      used := used + 1;
      if input.None? {
        continue;
      }
      var lower := ToLowerInvariant(input.value);
      if lower == "y" {
        return Some(true), used;
      }
      if lower == "n" {
        return Some(false), used;
      }
    }
    answer := None;
  }

  /** A line means yes exactly when it is `y` or `Y`. */
  lemma YesLines(input: string)
    ensures Answer(Some(input)) == Some(true) <==> input == "y" || input == "Y"
  {
    LowerIsLetter(input, 'y');
    LowerIsLetter(input, 'n');
  }

  /** A line means no exactly when it is `n` or `N`. */
  lemma NoLines(input: string)
    ensures Answer(Some(input)) == Some(false) <==> input == "n" || input == "N"
  {
    LowerIsLetter(input, 'y');
    LowerIsLetter(input, 'n');
  }

  /** Near misses and null lines decide nothing. */
  lemma IndecisiveLines()
    ensures Answer(Some("yes")) == None
    ensures Answer(Some(" y")) == None
    ensures Answer(Some("")) == None
    ensures Answer(None) == None
  {
    YesLines("yes");
    NoLines("yes");
    YesLines(" y");
    NoLines(" y");
  }
}
