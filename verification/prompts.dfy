/**
  The decisions the order generator takes on what the user types.

  The console itself is left out: a prompt is modelled by the line the user
  entered and, for a number prompt, by the result of Python's `int` on that
  line (`None` where `int` raises `ValueError`). What remains is the choice
  the prompt makes on each line (take the default, accept the number, or ask
  again), the loop that asks until a line is accepted, the recipient sentence
  of the order text and the answer that saves the order.
 */
module Prompts {
  import opened Optional

  /** Why a number prompt asks again. */
  datatype Reason = NotANumber | BelowMinimum

  /** What a number prompt does with one line: accept a value or ask again. */
  datatype Outcome = Accept(value: int) | Retry(reason: Reason)

  /** One line typed at a number prompt, with what `int` made of it. */
  datatype Attempt = Attempt(line: string, parsed: Option<int>)

  /** An attempt `int` could have produced: `int("")` raises `ValueError`,
      so an empty line never parses. */
  predicate WellFormed(a: Attempt)
  {
    a.line == "" ==> a.parsed.None?
  }

  /** The settings of one number prompt: its default and its minimum. */
  datatype NumberPrompt = NumberPrompt(default: Option<int>, minValue: Option<int>)

  /** An empty line at a prompt with a default. */
  predicate TakesDefault(p: NumberPrompt, a: Attempt)
  {
    a.line == "" && p.default.Some?
  }

  /** A number the prompt's minimum admits. */
  predicate Admitted(p: NumberPrompt, v: int)
  {
    p.minValue.None? || p.minValue.value <= v
  }

  /** One pass of the number prompt's loop body. An empty line at a prompt
      with a default returns the default, unchecked against the minimum;
      otherwise a line `int` rejects is asked again, and so is a number below
      the minimum. */
  function ReadNumber(p: NumberPrompt, a: Attempt): (o: Outcome)
    ensures o.Accept? && TakesDefault(p, a) ==> o.value == p.default.value
    ensures o.Accept? && !TakesDefault(p, a) ==> a.parsed == Some(o.value) && Admitted(p, o.value)
    ensures o.Retry? <==> !TakesDefault(p, a) && (a.parsed.None? || !Admitted(p, a.parsed.value))
    ensures o == Retry(NotANumber) <==> !TakesDefault(p, a) && a.parsed.None?
  {
    if TakesDefault(p, a) then Accept(p.default.value)
    else match a.parsed
      case None => Retry(NotANumber)
      case Some(v) => if p.minValue.Some? && v < p.minValue.value then Retry(BelowMinimum) else Accept(v)
  }

  /** The prompt's loop over the lines the user types: the value of the
      first accepted line, with its position, or `None` when every line is
      asked again. */
  function FirstAccepted(p: NumberPrompt, attempts: seq<Attempt>): (r: Option<(nat, int)>)
    ensures r.Some? ==> r.value.0 < |attempts| && ReadNumber(p, attempts[r.value.0]) == Accept(r.value.1)
    ensures r.Some? ==> forall j :: 0 <= j < r.value.0 ==> ReadNumber(p, attempts[j]).Retry?
    ensures r.None? <==> forall j :: 0 <= j < |attempts| ==> ReadNumber(p, attempts[j]).Retry?
    decreases |attempts|
  {
    if |attempts| == 0 then None
    else match ReadNumber(p, attempts[0])
      case Accept(v) => Some((0, v))
      case Retry(_) =>
        var rest := FirstAccepted(p, attempts[1..]);
        if rest.None? then None else Some((rest.value.0 + 1, rest.value.1))
  }

  /** Whatever line the loop accepts, the value respects the minimum unless
      it is the default taken on an empty line. */
  lemma AcceptedRespectsMinimum(p: NumberPrompt, attempts: seq<Attempt>)
    requires FirstAccepted(p, attempts).Some?
    ensures var (i, v) := FirstAccepted(p, attempts).value;
      Admitted(p, v) || (TakesDefault(p, attempts[i]) && v == p.default.value)
  {
  }

  /** The participants prompt (minimum one, no default) never yields fewer
      than one participant; the staff and weeks prompts (minimum zero, no
      default) never yield a negative count. */
  lemma CountPromptsRespectMinimum(attempts: seq<Attempt>, minimum: int)
    requires FirstAccepted(NumberPrompt(None, Some(minimum)), attempts).Some?
    ensures FirstAccepted(NumberPrompt(None, Some(minimum)), attempts).value.1 >= minimum
  {
    AcceptedRespectsMinimum(NumberPrompt(None, Some(minimum)), attempts);
  }

  /** The adjustment prompt offers the clamped total as its default and has
      a minimum of one, so the total that reaches the distribution is at least
      one: either the default kept on an empty line or a typed number of at
      least one. */
  lemma AdjustedTotalPositive(calculated: int, attempts: seq<Attempt>)
    requires 1 <= calculated
    requires FirstAccepted(NumberPrompt(Some(calculated), Some(1)), attempts).Some?
    ensures FirstAccepted(NumberPrompt(Some(calculated), Some(1)), attempts).value.1 >= 1
  {
    AcceptedRespectsMinimum(NumberPrompt(Some(calculated), Some(1)), attempts);
  }

  /** An empty line at the adjustment prompt keeps the calculated total. */
  lemma EmptyLineKeepsTotal(calculated: int, attempts: seq<Attempt>)
    requires 0 < |attempts| && attempts[0].line == ""
    ensures FirstAccepted(NumberPrompt(Some(calculated), Some(1)), attempts) == Some((0, calculated))
  {
  }

  /** At a prompt without a default, an empty line is not a number and is
      asked again. */
  lemma EmptyLineWithoutDefault(p: NumberPrompt, a: Attempt)
    requires WellFormed(a) && p.default.None? && a.line == ""
    ensures ReadNumber(p, a) == Retry(NotANumber)
  {
  }

  /** A text prompt: the default for an empty line when there is one,
      otherwise the line itself, which is never asked again. */
  function ReadText(line: string, default: Option<string>): (text: string)
    ensures line != "" ==> text == line
    ensures line == "" ==> text == if default.Some? then default.value else ""
  {
    if line == "" && default.Some? then default.value else line
  }

  const ReceiveSuffix: string := " will receive the order."

  /** The recipient sentence of the order text: the name given, or "I" when
      the name is empty. */
  function RecipientMessage(person: string): (message: string)
    ensures |message| > |ReceiveSuffix|
    ensures message[|message| - |ReceiveSuffix|..] == ReceiveSuffix
  {
    (if person == "" then "I" else person) + ReceiveSuffix
  }

  /** Who the recipient sentence names: the text before the suffix. */
  function NamedRecipient(message: string): string
    requires |message| >= |ReceiveSuffix|
  {
    message[..|message| - |ReceiveSuffix|]
  }

  /** Reading the recipient back gives the name, with "I" for an empty one. */
  lemma RecipientReadsBack(person: string)
    ensures NamedRecipient(RecipientMessage(person)) == if person == "" then "I" else person
  {
    var shown := if person == "" then "I" else person;
    assert RecipientMessage(person)[..|RecipientMessage(person)| - |ReceiveSuffix|] == shown;
  }

  /** Two recipients give the same sentence exactly when they are the same
      name, or one is empty and the other is "I". */
  lemma RecipientMessageInjective(p: string, q: string)
    ensures RecipientMessage(p) == RecipientMessage(q) <==>
      (p == q || (p == "" && q == "I") || (p == "I" && q == ""))
  {
    RecipientReadsBack(p);
    RecipientReadsBack(q);
  }

  /** The recipient prompt has the empty name as its default, so an empty
      line gives the sentence with "I" as its subject, and any other line
      gives the sentence naming it. */
  lemma RecipientFromPrompt(line: string)
    ensures line == "" ==> RecipientMessage(ReadText(line, Some(""))) == "I" + ReceiveSuffix
    ensures line != "" ==> NamedRecipient(RecipientMessage(ReadText(line, Some("")))) == line
  {
    if line != "" {
      RecipientReadsBack(line);
    }
  }

  /** ASCII lower case of one character. */
  function LowerChar(c: char): (l: char)
    ensures 'A' <= c <= 'Z' ==> l as int == c as int + 32
    ensures !('A' <= c <= 'Z') ==> l == c
  {
    if 'A' <= c <= 'Z' then (c as int + 32) as char else c
  }

  /** ASCII lower case of a string, character by character. */
  function Lower(s: string): (l: string)
    ensures |l| == |s|
    ensures forall i :: 0 <= i < |s| ==> l[i] == LowerChar(s[i])
  {
    if |s| == 0 then [] else [LowerChar(s[0])] + Lower(s[1..])
  }

  /** The save question's answer saves the order when its lower case is
      "y" or "yes". */
  predicate ConfirmsSave(answer: string)
  {
    Lower(answer) in ["y", "yes"]
  }

  /** The answers that save the order, letter by letter: one `y` or `Y`, or
      `y`, `e`, `s` each in either case. Anything else, including an empty
      answer and answers with spaces, leaves the order unsaved. */
  lemma ConfirmsSaveExactly(answer: string)
    ensures ConfirmsSave(answer) <==>
      (|answer| == 1 && answer[0] in "yY") ||
      (|answer| == 3 && answer[0] in "yY" && answer[1] in "eE" && answer[2] in "sS")
  {
    var l := Lower(answer);
    if |answer| == 1 {
      assert l == "y" <==> l[0] == 'y';
    } else if |answer| == 3 {
      assert l == "yes" <==> l[0] == 'y' && l[1] == 'e' && l[2] == 's';
    }
  }
}
