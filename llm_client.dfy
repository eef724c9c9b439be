/**
 * The deterministic part of `LLMClient.solve_math_problem`
 * (src/llm_client.py): the system and user prompts it sends, and how it
 * splits the model's reply into reasoning and answer. The call to the model
 * itself is outside the model; its reply is a parameter.
 */
module SolverClient {
  import opened Wrappers
  import opened Text

  const BasePrompt: string :=
    "You are a math problem solver. Solve problems step-by-step using clear reasoning.\n\n"
    + "Format your response as:\nREASONING: <show your step-by-step calculations>\n"
    + "ANSWER: <final numeric answer only>"

  const Reminder: string :=
    "\n**Remember**: The hints above provide STRATEGIES ONLY. "
    + "You must calculate the answer yourself using your own arithmetic."

  const ProblemHeader: string := "## Problem:\n"
  const SolutionHeader: string := "\n\n## Your Solution:"

  const ReasoningMarker: string := "REASONING:"
  const AnswerMarker: string := "ANSWER:"

  /**
   * The system prompt: the fixed instructions, followed by the retrieved
   * memories and a reminder only when there are memories. The memories can
   * be read back from the prompt.
   */
  function SystemPrompt(memories: string): (r: string)
    ensures |r| >= |BasePrompt| && r[..|BasePrompt|] == BasePrompt
    ensures r == BasePrompt <==> memories == ""
    ensures memories != "" ==>
      |r| == |BasePrompt| + 2 + |memories| + |Reminder|
      && r[|BasePrompt| + 2..|r| - |Reminder|] == memories
      && r[|r| - |Reminder|..] == Reminder
  {
    if memories != "" then
      var r := BasePrompt + "\n\n" + memories + Reminder;
      assert r[..|BasePrompt|] == BasePrompt;
      assert r[|BasePrompt| + 2..|r| - |Reminder|] == memories;
      r
    else BasePrompt
  }

  /** Different memory contexts give different system prompts. */
  lemma SystemPromptInjective(m1: string, m2: string)
    requires SystemPrompt(m1) == SystemPrompt(m2)
    ensures m1 == m2
  {
  }

  /** The user prompt: the problem under a header, then an open solution header. */
  function UserPrompt(question: string): (r: string)
    ensures |r| == |ProblemHeader| + |question| + |SolutionHeader|
    ensures r[..|ProblemHeader|] == ProblemHeader
    ensures r[|ProblemHeader|..|r| - |SolutionHeader|] == question
    ensures r[|r| - |SolutionHeader|..] == SolutionHeader
  {
    var r := ProblemHeader + question + SolutionHeader;
    assert r[|ProblemHeader|..|r| - |SolutionHeader|] == question;
    r
  }

  lemma UserPromptInjective(q1: string, q2: string)
    requires UserPrompt(q1) == UserPrompt(q2)
    ensures q1 == q2
  {
  }

  /** The dictionary `solve_math_problem` returns. */
  datatype SolverOutput = SolverOutput(reasoning: string, answer: string, fullResponse: string)

  predicate HasMarkers(response: string)
  {
    Contains(response, ReasoningMarker) && Contains(response, AnswerMarker)
  }

  /**
   * With both markers, the answer is the stripped text between the first
   * and the second `ANSWER:` (or the end), and the reasoning is the text
   * before the first `ANSWER:` with every `REASONING:` removed, stripped.
   * Otherwise the reasoning is the whole reply and the answer is its last
   * number, or empty when it has no digit. The reply itself is always kept.
   */
  function ParseSolverResponse(response: string): (r: SolverOutput)
    ensures r.fullResponse == response
    ensures HasMarkers(response) ==>
      Trimmed(r.reasoning) && Trimmed(r.answer) && !Contains(r.answer, AnswerMarker)
    ensures !HasMarkers(response) ==> r.reasoning == response
    ensures !HasMarkers(response) ==> (r.answer == "" <==> !HasDigit(response))
    ensures !HasMarkers(response) && LastDecimalToken(response).Some? ==> r.answer == LastDecimalToken(response).value
  {
    if HasMarkers(response) then
      var parts := Split(response, AnswerMarker);
      SplitContains(response, AnswerMarker);
      var reasoning := Strip(RemoveAll(parts[0], ReasoningMarker));
      var answer := Strip(parts[1]);
      StripIsTrimmed(RemoveAll(parts[0], ReasoningMarker));
      StripIsTrimmed(parts[1]);
      StripKeepsAbsent(parts[1], AnswerMarker);
      SolverOutput(reasoning, answer, response)
    else
      LastDecimalTokenNone(response);
      var answer := match LastDecimalToken(response) case Some(t) => t case None => "";
      SolverOutput(response, answer, response)
  }

  /** A reply in exactly the format the system prompt asks for. */
  function FormatResponse(reasoning: string, answer: string): string
  {
    ReasoningMarker + " " + reasoning + "\n" + AnswerMarker + " " + answer
  }

  lemma {:induction false} MarkersApart()
    ensures !Contains(ReasoningMarker, AnswerMarker)
    ensures Avoids(AnswerMarker, {' '}) && Avoids(AnswerMarker, {'\n'})
    ensures Avoids(ReasoningMarker, {' '}) && Avoids(ReasoningMarker, {'\n'})
  {
    forall j: nat | j <= |ReasoningMarker| ensures !OccursAt(ReasoningMarker, AnswerMarker, j) {
      OccursAround(ReasoningMarker, AnswerMarker, j, 4);
    }
  }

  /** The reasoning part of a formatted reply comes back from `REASONING:` removal and `strip`. */
  lemma {:induction false} ReasoningPart(reasoning: string)
    requires Trimmed(reasoning) && !Contains(reasoning, ReasoningMarker) && !Contains(reasoning, AnswerMarker)
    ensures var x := ReasoningMarker + " " + reasoning + "\n";
      !Contains(x, AnswerMarker) && Strip(RemoveAll(x, ReasoningMarker)) == reasoning
  {
    var z := " " + reasoning + "\n";
    var x := ReasoningMarker + " " + reasoning + "\n";
    MarkersApart();
    PaddedAvoids(reasoning, ReasoningMarker);
    PaddedAvoids(reasoning, AnswerMarker);
    assert x == "" + ReasoningMarker + z;
    SplitFirst("", ReasoningMarker, z);
    SplitWithout(z, ReasoningMarker);
    assert Join(["", z], "") == z;
    StripPadded(reasoning);
    assert x == ReasoningMarker + [' '] + (reasoning + "\n");
    ContainsAcross(ReasoningMarker, ' ', reasoning + "\n", AnswerMarker);
    ContainsAcross(reasoning, '\n', "", AnswerMarker);
    assert reasoning + "\n" == reasoning + ['\n'] + "";
  }

  /**
   * Parsing a reply in the requested format gives back its reasoning and
   * answer, provided neither holds a marker and both are already stripped.
   */
  lemma {:induction false} ParseFormattedResponse(reasoning: string, answer: string)
    requires Trimmed(reasoning) && !Contains(reasoning, ReasoningMarker) && !Contains(reasoning, AnswerMarker)
    requires Trimmed(answer) && !Contains(answer, AnswerMarker)
    ensures ParseSolverResponse(FormatResponse(reasoning, answer))
      == SolverOutput(reasoning, answer, FormatResponse(reasoning, answer))
  {
    var x := ReasoningMarker + " " + reasoning + "\n";
    var y := " " + answer;
    var response := FormatResponse(reasoning, answer);
    assert response == x + AnswerMarker + y;
    ReasoningPart(reasoning);
    MarkersApart();
    assert OccursAt(response, ReasoningMarker, 0);
    assert OccursAt(response, AnswerMarker, |x|) by {
      assert response[|x|..|x| + |AnswerMarker|] == AnswerMarker;
    }
    NoOccurrenceBefore(x, AnswerMarker, y);
    SplitFirst(x, AnswerMarker, y);
    PaddedAvoids(answer, AnswerMarker);
    SplitWithout(y, AnswerMarker);
    StripPadded(answer);
  }

  /**
   * `split` has no limit: a second `ANSWER:` ends the answer, and whatever
   * follows it is dropped.
   */
  lemma {:induction false} ParseKeepsFirstAnswer(reasoning: string, answer: string, rest: string)
    requires Trimmed(reasoning) && !Contains(reasoning, ReasoningMarker) && !Contains(reasoning, AnswerMarker)
    requires Trimmed(answer) && !Contains(answer, AnswerMarker)
    ensures var response := FormatResponse(reasoning, answer) + "\n" + AnswerMarker + rest;
      ParseSolverResponse(response) == SolverOutput(reasoning, answer, response)
  {
    var x := ReasoningMarker + " " + reasoning + "\n";
    var y := " " + answer + "\n";
    var response := FormatResponse(reasoning, answer) + "\n" + AnswerMarker + rest;
    assert response == x + AnswerMarker + (y + AnswerMarker + rest);
    ReasoningPart(reasoning);
    MarkersApart();
    assert OccursAt(response, ReasoningMarker, 0);
    assert OccursAt(response, AnswerMarker, |x|) by {
      assert response[|x|..|x| + |AnswerMarker|] == AnswerMarker;
    }
    NoOccurrenceBefore(x, AnswerMarker, y + AnswerMarker + rest);
    SplitFirst(x, AnswerMarker, y + AnswerMarker + rest);
    PaddedAvoids(answer, AnswerMarker);
    NoOccurrenceBefore(y, AnswerMarker, rest);
    SplitFirst(y, AnswerMarker, rest);
    StripPadded(answer);
  }

  /**
   * Without the markers, the answer is the numeral that ends the reply,
   * sign and decimal point included, when the text before it cannot join it.
   */
  lemma {:induction false} ParseFallbackLastNumber(pre: string, sign: string, whole: string, frac: string)
    requires IsDecimalNumeral(sign, whole, frac)
    requires pre == "" || EndsMatches(pre[|pre| - 1])
    requires !HasMarkers(pre + (sign + whole + frac))
    ensures ParseSolverResponse(pre + (sign + whole + frac))
      == SolverOutput(pre + (sign + whole + frac), sign + whole + frac, pre + (sign + whole + frac))
  {
    LastDecimalTokenOfEnd(pre, sign, whole, frac);
  }

  lemma {:induction false} NoAnswerMarker(response: string)
    requires Avoids(response, {'A'})
    ensures !HasMarkers(response)
  {
    AvoidsFirstNotContains(response, AnswerMarker);
  }

  /** A reply that ends in a whole number answers with it. */
  lemma {:induction false} TotalExample()
    ensures ParseSolverResponse("so the total is 7").answer == "7"
  {
    var pre := "so the total is ";
    assert pre + ("" + "7" + "") == "so the total is 7";
    assert Avoids("so the total is 7", {'A'});
    NoAnswerMarker("so the total is 7");
    assert AllDigits("7");
    ParseFallbackLastNumber(pre, "", "7", "");
  }

  /** The sign and the fractional part belong to the answer. */
  lemma {:induction false} NegativeExample()
    ensures ParseSolverResponse("it is -2.5").answer == "-2.5"
  {
    var pre := "it is ";
    assert pre + ("-" + "2" + ".5") == "it is -2.5";
    assert Avoids("it is -2.5", {'A'});
    NoAnswerMarker("it is -2.5");
    assert AllDigits("2") && AllDigits(".5"[1..]);
    ParseFallbackLastNumber(pre, "-", "2", ".5");
  }

  /** A trailing point is kept, since the digits after it are optional. */
  lemma {:induction false} TrailingPointExample()
    ensures ParseSolverResponse("5.").answer == "5."
  {
    assert "" + ("" + "5" + ".") == "5.";
    assert Avoids("5.", {'A'});
    NoAnswerMarker("5.");
    assert AllDigits("5") && AllDigits("."[1..]);
    ParseFallbackLastNumber("", "", "5", ".");
  }
}
