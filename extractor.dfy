/**
 * Memory extraction (src/extraction/extractor.py): the prompt that asks the
 * model for strategies or lessons, and the parser that turns the model's
 * reply into memory items. The reply itself and the creation time are inputs.
 */
module Extractor {
  import opened Wrappers
  import opened Text
  import opened Memory

  // ---------------------------------------------------------------------------
  // The reply format

  /**
   * The strings the reply format is built from: three field labels and the
   * separator that opens each item. The parser is stated for any format
   * whose strings are non-empty; `Standard` is the one the code uses.
   */
  datatype Format = Format(title: string, description: string, content: string, separator: string)

  const Standard: Format := Format("TITLE:", "DESCRIPTION:", "CONTENT:", "MEMORY ")

  predicate Usable(format: Format)
  {
    |format.title| > 0 && |format.description| > 0 && |format.content| > 0 && |format.separator| > 0
  }

  /** Any of these ends a field's value: the three labels and the separator. */
  function Markers(format: Format): (ms: seq<string>)
    ensures |ms| == 4
  {
    [format.title, format.description, format.content, format.separator]
  }

  lemma StandardUsable()
    ensures Usable(Standard)
    ensures Markers(Standard) == ["TITLE:", "DESCRIPTION:", "CONTENT:", "MEMORY "]
  {
  }

  // ---------------------------------------------------------------------------
  // `_extract_field`

  /** The position of the earliest occurrence of any of `markers` in `rest`, or `|rest|` when none occurs. */
  function EarliestMarker(rest: string, markers: seq<string>): (e: nat)
    ensures e <= |rest|
  {
    if |markers| == 0 then |rest|
    else
      var e0 := EarliestMarker(rest, markers[..|markers| - 1]);
      match Find(rest, markers[|markers| - 1])
      case Some(f) => if f < e0 then f else e0
      case None => e0
  }

  /** No marker occurs before the position `EarliestMarker` returns, and one occurs there unless it is the end. */
  lemma {:induction false} EarliestMarkerIsEarliest(rest: string, markers: seq<string>)
    ensures forall k, i :: 0 <= k < |markers| && 0 <= i < EarliestMarker(rest, markers) ==> !OccursAt(rest, markers[k], i)
    ensures EarliestMarker(rest, markers) < |rest| ==>
      exists k :: 0 <= k < |markers| && OccursAt(rest, markers[k], EarliestMarker(rest, markers))
  {
    if |markers| > 0 {
      var init := markers[..|markers| - 1];
      EarliestMarkerIsEarliest(rest, init);
      assert forall k :: 0 <= k < |init| ==> init[k] == markers[k];
    }
  }

  /**
   * The value of a field: after the first occurrence of `fieldName`, up to the
   * earliest following marker or the end, stripped; `""` when the field is absent.
   */
  function FieldValue(text: string, fieldName: string, markers: seq<string>): string
  {
    match Find(text, fieldName)
    case None => ""
    case Some(i) =>
      var start := i + |fieldName|;
      Strip(text[start..start + EarliestMarker(text[start..], markers)])
  }

  /**
   * `_extract_field`: the loop over the markers shrinks `end` to the
   * earliest one found. The marker list, fixed inside the code, is a
   * parameter here; the parser passes `Markers(format)`.
   */
  method ExtractField(text: string, fieldName: string, markers: seq<string>) returns (value: string)
    ensures value == FieldValue(text, fieldName, markers)
    ensures !Contains(text, fieldName) ==> value == ""
  {
    var found := Find(text, fieldName);
    if found.None? {
      return "";
    }
    var start := found.value + |fieldName|;
    var rest := text[start..];
    var end := |text|;
    var k := 0;
    while k < |markers|
      invariant 0 <= k <= |markers|
      invariant end == start + EarliestMarker(rest, markers[..k])
    {
      var at := Find(rest, markers[k]);
      if at.Some? {
        var candidateEnd := start + at.value;
        if candidateEnd < end {
          end := candidateEnd;
        }
      }
      assert markers[..k + 1][..k] == markers[..k];
      k := k + 1;
    }
    assert markers[..k] == markers;
    value := Strip(text[start..end]);
  }

  /** A slice that ends before the first occurrence of `pat` does not contain `pat`. */
  lemma SliceBeforeFirst(rest: string, pat: string, e: nat, a: nat, b: nat)
    requires a <= b <= e <= |rest| && |pat| > 0
    requires forall i :: 0 <= i < e ==> !OccursAt(rest, pat, i)
    ensures !Contains(rest[a..b], pat)
  {
    forall j: nat | j <= b - a ensures !OccursAt(rest[a..b], pat, j) {
      if OccursAt(rest[a..b], pat, j) {
        OccursInSlice(rest, pat, a, b, j);
      }
    }
  }

  /** The stripped text before the earliest marker contains none of the markers. */
  lemma StrippedPrefixAvoids(rest: string, markers: seq<string>)
    requires forall k :: 0 <= k < |markers| ==> |markers[k]| > 0
    ensures forall k :: 0 <= k < |markers| ==> !Contains(Strip(rest[..EarliestMarker(rest, markers)]), markers[k])
  {
    var e := EarliestMarker(rest, markers);
    EarliestMarkerIsEarliest(rest, markers);
    var segment := rest[..e];
    var a, b := StripSlice(segment);
    forall k | 0 <= k < |markers| ensures !Contains(Strip(segment), markers[k]) {
      assert segment[a..b] == rest[a..b];
      SliceBeforeFirst(rest, markers[k], e, a, b);
    }
  }

  lemma FieldValueAt(text: string, fieldName: string, markers: seq<string>, i: nat)
    requires Find(text, fieldName) == Some(i)
    ensures var start := i + |fieldName|;
      FieldValue(text, fieldName, markers) == Strip(text[start..start + EarliestMarker(text[start..], markers)])
  {
  }

  lemma FieldValueOfRest(text: string, fieldName: string, markers: seq<string>, i: nat)
    requires Find(text, fieldName) == Some(i)
    ensures var rest := text[i + |fieldName|..];
      FieldValue(text, fieldName, markers) == Strip(rest[..EarliestMarker(rest, markers)])
  {
    var start := i + |fieldName|;
    var rest := text[start..];
    assert text[start..start + EarliestMarker(rest, markers)] == rest[..EarliestMarker(rest, markers)];
  }

  /** The value never contains one of the (non-empty) markers: it stops at the earliest one. */
  lemma FieldValueHasNoMarker(text: string, fieldName: string, markers: seq<string>)
    requires forall k :: 0 <= k < |markers| ==> |markers[k]| > 0
    ensures forall k :: 0 <= k < |markers| ==> !Contains(FieldValue(text, fieldName, markers), markers[k])
  {
    match Find(text, fieldName)
    case None =>
      forall k | 0 <= k < |markers| ensures !Contains("", markers[k]) {
        assert !OccursAt("", markers[k], 0);
      }
    case Some(i) =>
      FieldValueOfRest(text, fieldName, markers, i);
      StrippedPrefixAvoids(text[i + |fieldName|..], markers);
  }

  /**
   * When the field occurs, its value is the stripped text that starts right
   * after the field's first occurrence and ends where the first marker after
   * it begins, or at the end of the text.
   */
  lemma FieldValueSpan(text: string, fieldName: string, markers: seq<string>, i: nat) returns (start: nat, e: nat)
    requires OccursAt(text, fieldName, i) && forall j :: 0 <= j < i ==> !OccursAt(text, fieldName, j)
    ensures start == i + |fieldName| && start + e <= |text|
    ensures FieldValue(text, fieldName, markers) == Strip(text[start..start + e])
    ensures forall k, j :: 0 <= k < |markers| && 0 <= j < e ==> !OccursAt(text[start..], markers[k], j)
    ensures start + e == |text| || exists k :: 0 <= k < |markers| && OccursAt(text[start..], markers[k], e)
  {
    FindIsFirst(text, fieldName, i);
    FieldValueAt(text, fieldName, markers, i);
    start := i + |fieldName|;
    e := EarliestMarker(text[start..], markers);
    EarliestMarkerIsEarliest(text[start..], markers);
  }

  // ---------------------------------------------------------------------------
  // `_parse_memory_items`

  /** The item one segment yields: all three fields non-empty, or nothing. */
  function ItemOf(part: string, format: Format, problemId: string, success: bool, createdAt: string)
    : (r: Option<MemoryItem>)
    ensures r.Some? <==> FieldValue(part, format.title, Markers(format)) != ""
                         && FieldValue(part, format.description, Markers(format)) != ""
                         && FieldValue(part, format.content, Markers(format)) != ""
  {
    var title := FieldValue(part, format.title, Markers(format));
    var description := FieldValue(part, format.description, Markers(format));
    var content := FieldValue(part, format.content, Markers(format));
    if title != "" && description != "" && content != "" then
      Some(MemoryItem(title, description, content, problemId, success, createdAt, None))
    else None
  }

  /** The items of the segments, in segment order. */
  function ItemsFrom(parts: seq<string>, format: Format, problemId: string, success: bool, createdAt: string)
    : (ms: seq<MemoryItem>)
    ensures |ms| <= |parts|
  {
    if |parts| == 0 then []
    else
      var init := ItemsFrom(parts[..|parts| - 1], format, problemId, success, createdAt);
      match ItemOf(parts[|parts| - 1], format, problemId, success, createdAt)
      case Some(m) => init + [m]
      case None => init
  }

  /** An item is well formed: all three fields filled, and the provenance that was passed in. */
  predicate WellFormed(m: MemoryItem, problemId: string, success: bool, createdAt: string)
  {
    m.title != "" && m.description != "" && m.content != ""
    && m.sourceProblemId == problemId && m.success == success && m.createdAt == createdAt
    && m.embedding.None?
  }

  lemma {:induction false} ItemsFromWellFormed(parts: seq<string>, format: Format, problemId: string, success: bool,
                                               createdAt: string)
    ensures forall i :: 0 <= i < |ItemsFrom(parts, format, problemId, success, createdAt)| ==>
      WellFormed(ItemsFrom(parts, format, problemId, success, createdAt)[i], problemId, success, createdAt)
  {
    if |parts| > 0 {
      ItemsFromWellFormed(parts[..|parts| - 1], format, problemId, success, createdAt);
    }
  }

  /** Segments are parsed independently and their items kept in order: at most one item per segment. */
  lemma {:induction false} ItemsFromAppend(a: seq<string>, b: seq<string>, format: Format, problemId: string,
                                           success: bool, createdAt: string)
    ensures ItemsFrom(a + b, format, problemId, success, createdAt)
         == ItemsFrom(a, format, problemId, success, createdAt) + ItemsFrom(b, format, problemId, success, createdAt)
    decreases |b|
  {
    if |b| == 0 {
      assert a + b == a;
    } else {
      ItemsFromAppend(a, b[..|b| - 1], format, problemId, success, createdAt);
      assert (a + b)[..|a + b| - 1] == a + b[..|b| - 1];
    }
  }

  /**
   * `_parse_memory_items`: split on the separator (`"MEMORY "`), skip the
   * text before the first one, and keep the segments whose three fields
   * are all present.
   */
  method ParseMemoryItems(response: string, format: Format, problemId: string, success: bool, createdAt: string)
    returns (memories: seq<MemoryItem>)
    requires Usable(format)
    ensures memories == ItemsFrom(Split(response, format.separator)[1..], format, problemId, success, createdAt)
    ensures |memories| < |Split(response, format.separator)|
    ensures forall i :: 0 <= i < |memories| ==> WellFormed(memories[i], problemId, success, createdAt)
  {
    var parts := Split(response, format.separator);
    var segments := parts[1..];
    memories := [];
    var i := 0;
    while i < |segments|
      invariant 0 <= i <= |segments|
      invariant memories == ItemsFrom(segments[..i], format, problemId, success, createdAt)
    {
      var part := segments[i];
      var title := ExtractField(part, format.title, Markers(format));
      var description := ExtractField(part, format.description, Markers(format));
      var content := ExtractField(part, format.content, Markers(format));
      assert segments[..i + 1][..i] == segments[..i];
      if title != "" && description != "" && content != "" {
        var memory := MemoryItem(title, description, content, problemId, success, createdAt, None);
        memories := memories + [memory];
      }
      i := i + 1;
    }
    assert segments[..i] == segments;
    ItemsFromWellFormed(segments, format, problemId, success, createdAt);
  }

  /** A reply without the separator yields no items, whatever else it says. */
  lemma NoMarkerNoItems(response: string, format: Format, problemId: string, success: bool, createdAt: string)
    requires Usable(format) && !Contains(response, format.separator)
    ensures ItemsFrom(Split(response, format.separator)[1..], format, problemId, success, createdAt) == []
  {
    SplitWithout(response, format.separator);
  }

  // ---------------------------------------------------------------------------
  // Prompts and `extract_from_trajectory`

  /**
   * The solver's output for one problem: its reasoning and the `expected`
   * entry. `None` stands for a missing key, which `.get` turns into `''`.
   * The training loop of src/run_phase1.py always sets the key; when its
   * value is Python's `None`, the f-string prints `None`, which is
   * `Some("None")` here.
   */
  datatype Solution = Solution(reasoning: string, expected: Option<string>)

  /** `solution.get('expected', '')` */
  function ExpectedText(solution: Solution): string
  {
    match solution.expected
    case None => ""
    case Some(e) => e
  }

  const SuccessHead: string :=
    "You successfully solved this math problem. "
    + "Extract 1-3 generalizable strategies that led to success.\n\n"
    + "PROBLEM: "
  const SuccessMiddle: string := "\n\nYOUR SOLUTION: "
  const SuccessTail: string :=
    "\n\nExtract strategies in this format:\n\n"
    + "MEMORY 1:\n"
    + "TITLE: <concise strategy name>\n"
    + "DESCRIPTION: <one sentence summary>\n"
    + "CONTENT: <detailed transferable strategy>\n\n"
    + "MEMORY 2:\n"
    + "...\n\n"
    + "Focus on WHY the approach worked and how it could apply to similar problems."

  const FailureHead: string :=
    "You attempted this math problem "
    + "but got it wrong. "
    + "Extract 1-3 lessons about what went wrong.\n\n"
    + "PROBLEM: "
  const FailureMiddle: string := "\n\nYOUR ATTEMPT: "
  const FailureExpected: string := "\n\nEXPECTED: "
  const FailureTail: string :=
    "\n\nExtract lessons in this format:\n\n"
    + "MEMORY 1:\n"
    + "TITLE: <what to avoid or check>\n"
    + "DESCRIPTION: <one sentence summary>\n"
    + "CONTENT: <detailed lesson or preventive strategy>\n\n"
    + "MEMORY 2:\n"
    + "...\n\n"
    + "Focus on the mistake and how to prevent it in future similar problems."

  /** `_create_success_prompt` */
  function SuccessPrompt(question: string, reasoning: string): string
  {
    SuccessHead + question + SuccessMiddle + reasoning + SuccessTail
  }

  /** Everything in the failure prompt before the expected answer. */
  function FailureLead(question: string, reasoning: string): string
  {
    FailureHead + question + FailureMiddle + reasoning + FailureExpected
  }

  /** `_create_failure_prompt` */
  function FailurePrompt(question: string, reasoning: string, expected: string): string
  {
    FailureLead(question, reasoning) + expected + FailureTail
  }

  /** The prompt `extract_from_trajectory` sends, chosen by the outcome. */
  function ExtractionPrompt(question: string, solution: Solution, success: bool): string
  {
    if success then SuccessPrompt(question, solution.reasoning)
    else FailurePrompt(question, solution.reasoning, ExpectedText(solution))
  }

  lemma HeadsDiffer()
    ensures |SuccessHead| > 4 && |FailureHead| > 4 && SuccessHead[4] == 's' && FailureHead[4] == 'a'
  {
  }

  /** Two strings whose prefixes differ at a position differ. */
  lemma PrefixesDiffer(a: string, b: string, s: string, f: string)
    requires a <= s && b <= f && |a| > 4 && |b| > 4 && a[4] != b[4]
    ensures s != f
  {
    assert s[4] == a[4] && f[4] == b[4];
  }

  /** The two prompts differ in their fifth character ("You successfully" / "You attempted"). */
  lemma PromptsDiffer(question: string, reasoning: string, reasoning': string, expected: string)
    ensures SuccessPrompt(question, reasoning) != FailurePrompt(question, reasoning', expected)
  {
    HeadsDiffer();
    assert SuccessHead <= SuccessPrompt(question, reasoning);
    assert FailureHead <= FailureLead(question, reasoning') <= FailurePrompt(question, reasoning', expected);
    PrefixesDiffer(SuccessHead, FailureHead, SuccessPrompt(question, reasoning), FailurePrompt(question, reasoning', expected));
  }

  /**
   * The failure prompt is used exactly when the attempt failed, and it
   * carries the expected answer right after `EXPECTED: `.
   */
  lemma PromptChoice(question: string, solution: Solution, success: bool)
    ensures (ExtractionPrompt(question, solution, success)
             == FailurePrompt(question, solution.reasoning, ExpectedText(solution))) <==> !success
    ensures !success ==> OccursAt(ExtractionPrompt(question, solution, success), ExpectedText(solution),
                                  |FailureLead(question, solution.reasoning)|)
    ensures solution.expected.None? && !success ==>
      ExtractionPrompt(question, solution, success) == FailureLead(question, solution.reasoning) + FailureTail
  {
    PromptsDiffer(question, solution.reasoning, solution.reasoning, ExpectedText(solution));
    var lead := FailureLead(question, solution.reasoning);
    var e := ExpectedText(solution);
    assert (lead + e + FailureTail)[|lead|..|lead| + |e|] == e;
    assert lead + "" == lead;
  }

  /**
   * `extract_from_trajectory`: the prompt it sends and the items it parses
   * from `response`, the model's reply to that prompt.
   */
  method ExtractFromTrajectory(problemId: string, question: string, solution: Solution, success: bool,
                               response: string, createdAt: string)
    returns (prompt: string, memories: seq<MemoryItem>)
    ensures prompt == ExtractionPrompt(question, solution, success)
    ensures memories == ItemsFrom(Split(response, Standard.separator)[1..], Standard, problemId, success, createdAt)
    ensures forall i :: 0 <= i < |memories| ==> WellFormed(memories[i], problemId, success, createdAt)
  {
    StandardUsable();
    if success {
      prompt := SuccessPrompt(question, solution.reasoning);
    } else {
      prompt := FailurePrompt(question, solution.reasoning, ExpectedText(solution));
    }
    memories := ParseMemoryItems(response, Standard, problemId, success, createdAt);
  }
}
