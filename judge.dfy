/**
 * The math judge (src/judge/evaluator.py): pulls the final number out of a
 * solution or a gold answer, and compares two answers numerically, falling
 * back to a normalised text comparison when either side has no number.
 *
 * The fallback regular expression `[-+]?\d{1,3}(?:,\d{3})*(?:\.\d+)?` is
 * modelled twice: as written, and with `\d+` for `\d{1,3}`. As written it
 * reads a plain number of four to six digits as the digits after the third
 * (see `FallbackMisreadsPlainNumbers`); `ExtractNumber` and `IsCorrect` use
 * the corrected pattern.
 */
module Judge {
  import opened Wrappers
  import opened Text

  /** What `_extract_number` returns: an `int` for a whole value, a `float` otherwise. */
  datatype Num = Int(i: int) | Float(x: real)

  function Value(n: Num): real
  {
    match n
    case Int(i) => i as real
    case Float(x) => x
  }

  /** `int(v) if v.is_integer() else v`: the value is kept, and it is an `int` exactly when it is whole. */
  function Whole(v: real): (n: Num)
    ensures Value(n) == v
    ensures n.Int? <==> v == v.Floor as real
  {
    if v == v.Floor as real then Int(v.Floor) else Float(v)
  }

  function Pow10(k: nat): (p: nat)
    ensures p >= 1
  {
    if k == 0 then 1 else 10 * Pow10(k - 1)
  }

  // ---------------------------------------------------------------------------
  // `float(s)` on plain decimal notation

  /** Digits with at most one point and at least one digit (`12`, `1.5`, `1.`, `.5`). */
  function UnsignedDecimal(b: string): (v: Option<real>)
    ensures v.Some? ==> v.value >= 0.0
  {
    var j := DigitRunEnd(b, 0);
    if j == |b| then
      if j > 0 then Some(DigitsValue(b) as real) else None
    else if b[j] == '.' then
      var m := DigitRunEnd(b, j + 1);
      if m == |b| && (j > 0 || m > j + 1) then
        Some(DigitsValue(b[..j]) as real + DigitsValue(b[j + 1..]) as real / Pow10(m - j - 1) as real)
      else None
    else None
  }

  /** `float(s)`: surrounding whitespace is ignored and one leading sign is allowed. */
  function ParseDecimal(s: string): Option<real>
  {
    var t := Strip(s);
    if |t| > 0 && (t[0] == '-' || t[0] == '+') then
      match UnsignedDecimal(t[1..])
      case None => None
      case Some(v) => Some(if t[0] == '-' then -v else v)
    else UnsignedDecimal(t)
  }

  // ---------------------------------------------------------------------------
  // `_clean_number`

  /** The text `_clean_number` parses: `\` and `$` removed, stripped, then `,` and `%` removed. */
  function Cleaned(text: string): string
  {
    RemoveAll(RemoveAll(Strip(RemoveAll(RemoveAll(text, "\\"), "$")), ","), "%")
  }

  /** A fraction `n/d` with exactly one slash, both sides numbers and a non-zero denominator. */
  function FractionValue(cleaned: string): Option<real>
  {
    var parts := Split(cleaned, "/");
    if |parts| != 2 then None
    else match (ParseDecimal(Strip(parts[0])), ParseDecimal(Strip(parts[1])))
      case (Some(n), Some(d)) => if d != 0.0 then Some(n / d) else None
      case _ => None
  }

  /** `_clean_number`: a fraction when the cleaned text has a slash and is one, otherwise `float` of it. */
  function CleanNumber(text: string): Option<Num>
  {
    if text == "" then None
    else
      var cleaned := Cleaned(text);
      var fraction := if Contains(cleaned, "/") then FractionValue(cleaned) else None;
      match fraction
      case Some(v) => Some(Whole(v))
      case None =>
        match ParseDecimal(cleaned)
        case Some(v) => Some(Whole(v))
        case None => None
  }

  // ---------------------------------------------------------------------------
  // The fallback `re.findall(r'[-+]?\d{1,3}(?:,\d{3})*(?:\.\d+)?', text)`

  /** How many digits the pattern takes before the first comma group. */
  datatype Leading =
    | UpToThree   // `\d{1,3}`, as written
    | AnyLength   // `\d+`, as intended

  /** End of the greedy repetition of `,\d{3}` starting at `q`. */
  function CommaGroupsEnd(s: string, q: nat): (e: nat)
    requires q <= |s|
    ensures q <= e <= |s|
    decreases |s| - q
  {
    if q + 3 < |s| && s[q] == ',' && IsDigit(s[q + 1]) && IsDigit(s[q + 2]) && IsDigit(s[q + 3])
    then CommaGroupsEnd(s, q + 4)
    else q
  }

  /**
   * Where a match starting at `p` ends. A sign counts only before a digit;
   * the leading digits are greedy and every later part is optional, so the
   * first attempt is never undone.
   */
  function GroupedMatchAt(s: string, p: nat, lead: Leading): (e: Option<nat>)
    requires p <= |s|
    ensures e.Some? ==> p < e.value <= |s|
  {
    var q0 := if p + 1 < |s| && (s[p] == '-' || s[p] == '+') && IsDigit(s[p + 1]) then p + 1 else p;
    if q0 < |s| && IsDigit(s[q0]) then
      var run := DigitRunEnd(s, q0);
      var q1 := if lead == UpToThree && run - q0 > 3 then q0 + 3 else run;
      var q2 := CommaGroupsEnd(s, q1);
      Some(if q2 + 1 < |s| && s[q2] == '.' && IsDigit(s[q2 + 1]) then DigitRunEnd(s, q2 + 1) else q2)
    else None
  }

  /** `re.findall` from `p`: each match resumes the scan at its end. */
  function GroupedTokensFrom(s: string, p: nat, lead: Leading): seq<string>
    requires p <= |s|
    decreases |s| - p
  {
    if p == |s| then []
    else match GroupedMatchAt(s, p, lead)
      case Some(e) => [s[p..e]] + GroupedTokensFrom(s, e, lead)
      case None => GroupedTokensFrom(s, p + 1, lead)
  }

  function LastGrouped(s: string, lead: Leading): Option<string>
  {
    var tokens := GroupedTokensFrom(s, 0, lead);
    if |tokens| == 0 then None else Some(Last(tokens))
  }

  // ---------------------------------------------------------------------------
  // `_extract_number`: the first rule that applies decides

  function ExtractNumberWith(text: string, lead: Leading): Option<Num>
  {
    if text == "" then None else FromBoxed(Strip(text), lead)
  }

  /** `\boxed{...}` (MATH format), when the regular expression finds a group. */
  function FromBoxed(t: string, lead: Leading): Option<Num>
  {
    if Contains(t, "\\boxed") && BoxedContent(t).Some? then CleanNumber(BoxedContent(t).value)
    else FromGold(t, lead)
  }

  /** `... #### 42` (GSM8K gold format): the text after the last `####`. */
  function FromGold(t: string, lead: Leading): Option<Num>
  {
    if Contains(t, "####") then CleanNumber(AfterLast(t, "####")) else FromAnswer(t, lead)
  }

  /** `ANSWER: 42`, in any case: the upper-cased text after the last `ANSWER:`. */
  function FromAnswer(t: string, lead: Leading): Option<Num>
  {
    if Contains(Upper(t), "ANSWER:") then CleanNumber(AfterLast(Upper(t), "ANSWER:"))
    else FromFraction(t, lead)
  }

  /** A text with exactly one slash is cleaned as a whole. */
  function FromFraction(t: string, lead: Leading): Option<Num>
  {
    if Contains(t, "/") && |Split(t, "/")| == 2 then CleanNumber(t) else FromLastNumber(t, lead)
  }

  /** The last match of the fallback pattern. */
  function FromLastNumber(t: string, lead: Leading): Option<Num>
  {
    match LastGrouped(t, lead)
    case Some(m) => CleanNumber(m)
    case None => None
  }

  /** `_extract_number` with the fallback pattern as written. */
  function ExtractNumberAsWritten(text: string): Option<Num>
  {
    ExtractNumberWith(text, UpToThree)
  }

  /** `_extract_number` with `\d+` leading the fallback pattern. */
  function ExtractNumber(text: string): Option<Num>
  {
    ExtractNumberWith(text, AnyLength)
  }

  // ---------------------------------------------------------------------------
  // `_normalize_text`

  const LatexChars: set<char> := {'\\', '$', '{', '}'}

  ghost const UpperCase: set<char> := set c: char | 'A' <= c <= 'Z'

  /** Lower-cased, stripped, LaTeX characters removed, whitespace runs collapsed to one space. */
  function NormalizeText(text: string): string
  {
    var t := Strip(Lower(text));
    var u := RemoveAll(RemoveAll(RemoveAll(RemoveAll(t, "\\"), "$"), "{"), "}");
    Join(Words(u), " ")
  }

  // ---------------------------------------------------------------------------
  // `is_correct`

  function IsCorrectWith(predicted: string, expected: string, lead: Leading): bool
  {
    var p := ExtractNumberWith(predicted, lead);
    var e := ExtractNumberWith(expected, lead);
    if p.None? || e.None? then NormalizeText(predicted) == NormalizeText(expected)
    else if p.value.Int? && e.value.Int? then p.value.i == e.value.i
    else
      var d := Value(p.value) - Value(e.value);
      (if d < 0.0 then -d else d) < 1.0 / 100.0
  }

  /** `is_correct` as written. */
  function IsCorrectAsWritten(predicted: string, expected: string): bool
  {
    IsCorrectWith(predicted, expected, UpToThree)
  }

  /** `is_correct` with the corrected fallback pattern. */
  function IsCorrect(predicted: string, expected: string): bool
  {
    IsCorrectWith(predicted, expected, AnyLength)
  }

  // ---------------------------------------------------------------------------
  // `_clean_number` on plain numerals

  lemma {:induction false} CleanedOfPlain(t: string)
    requires Avoids(t, {'\\', '$', ',', '%'})
    requires |t| > 0 ==> !IsSpace(t[0]) && !IsSpace(t[|t| - 1])
    ensures Cleaned(t) == t
  {
    RemoveCharOfAvoiding(t, '\\');
    RemoveCharOfAvoiding(t, '$');
    StripOfTrimmed(t);
    RemoveCharOfAvoiding(t, ',');
    RemoveCharOfAvoiding(t, '%');
  }

  lemma {:induction false} ParseDigits(d: string)
    requires |d| > 0 && AllDigits(d)
    ensures ParseDecimal(d) == Some(DigitsValue(d) as real)
  {
    StripOfTrimmed(d);
  }

  /** A string of digits is cleaned to the `int` it spells. */
  lemma {:induction false} CleanDigits(d: string)
    requires |d| > 0 && AllDigits(d)
    ensures CleanNumber(d) == Some(Int(DigitsValue(d)))
  {
    DigitsAvoid(d, {'\\', '$', ',', '%', '/'});
    CleanedOfPlain(d);
    AvoidsFirstNotContains(d, "/");
    ParseDigits(d);
  }

  /** Without a slash in the cleaned text, `_clean_number` is `float` of it. */
  lemma {:induction false} CleanWithoutSlash(t: string, v: real)
    requires t != "" && !Contains(Cleaned(t), "/") && ParseDecimal(Cleaned(t)) == Some(v)
    ensures CleanNumber(t) == Some(Whole(v))
  {
  }

  /** The value of `a.b`: `a + b / 10^|b|`. */
  function PointValue(a: string, b: string): real
    requires AllDigits(a) && AllDigits(b)
  {
    DigitsValue(a) as real + DigitsValue(b) as real / Pow10(|b|) as real
  }

  lemma {:induction false} UnsignedPointNumber(a: string, b: string)
    requires |a| > 0 && AllDigits(a) && |b| > 0 && AllDigits(b)
    ensures UnsignedDecimal(a + "." + b) == Some(PointValue(a, b))
  {
    var t := a + "." + b;
    assert t[|a|] == '.';
    assert DigitRunEnd(t, 0) == |a|;
    assert DigitRunEnd(t, |a| + 1) == |t|;
    assert t[..|a|] == a && t[|a| + 1..] == b;
  }

  lemma {:induction false} ParsePointNumber(a: string, b: string)
    requires |a| > 0 && AllDigits(a) && |b| > 0 && AllDigits(b)
    ensures ParseDecimal(a + "." + b) == Some(PointValue(a, b))
  {
    var t := a + "." + b;
    StripOfTrimmed(t);
    assert t[0] == a[0];
    UnsignedPointNumber(a, b);
  }

  /** `a.b` is cleaned to `a + b / 10^|b|`, an `int` when that is whole. */
  lemma {:induction false} CleanPointNumber(a: string, b: string)
    requires |a| > 0 && AllDigits(a) && |b| > 0 && AllDigits(b)
    ensures CleanNumber(a + "." + b) == Some(Whole(PointValue(a, b)))
  {
    var t := a + "." + b;
    var bad := {'\\', '$', ',', '%', '/'};
    DigitsAvoid(a, bad);
    DigitsAvoid(b, bad);
    AvoidsConcat(a, ".", bad);
    AvoidsConcat(a + ".", b, bad);
    CleanedOfPlain(t);
    AvoidsFirstNotContains(t, "/");
    ParsePointNumber(a, b);
    CleanWithoutSlash(t, PointValue(a, b));
  }

  /** `a/b` parses as a fraction exactly when the denominator is not zero. */
  lemma {:induction false} FractionOfDigits(a: string, b: string)
    requires |a| > 0 && AllDigits(a) && |b| > 0 && AllDigits(b)
    ensures FractionValue(a + "/" + b)
      == if DigitsValue(b) == 0 then None else Some(DigitsValue(a) as real / DigitsValue(b) as real)
  {
    DigitsAvoid(a, {'/'});
    AvoidsFirstNotContains(b, "/");
    SplitOnce(a, "/", b);
    var parts := Split(a + "/" + b, "/");
    assert parts[0] == a && parts[1] == b;
    StripOfTrimmed(a);
    StripOfTrimmed(b);
    ParseDigits(a);
    ParseDigits(b);
  }

  /** `float` rejects `a/b`. */
  lemma {:induction false} SlashIsNotDecimal(a: string, b: string)
    requires |a| > 0 && AllDigits(a) && |b| > 0 && AllDigits(b)
    ensures ParseDecimal(a + "/" + b).None?
  {
    var t := a + "/" + b;
    StripOfTrimmed(t);
    assert t[|a|] == '/';
    assert DigitRunEnd(t, 0) == |a|;
  }

  /** `a/b` is cleaned to the quotient, and to nothing when the denominator is zero. */
  lemma {:induction false} CleanFraction(a: string, b: string)
    requires |a| > 0 && AllDigits(a) && |b| > 0 && AllDigits(b)
    ensures CleanNumber(a + "/" + b)
      == if DigitsValue(b) == 0 then None
         else Some(Whole(DigitsValue(a) as real / DigitsValue(b) as real))
  {
    var t := a + "/" + b;
    var bad := {'\\', '$', ',', '%'};
    DigitsAvoid(a, bad);
    DigitsAvoid(b, bad);
    AvoidsConcat(a, "/", bad);
    AvoidsConcat(a + "/", b, bad);
    CleanedOfPlain(t);
    assert OccursAt(t, "/", |a|) by { assert t[|a|..|a| + 1] == "/"; }
    FractionOfDigits(a, b);
    SlashIsNotDecimal(a, b);
  }

  // ---------------------------------------------------------------------------
  // `_extract_number` on the formats the judge is written for

  /** A numeral with no `\\`, `#` or letter `A` and no lower-case letter reaches the fraction rule unchanged. */
  lemma {:induction false} PlainGoesToFraction(t: string, lead: Leading)
    requires |t| > 0 && !IsSpace(t[0]) && !IsSpace(t[|t| - 1])
    requires Avoids(t, {'\\', '#', 'A'}) && forall i :: 0 <= i < |t| ==> !IsAsciiLower(t[i])
    ensures ExtractNumberWith(t, lead) == FromFraction(t, lead)
  {
    StripOfTrimmed(t);
    AvoidsFirstNotContains(t, "\\boxed");
    AvoidsFirstNotContains(t, "####");
    UpperOfNoLower(t);
    AvoidsFirstNotContains(t, "ANSWER:");
  }

  /** When the pattern matches all of `t` from its start, the last match is `t` itself. */
  lemma {:induction false} WholeMatch(t: string, lead: Leading)
    requires GroupedMatchAt(t, 0, lead) == Some(|t|)
    ensures LastGrouped(t, lead) == Some(t)
  {
    assert GroupedTokensFrom(t, |t|, lead) == [];
    assert GroupedTokensFrom(t, 0, lead) == [t[0..|t|]];
    assert t[0..|t|] == t;
  }

  /** A plain numeral without a slash is read through the fallback pattern. */
  lemma {:induction false} PlainFallback(t: string, lead: Leading, m: string)
    requires |t| > 0 && !IsSpace(t[0]) && !IsSpace(t[|t| - 1])
    requires Avoids(t, {'\\', '#', 'A'}) && forall i :: 0 <= i < |t| ==> !IsAsciiLower(t[i])
    requires !Contains(t, "/") && LastGrouped(t, lead) == Some(m)
    ensures ExtractNumberWith(t, lead) == CleanNumber(m)
  {
    PlainGoesToFraction(t, lead);
  }

  lemma {:induction false} DigitsMatchWhole(d: string, lead: Leading)
    requires |d| > 0 && AllDigits(d)
    requires lead == AnyLength || |d| <= 3
    ensures GroupedMatchAt(d, 0, lead) == Some(|d|)
  {
    assert DigitRunEnd(d, 0) == |d|;
    assert CommaGroupsEnd(d, |d|) == |d|;
  }

  /**
   * A plain whole number is read as the `int` it spells: always with the
   * corrected pattern, and as written only up to three digits.
   */
  lemma {:induction false} DigitsText(d: string, lead: Leading)
    requires |d| > 0 && AllDigits(d)
    requires lead == AnyLength || |d| <= 3
    ensures ExtractNumberWith(d, lead) == Some(Int(DigitsValue(d)))
  {
    DigitsAvoid(d, {'\\', '#', 'A', '/'});
    AvoidsFirstNotContains(d, "/");
    DigitsMatchWhole(d, lead);
    WholeMatch(d, lead);
    PlainFallback(d, lead, d);
    CleanDigits(d);
  }

  lemma {:induction false} ChunkedTokens(a: string, b: string)
    requires |a| == 3 && AllDigits(a) && 0 < |b| <= 3 && AllDigits(b)
    ensures LastGrouped(a + b, UpToThree) == Some(b)
  {
    var t := a + b;
    assert AllDigits(t);
    assert DigitRunEnd(t, 0) == |t| && DigitRunEnd(t, 3) == |t|;
    assert CommaGroupsEnd(t, 3) == 3;
    assert CommaGroupsEnd(t, |t|) == |t|;
    assert GroupedMatchAt(t, 0, UpToThree) == Some(3);
    assert GroupedMatchAt(t, 3, UpToThree) == Some(|t|);
    assert t[0..3] == a && t[3..|t|] == b;
    assert GroupedTokensFrom(t, |t|, UpToThree) == [];
    assert GroupedTokensFrom(t, 3, UpToThree) == [b];
    assert GroupedTokensFrom(t, 0, UpToThree) == [a, b];
  }

  /** As written, the pattern stops after three digits and starts a new match at the fourth. */
  lemma {:induction false} ChunkedDigits(a: string, b: string)
    requires |a| == 3 && AllDigits(a) && 0 < |b| <= 3 && AllDigits(b)
    ensures ExtractNumberAsWritten(a + b) == Some(Int(DigitsValue(b)))
  {
    var t := a + b;
    assert AllDigits(t);
    DigitsAvoid(t, {'\\', '#', 'A', '/'});
    AvoidsFirstNotContains(t, "/");
    ChunkedTokens(a, b);
    PlainFallback(t, UpToThree, b);
    CleanDigits(b);
  }

  lemma {:induction false} PointNumberMatchWhole(a: string, b: string, lead: Leading)
    requires |a| > 0 && AllDigits(a) && |b| > 0 && AllDigits(b)
    requires lead == AnyLength || |a| <= 3
    ensures GroupedMatchAt(a + "." + b, 0, lead) == Some(|a| + 1 + |b|)
  {
    var t := a + "." + b;
    assert t[|a|] == '.';
    assert DigitRunEnd(t, 0) == |a|;
    assert CommaGroupsEnd(t, |a|) == |a|;
    assert DigitRunEnd(t, |a| + 1) == |t|;
  }

  lemma {:induction false} PointNumberPlain(a: string, b: string)
    requires |a| > 0 && AllDigits(a) && |b| > 0 && AllDigits(b)
    ensures Avoids(a + "." + b, {'\\', '#', 'A', '/'})
    ensures forall i :: 0 <= i < |a + "." + b| ==> !IsAsciiLower((a + "." + b)[i])
    ensures !Contains(a + "." + b, "/")
  {
    var bad := {'\\', '#', 'A', '/'};
    DigitsAvoid(a, bad);
    DigitsAvoid(b, bad);
    AvoidsConcat(a, ".", bad);
    AvoidsConcat(a + ".", b, bad);
    AvoidsFirstNotContains(a + "." + b, "/");
  }

  /** `a.b` is read as `a + b / 10^|b|`: always with the corrected pattern, and as written when `a` has at most three digits. */
  lemma {:induction false} PointNumberText(a: string, b: string, lead: Leading)
    requires |a| > 0 && AllDigits(a) && |b| > 0 && AllDigits(b)
    requires lead == AnyLength || |a| <= 3
    ensures ExtractNumberWith(a + "." + b, lead) == Some(Whole(PointValue(a, b)))
  {
    var t := a + "." + b;
    PointNumberPlain(a, b);
    PointNumberMatchWhole(a, b, lead);
    WholeMatch(t, lead);
    PlainFallback(t, lead, t);
    CleanPointNumber(a, b);
  }

  /** A text `a/b` goes to the fraction rule, whatever the fallback pattern. */
  lemma {:induction false} FractionText(a: string, b: string, lead: Leading)
    requires |a| > 0 && AllDigits(a) && |b| > 0 && AllDigits(b)
    ensures ExtractNumberWith(a + "/" + b, lead)
      == if DigitsValue(b) == 0 then None
         else Some(Whole(DigitsValue(a) as real / DigitsValue(b) as real))
  {
    var t := a + "/" + b;
    var bad := {'\\', '#', 'A'};
    DigitsAvoid(a, bad + {'/'});
    DigitsAvoid(b, bad + {'/'});
    AvoidsConcat(a, "/", bad);
    AvoidsConcat(a + "/", b, bad);
    PlainGoesToFraction(t, lead);
    assert OccursAt(t, "/", |a|) by { assert t[|a|..|a| + 1] == "/"; }
    AvoidsFirstNotContains(b, "/");
    SplitOnce(a, "/", b);
    CleanFraction(a, b);
  }

  /** `" " + n` strips to `n` when `n` is a string of digits. */
  lemma {:induction false} StripSpaceDigits(n: string)
    requires |n| > 0 && AllDigits(n)
    ensures Strip(" " + n) == n
  {
    assert (" " + n)[1..] == n;
    assert TrimStart(" " + n) == TrimStart(n) == n;
  }

  lemma {:induction false} GoldAvoidsBackslash(r: string, n: string)
    requires Avoids(r, {'\\', '#'}) && AllDigits(n)
    ensures Avoids(r + "#### " + n, {'\\'})
  {
    DigitsAvoid(n, {'\\'});
    AvoidsConcat(r, "#### ", {'\\'});
    AvoidsConcat(r + "#### ", n, {'\\'});
  }

  lemma {:induction false} GoldSplit(r: string, n: string)
    requires Avoids(r, {'\\', '#'}) && |n| > 0 && AllDigits(n)
    ensures Avoids(r + "#### " + n, {'\\'})
    ensures Contains(r + "#### " + n, "####")
    ensures AfterLast(r + "#### " + n, "####") == n
  {
    GoldAvoidsBackslash(r, n);
    var t := r + "#### " + n;
    var tail := " " + n;
    assert t == r + "####" + tail;
    DigitsAvoid(n, {'#'});
    AvoidsConcat(" ", n, {'#'});
    assert OccursAt(t, "####", |r|) by { assert t[|r|..|r| + 4] == "####"; }
    AvoidsFirstNotContains(tail, "####");
    SplitOnce(r, "####", tail);
    StripSpaceDigits(n);
  }

  /**
   * GSM8K gold answers: after `####` comes the answer, whatever precedes it
   * (as long as it has no `\\` or `#`).
   */
  lemma {:induction false} GoldAnswerText(r: string, n: string, lead: Leading)
    requires Avoids(r, {'\\', '#'}) && (|r| > 0 ==> !IsSpace(r[0]))
    requires |n| > 0 && AllDigits(n)
    ensures ExtractNumberWith(r + "#### " + n, lead) == Some(Int(DigitsValue(n)))
  {
    var t := r + "#### " + n;
    GoldSplit(r, n);
    assert t[0] == if |r| > 0 then r[0] else '#';
    StripOfTrimmed(t);
    AvoidsFirstNotContains(t, "\\boxed");
    CleanDigits(n);
  }

  lemma {:induction false} UpperAvoidsA(r: string)
    requires Avoids(r, {'a', 'A'})
    ensures Avoids(Upper(r), {'A'})
  {
  }

  lemma {:induction false} AnswerSplit(r: string, n: string)
    requires Avoids(r, {'\\', '#', 'a', 'A'}) && |n| > 0 && AllDigits(n)
    ensures Avoids(r + "ANSWER: " + n, {'\\', '#'})
    ensures Contains(Upper(r + "ANSWER: " + n), "ANSWER:")
    ensures AfterLast(Upper(r + "ANSWER: " + n), "ANSWER:") == n
  {
    var t := r + "ANSWER: " + n;
    var tail := " " + n;
    var bad := {'\\', '#', 'A'};
    DigitsAvoid(n, bad);
    AvoidsConcat(" ", n, bad);
    AvoidsConcat(r, "ANSWER:", {'\\', '#'});
    assert t == r + "ANSWER:" + tail;
    AvoidsConcat(r + "ANSWER:", tail, {'\\', '#'});
    UpperConcat(r, "ANSWER:" + tail);
    UpperConcat("ANSWER:", tail);
    UpperOfNoLower("ANSWER:");
    UpperOfNoLower(tail);
    var u := Upper(t);
    assert u == Upper(r) + "ANSWER:" + tail;
    assert OccursAt(u, "ANSWER:", |r|) by { assert u[|r|..|r| + 7] == "ANSWER:"; }
    UpperAvoidsA(r);
    AvoidsFirstNotContains(tail, "ANSWER:");
    SplitOnce(Upper(r), "ANSWER:", tail);
    StripSpaceDigits(n);
  }

  /**
   * The model's own `ANSWER: n` line: the answer after the marker, whatever
   * precedes it (as long as it has no `\\`, `#` or letter `a` in either case).
   */
  lemma {:induction false} AnswerLineText(r: string, n: string, lead: Leading)
    requires Avoids(r, {'\\', '#', 'a', 'A'}) && (|r| > 0 ==> !IsSpace(r[0]))
    requires |n| > 0 && AllDigits(n)
    ensures ExtractNumberWith(r + "ANSWER: " + n, lead) == Some(Int(DigitsValue(n)))
  {
    var t := r + "ANSWER: " + n;
    AnswerSplit(r, n);
    assert t[0] == if |r| > 0 then r[0] else 'A';
    StripOfTrimmed(t);
    AvoidsFirstNotContains(t, "\\boxed");
    AvoidsFirstNotContains(t, "####");
    CleanDigits(n);
  }

  /** No match of the `\\boxed` pattern can start where there is no backslash. */
  lemma {:induction false} BoxedSkip(t: string, p: nat, q: nat)
    requires p <= q <= |t|
    requires forall k :: p <= k < q ==> t[k] != '\\'
    ensures BoxedFrom(t, p) == BoxedFrom(t, q)
    decreases q - p
  {
    if p < q {
      NotOccursAt(t, BoxedOpen, p);
      BoxedSkip(t, p + 1, q);
    }
  }

  lemma {:induction false} BoxedGroup(r: string, n: string)
    requires |n| > 0 && AllDigits(n)
    ensures BoxedAt(r + BoxedOpen + n + "}", |r|) == Some(n)
  {
    var t := r + BoxedOpen + n + "}";
    var from := |r| + |BoxedOpen|;
    var last := |t| - 1;
    assert t[|r|..from] == BoxedOpen;
    assert OccursAt(t, "}", last) by { assert t[last..last + 1] == "}"; }
    assert FindFrom(t, "}", from) == Some(last) by {
      forall j | from <= j < last ensures !OccursAt(t, "}", j) {
        assert t[j] == n[j - from];
        NotOccursAt(t, "}", j);
      }
    }
    assert t[from..last] == n;
  }

  /** MATH answers: the digits inside `\\boxed{...}`, whatever precedes it (as long as it has no backslash). */
  lemma {:induction false} BoxedText(r: string, n: string, lead: Leading)
    requires Avoids(r, {'\\'}) && (|r| > 0 ==> !IsSpace(r[0]))
    requires |n| > 0 && AllDigits(n)
    ensures ExtractNumberWith(r + BoxedOpen + n + "}", lead) == Some(Int(DigitsValue(n)))
  {
    var t := r + BoxedOpen + n + "}";
    assert t[0] == if |r| > 0 then r[0] else '\\';
    StripOfTrimmed(t);
    assert OccursAt(t, "\\boxed", |r|) by { assert t[|r|..|r| + 6] == "\\boxed"; }
    BoxedSkip(t, 0, |r|);
    BoxedGroup(r, n);
    CleanDigits(n);
  }

  /** A character no match of the fallback pattern can run across: not a digit, a comma, a point or a sign. */
  predicate Separates(c: char)
  {
    !IsDigit(c) && c != ',' && c != '.' && c != '-' && c != '+'
  }

  /** The comma groups scanned from `q` end before a separating character at `k`. */
  lemma {:induction false} CommaGroupsStop(s: string, q: nat, k: nat)
    requires q <= k < |s| && Separates(s[k])
    ensures CommaGroupsEnd(s, q) <= k
    decreases |s| - q
  {
    if q + 3 < |s| && s[q] == ',' && IsDigit(s[q + 1]) && IsDigit(s[q + 2]) && IsDigit(s[q + 3]) {
      CommaGroupsStop(s, q + 4, k);
    }
  }

  /** A match of the fallback pattern that starts before a separating character ends before it. */
  lemma {:induction false} MatchStopsBefore(s: string, p: nat, k: nat, lead: Leading)
    requires p <= k < |s| && Separates(s[k]) && GroupedMatchAt(s, p, lead).Some?
    ensures GroupedMatchAt(s, p, lead).value <= k
  {
    var q0 := if p + 1 < |s| && (s[p] == '-' || s[p] == '+') && IsDigit(s[p + 1]) then p + 1 else p;
    var run := DigitRunEnd(s, q0);
    var q1 := if lead == UpToThree && run - q0 > 3 then q0 + 3 else run;
    CommaGroupsStop(s, q1, k);
  }

  /** A match that runs to the end of the text is the last match from where it starts. */
  lemma {:induction false} MatchToEnd(s: string, q: nat, lead: Leading)
    requires q <= |s| && GroupedMatchAt(s, q, lead) == Some(|s|)
    ensures GroupedTokensFrom(s, q, lead) == [s[q..]]
  {
    assert GroupedTokensFrom(s, |s|, lead) == [];
    assert s[q..|s|] == s[q..];
  }

  /**
   * Scanning from `p`, when a separating character at `k` is followed by a
   * match that runs to the end of the text, the last match is that one.
   */
  lemma {:induction false} TokensEndWith(s: string, k: nat, p: nat, lead: Leading)
    requires p <= k + 1 && k < |s| && Separates(s[k])
    requires GroupedMatchAt(s, k + 1, lead) == Some(|s|)
    ensures var ts := GroupedTokensFrom(s, p, lead); |ts| > 0 && Last(ts) == s[k + 1..]
    decreases k + 1 - p
  {
    var m := GroupedMatchAt(s, p, lead);
    if p == k + 1 {
      MatchToEnd(s, p, lead);
    } else if m.Some? {
      MatchStopsBefore(s, p, k, lead);
      TokensEndWith(s, k, m.value, lead);
      assert GroupedTokensFrom(s, p, lead) == [s[p..m.value]] + GroupedTokensFrom(s, m.value, lead);
    } else {
      TokensEndWith(s, k, p + 1, lead);
    }
  }

  /** A whole number the pattern reads in one piece. */
  lemma {:induction false} DigitsMatchAt(r: string, d: string, lead: Leading)
    requires |d| > 0 && AllDigits(d) && (lead == AnyLength || |d| <= 3)
    ensures GroupedMatchAt(r + d, |r|, lead) == Some(|r + d|)
  {
    var s := r + d;
    assert DigitRunEnd(s, |r|) == |s|;
    assert CommaGroupsEnd(s, |s|) == |s|;
  }

  /** `a,bbb` with up to three leading digits, and `a,bbb.c`, are read in one piece. */
  lemma {:induction false} CommaMatchAt(r: string, a: string, b: string, tail: string, lead: Leading)
    requires 0 < |a| <= 3 && AllDigits(a) && |b| == 3 && AllDigits(b)
    requires tail == "" || (|tail| > 1 && tail[0] == '.' && AllDigits(tail[1..]))
    ensures GroupedMatchAt(r + (a + "," + b + tail), |r|, lead) == Some(|r + (a + "," + b + tail)|)
  {
    var s := r + (a + "," + b + tail);
    var q := |r| + |a|;
    assert s[q] == ',' && s[q + 1] == b[0] && s[q + 2] == b[1] && s[q + 3] == b[2];
    assert DigitRunEnd(s, |r|) == q;
    if tail == "" {
      assert CommaGroupsEnd(s, q + 4) == q + 4;
    } else {
      assert s[q + 4] == '.' && s[q + 5] == tail[1];
      assert CommaGroupsEnd(s, q + 4) == q + 4;
      assert forall i :: q + 5 <= i < |s| ==> s[i] == tail[i - q - 4];
      assert DigitRunEnd(s, q + 5) == |s|;
    }
  }

  /** `Upper(t)` lacks `ANSWER:` when `t` lacks one of its characters in either case. */
  lemma {:induction false} NoAnswerMarker(t: string, c: char, k: nat)
    requires k < 7 && "ANSWER:"[k] == c && Avoids(t, {c, ToLower(c)})
    ensures !Contains(Upper(t), "ANSWER:")
  {
    forall i: nat | i + 7 <= |t| ensures !OccursAt(Upper(t), "ANSWER:", i) {
      assert Upper(t)[i + k] != c;
    }
  }

  /** The last-number rule reads the match that starts after a separating character at `q` and runs to the end. */
  lemma {:induction false} LastMatchRead(s: string, q: nat, lead: Leading)
    requires 0 < q <= |s| && Separates(s[q - 1]) && GroupedMatchAt(s, q, lead) == Some(|s|)
    ensures FromLastNumber(s, lead) == CleanNumber(s[q..])
  {
    TokensEndWith(s, q - 1, 0, lead);
    var ts := GroupedTokensFrom(s, 0, lead);
    assert |ts| > 0 && Last(ts) == s[q..];
    assert LastGrouped(s, lead) == Some(s[q..]);
  }

  /** Trimmed text with no `\\`, `#`, `ANSWER:` or `/` falls through every format rule to the last number. */
  lemma {:induction false} FormatRulesSkipped(t: string, lead: Leading)
    requires |t| > 0 && !IsSpace(t[0]) && !IsSpace(t[|t| - 1])
    requires Avoids(t, {'\\', '#', '/'}) && !Contains(Upper(t), "ANSWER:")
    ensures ExtractNumberWith(t, lead) == FromLastNumber(t, lead)
  {
    StripOfTrimmed(t);
    AvoidsFirstNotContains(t, "\\boxed");
    AvoidsFirstNotContains(t, "####");
    AvoidsFirstNotContains(t, "/");
  }

  /**
   * Such text that ends in a number the pattern reads in one piece, after a
   * separating character, is read as that number.
   */
  lemma {:induction false} LastNumberRule(r: string, n: string, lead: Leading)
    requires |r| > 0 && !IsSpace(r[0]) && Separates(r[|r| - 1])
    requires Avoids(r + n, {'\\', '#', '/'}) && !Contains(Upper(r + n), "ANSWER:")
    requires GroupedMatchAt(r + n, |r|, lead) == Some(|r + n|) && !IsSpace(n[|n| - 1])
    ensures ExtractNumberWith(r + n, lead) == CleanNumber(n)
  {
    var t := r + n;
    assert t[0] == r[0] && t[|t| - 1] == n[|n| - 1];
    FormatRulesSkipped(t, lead);
    assert t[|r| - 1] == r[|r| - 1] && t[|r|..] == n;
    LastMatchRead(t, |r|, lead);
  }

  /**
   * Prose that ends in a whole number after a space, with no `\\`, `#`, `:`
   * or `/` anywhere, is read as that number.
   */
  lemma {:induction false} LastNumberText(r: string, d: string, lead: Leading)
    requires |r| > 0 && !IsSpace(r[0]) && r[|r| - 1] == ' '
    requires Avoids(r, {'\\', '#', ':', '/'})
    requires |d| > 0 && AllDigits(d) && (lead == AnyLength || |d| <= 3)
    ensures ExtractNumberWith(r + d, lead) == Some(Int(DigitsValue(d)))
  {
    var bad := {'\\', '#', ':', '/'};
    DigitsAvoid(d, bad);
    AvoidsConcat(r, d, bad);
    NoAnswerMarker(r + d, ':', 6);
    DigitsMatchAt(r, d, lead);
    LastNumberRule(r, d, lead);
    CleanDigits(d);
  }

  /** Removing the only comma joins the two sides. */
  lemma {:induction false} RemoveOnlyComma(a: string, rest: string)
    requires Avoids(a, {','}) && Avoids(rest, {','})
    ensures RemoveAll(a + "," + rest, ",") == a + rest
  {
    AvoidsFirstNotContains(rest, ",");
    SplitOnce(a, ",", rest);
    assert Join([a, rest], "") == a + rest;
  }

  /** `a,rest` is cleaned to `a` followed by `rest`. */
  lemma {:induction false} CleanedComma(a: string, rest: string)
    requires |a| > 0 && AllDigits(a) && Avoids(rest, {'\\', '$', ',', '%'})
    requires |rest| > 0 && !IsSpace(rest[|rest| - 1])
    ensures Cleaned(a + "," + rest) == a + rest
  {
    var t := a + "," + rest;
    var u := a + rest;
    DigitsAvoid(a, {'\\', '$', ',', '%'});
    AvoidsConcat(a, ",", {'\\', '$', '%'});
    AvoidsConcat(a + ",", rest, {'\\', '$', '%'});
    RemoveCharOfAvoiding(t, '\\');
    RemoveCharOfAvoiding(t, '$');
    assert t[0] == a[0] && t[|t| - 1] == rest[|rest| - 1];
    StripOfTrimmed(t);
    RemoveOnlyComma(a, rest);
    AvoidsConcat(a, rest, {'%'});
    RemoveCharOfAvoiding(u, '%');
  }

  /** Commas are dropped before parsing: `a,b` followed by `tail` is read as `ab` followed by `tail`. */
  lemma {:induction false} CleanComma(a: string, b: string, tail: string)
    requires |a| > 0 && AllDigits(a) && AllDigits(b) && Avoids(b + tail, {'\\', '$', ',', '%'})
    requires |b + tail| > 0 && !IsSpace((b + tail)[|b + tail| - 1])
    ensures CleanNumber(a + "," + b + tail) == CleanNumber(a + b + tail)
  {
    var rest := b + tail;
    var u := a + rest;
    DigitsAvoid(a, {'\\', '$', ',', '%'});
    AvoidsConcat(a, rest, {'\\', '$', ',', '%'});
    assert u[0] == a[0] && u[|u| - 1] == rest[|rest| - 1];
    CleanedOfPlain(u);
    CleanedComma(a, rest);
    AppendAssoc(a + ",", b, tail);
    AppendAssoc(a, b, tail);
    SameCleanedText(a + "," + b + tail, a + b + tail);
  }

  /** `_clean_number` depends only on the cleaned text. */
  lemma {:induction false} SameCleanedText(t: string, u: string)
    requires t != "" && u != "" && Cleaned(t) == Cleaned(u)
    ensures CleanNumber(t) == CleanNumber(u)
  {
  }

  /** What `a,bbb` and `a,bbb.c` are made of: no character a format rule or the cleaning looks for, and no space at the end. */
  lemma {:induction false} CommaNumberChars(a: string, b: string, tail: string)
    requires 0 < |a| && AllDigits(a) && |b| == 3 && AllDigits(b)
    requires tail == "" || (|tail| > 1 && tail[0] == '.' && AllDigits(tail[1..]))
    ensures Avoids(a + "," + b + tail, {'\\', '#', '/'})
    ensures Avoids(b + tail, {'\\', '$', ',', '%'}) && !IsSpace((b + tail)[|b + tail| - 1])
    ensures !IsSpace((a + "," + b + tail)[|a + "," + b + tail| - 1])
  {
    var n := a + "," + b + tail;
    var rest := b + tail;
    assert forall i :: |a| + 1 <= i < |n| ==> n[i] == rest[i - |a| - 1];
    assert forall i :: 0 <= i < |a| ==> n[i] == a[i];
    assert forall i :: |b| < i < |rest| ==> rest[i] == tail[1..][i - |b| - 1];
    assert forall i :: 0 <= i < |b| ==> rest[i] == b[i];
  }

  /**
   * A number with a thousands separator, `a,bbb` or `a,bbb.c`, at the end of
   * text the format rules skip, is read with the comma dropped.
   */
  lemma {:induction false} CommaNumberText(r: string, a: string, b: string, tail: string, lead: Leading)
    requires |r| > 0 && !IsSpace(r[0]) && Separates(r[|r| - 1])
    requires Avoids(r, {'\\', '#', '/'}) && !Contains(Upper(r + (a + "," + b + tail)), "ANSWER:")
    requires 0 < |a| <= 3 && AllDigits(a) && |b| == 3 && AllDigits(b)
    requires tail == "" || (|tail| > 1 && tail[0] == '.' && AllDigits(tail[1..]))
    ensures ExtractNumberWith(r + (a + "," + b + tail), lead) == CleanNumber(a + b + tail)
  {
    var n := a + "," + b + tail;
    CommaNumberChars(a, b, tail);
    CleanComma(a, b, tail);
    AvoidsConcat(r, n, {'\\', '#', '/'});
    CommaMatchAt(r, a, b, tail, lead);
    LastNumberRule(r, n, lead);
  }

  // ---------------------------------------------------------------------------
  // Without a digit there is no number

  ghost const DigitChars: set<char> := set c: char | '0' <= c <= '9'

  lemma {:induction false} UnsignedNeedsDigit(b: string)
    requires Avoids(b, DigitChars)
    ensures UnsignedDecimal(b).None?
  {
    assert DigitRunEnd(b, 0) == 0;
    if |b| > 0 && b[0] == '.' {
      assert DigitRunEnd(b, 1) == 1;
    }
  }

  lemma {:induction false} ParseNeedsDigit(s: string)
    requires Avoids(s, DigitChars)
    ensures ParseDecimal(s).None?
  {
    var t := Strip(s);
    StripAvoids(s, DigitChars);
    if |t| > 0 {
      AvoidsSlice(t, DigitChars, 1, |t|);
      assert t[1..] == t[1..|t|];
      UnsignedNeedsDigit(t[1..]);
    }
    UnsignedNeedsDigit(t);
  }

  lemma {:induction false} RemoveCharKeepsAvoiding(s: string, c: char)
    requires Avoids(s, DigitChars)
    ensures Avoids(RemoveAll(s, [c]), DigitChars)
  {
    RemoveCharAvoids(s, c, DigitChars);
  }

  lemma {:induction false} CleanNeedsDigit(x: string)
    requires Avoids(x, DigitChars)
    ensures CleanNumber(x).None?
  {
    var c1 := RemoveAll(RemoveAll(x, "\\"), "$");
    RemoveCharKeepsAvoiding(x, '\\');
    RemoveCharKeepsAvoiding(RemoveAll(x, "\\"), '$');
    StripAvoids(c1, DigitChars);
    RemoveCharKeepsAvoiding(Strip(c1), ',');
    RemoveCharKeepsAvoiding(RemoveAll(Strip(c1), ","), '%');
    var cleaned := Cleaned(x);
    var parts := Split(cleaned, "/");
    SplitAvoids(cleaned, "/", DigitChars);
    if |parts| == 2 {
      StripAvoids(parts[0], DigitChars);
      StripAvoids(parts[1], DigitChars);
      ParseNeedsDigit(Strip(parts[0]));
      ParseNeedsDigit(Strip(parts[1]));
    }
    ParseNeedsDigit(cleaned);
  }

  lemma {:induction false} TokensNeedDigit(t: string, p: nat, lead: Leading)
    requires p <= |t| && Avoids(t, DigitChars)
    ensures GroupedTokensFrom(t, p, lead) == []
    decreases |t| - p
  {
    if p < |t| {
      assert GroupedMatchAt(t, p, lead).None?;
      TokensNeedDigit(t, p + 1, lead);
    }
  }

  lemma {:induction false} BoxedNeedsDigit(t: string)
    requires Avoids(t, DigitChars) && BoxedContent(t).Some?
    ensures Avoids(BoxedContent(t).value, DigitChars)
  {
    var g := BoxedContent(t).value;
    var w := BoxedOpen + g + "}";
    var q: nat :| OccursAt(t, w, q);
    forall i | 0 <= i < |g| ensures g[i] !in DigitChars {
      assert w[|BoxedOpen| + i] == g[i];
      assert t[q..q + |w|][|BoxedOpen| + i] == t[q + |BoxedOpen| + i];
    }
  }

  lemma {:induction false} AfterLastNeedsDigit(t: string, sep: string)
    requires |sep| > 0 && Avoids(t, DigitChars)
    ensures Avoids(AfterLast(t, sep), DigitChars)
  {
    SplitAvoids(t, sep, DigitChars);
    StripAvoids(Last(Split(t, sep)), DigitChars);
  }

  lemma {:induction false} AnswerRuleNeedsDigit(t: string)
    requires Avoids(t, DigitChars)
    ensures CleanNumber(AfterLast(Upper(t), "ANSWER:")).None?
  {
    UpperKeepsDigits(t);
    AfterLastNeedsDigit(Upper(t), "ANSWER:");
    CleanNeedsDigit(AfterLast(Upper(t), "ANSWER:"));
  }

  lemma {:induction false} FractionRuleNeedsDigit(t: string, lead: Leading)
    requires Avoids(t, DigitChars)
    ensures FromFraction(t, lead).None?
  {
    CleanNeedsDigit(t);
    TokensNeedDigit(t, 0, lead);
  }

  lemma {:induction false} LaterRulesNeedDigit(t: string, lead: Leading)
    requires Avoids(t, DigitChars)
    ensures FromAnswer(t, lead).None?
  {
    if Contains(Upper(t), "ANSWER:") {
      AnswerRuleNeedsDigit(t);
    } else {
      FractionRuleNeedsDigit(t, lead);
    }
  }

  /** A text without a digit yields no number, so the judge compares it as text. */
  lemma {:induction false} GoldRuleNeedsDigit(t: string, lead: Leading)
    requires Avoids(t, DigitChars)
    ensures FromGold(t, lead).None?
  {
    AfterLastNeedsDigit(t, "####");
    CleanNeedsDigit(AfterLast(t, "####"));
    LaterRulesNeedDigit(t, lead);
  }

  lemma {:induction false} BoxedRuleNeedsDigit(t: string, lead: Leading)
    requires Avoids(t, DigitChars)
    ensures FromBoxed(t, lead).None?
  {
    if BoxedContent(t).Some? {
      BoxedNeedsDigit(t);
      CleanNeedsDigit(BoxedContent(t).value);
    }
    GoldRuleNeedsDigit(t, lead);
  }

  lemma {:induction false} ExtractNeedsDigit(text: string, lead: Leading)
    requires !HasDigit(text)
    ensures ExtractNumberWith(text, lead).None?
  {
    assert Avoids(text, DigitChars);
    StripAvoids(text, DigitChars);
    BoxedRuleNeedsDigit(Strip(text), lead);
  }

  /** When either side has no digit, `is_correct` is the comparison of the normalised texts. */
  lemma {:induction false} NoDigitsCompareAsText(predicted: string, expected: string, lead: Leading)
    requires !HasDigit(predicted) || !HasDigit(expected)
    ensures IsCorrectWith(predicted, expected, lead) <==> NormalizeText(predicted) == NormalizeText(expected)
  {
    if !HasDigit(predicted) {
      ExtractNeedsDigit(predicted, lead);
    } else {
      ExtractNeedsDigit(expected, lead);
    }
  }

  // ---------------------------------------------------------------------------
  // `_normalize_text`

  lemma {:induction false} RemoveLatexAvoids(t: string)
    requires Avoids(t, UpperCase)
    ensures Avoids(RemoveAll(RemoveAll(RemoveAll(RemoveAll(t, "\\"), "$"), "{"), "}"), UpperCase + LatexChars)
  {
    var u1 := RemoveAll(t, "\\");
    var u2 := RemoveAll(u1, "$");
    var u3 := RemoveAll(u2, "{");
    RemoveCharAvoids(t, '\\', UpperCase);
    RemoveCharAvoids(u1, '$', UpperCase + {'\\'});
    RemoveCharAvoids(u2, '{', UpperCase + {'\\'} + {'$'});
    RemoveCharAvoids(u3, '}', UpperCase + {'\\'} + {'$'} + {'{'});
    assert UpperCase + {'\\'} + {'$'} + {'{'} + {'}'} == UpperCase + LatexChars;
  }

  /**
   * The normalised text has no upper-case letter and no LaTeX character, and
   * is single-spaced with no whitespace at either end.
   */
  lemma {:induction false} NormalizeTextShape(text: string)
    ensures Avoids(NormalizeText(text), UpperCase + LatexChars)
    ensures SingleSpaced(NormalizeText(text))
  {
    var l := Lower(text);
    var t := Strip(l);
    StripAvoids(l, UpperCase);
    RemoveLatexAvoids(t);
    var u := RemoveAll(RemoveAll(RemoveAll(RemoveAll(t, "\\"), "$"), "{"), "}");
    WordsAvoid(u, UpperCase + LatexChars);
    JoinAvoids(Words(u), " ", UpperCase + LatexChars);
    JoinWordsSingleSpaced(Words(u));
  }

  /** Normalising twice is normalising once. */
  lemma {:induction false} NormalizeTextIdempotent(text: string)
    ensures NormalizeText(NormalizeText(text)) == NormalizeText(text)
  {
    var r := NormalizeText(text);
    NormalizeTextShape(text);
    LowerOfLowercase(r);
    StripOfTrimmed(r);
    RemoveCharOfAvoiding(r, '\\');
    RemoveCharOfAvoiding(r, '$');
    RemoveCharOfAvoiding(r, '{');
    RemoveCharOfAvoiding(r, '}');
    JoinWordsOfSingleSpaced(r);
  }

  // ---------------------------------------------------------------------------
  // `is_correct`

  /** Every answer is judged correct against itself, with either pattern. */
  lemma {:induction false} IsCorrectReflexive(answer: string, lead: Leading)
    ensures IsCorrectWith(answer, answer, lead)
  {
  }

  /** The judgement does not depend on which side is the prediction. */
  lemma {:induction false} IsCorrectSymmetric(predicted: string, expected: string, lead: Leading)
    ensures IsCorrectWith(predicted, expected, lead) == IsCorrectWith(expected, predicted, lead)
  {
  }

  /** Two plain whole numbers are judged equal exactly when they have the same value. */
  lemma {:induction false} PlainNumbersCompareByValue(d1: string, d2: string)
    requires |d1| > 0 && AllDigits(d1) && |d2| > 0 && AllDigits(d2)
    ensures IsCorrect(d1, d2) <==> DigitsValue(d1) == DigitsValue(d2)
  {
    DigitsText(d1, AnyLength);
    DigitsText(d2, AnyLength);
  }

  // ---------------------------------------------------------------------------
  // The cases `test_judge` checks

  /** As written, `2500` and `25000` are both read as `0`, so the judge accepts one for the other. */
  lemma {:induction false} FallbackMisreadsPlainNumbers()
    ensures ExtractNumberAsWritten("2500") == Some(Int(0))
    ensures ExtractNumberAsWritten("25000") == Some(Int(0))
    ensures IsCorrectAsWritten("2500", "25000")
  {
    assert AllDigits("250");
    assert AllDigits("0") && AllDigits("00");
    assert DigitsValue("0") == 0;
    assert DigitsValue("00") == 0;
    ChunkedDigits("250", "0");
    assert "250" + "0" == "2500";
    ChunkedDigits("250", "00");
    assert "250" + "00" == "25000";
  }

  /** Two answers that both yield an `int` are judged by equality of those integers. */
  lemma {:induction false} IntsCompareExactly(predicted: string, expected: string, lead: Leading, i: int, j: int)
    requires ExtractNumberWith(predicted, lead) == Some(Int(i))
    requires ExtractNumberWith(expected, lead) == Some(Int(j))
    ensures IsCorrectWith(predicted, expected, lead) <==> i == j
  {
  }

  lemma {:induction false} CriticalValues()
    ensures AllDigits("2500") && AllDigits("25000")
    ensures DigitsValue("2500") == 2500 && DigitsValue("25000") == 25000
  {
    assert "2500"[..3] == "250" && "250"[..2] == "25" && "25"[..1] == "2";
    assert "25000"[..4] == "2500";
  }

  lemma {:induction false} CriticalPlain()
    ensures ExtractNumber("2500") == Some(Int(2500))
    ensures ExtractNumber("25000") == Some(Int(25000))
  {
    CriticalValues();
    DigitsText("2500", AnyLength);
    DigitsText("25000", AnyLength);
  }

  lemma {:induction false} CriticalPlainCompare()
    ensures !IsCorrect("2500", "25000")
  {
    CriticalPlain();
    IntsCompareExactly("2500", "25000", AnyLength, 2500, 25000);
  }

  lemma {:induction false} CriticalFormatted(lead: Leading)
    ensures ExtractNumberWith("ANSWER: 2500", lead) == Some(Int(2500))
    ensures ExtractNumberWith("#### 25000", lead) == Some(Int(25000))
  {
    CriticalValues();
    assert Avoids("", {'\\', '#', 'a', 'A'});
    assert "" + "ANSWER: " + "2500" == "ANSWER: 2500";
    assert "" + "#### " + "25000" == "#### 25000";
    AnswerLineText("", "2500", lead);
    GoldAnswerText("", "25000", lead);
  }

  lemma {:induction false} CriticalFormattedCompare(lead: Leading)
    ensures !IsCorrectWith("ANSWER: 2500", "#### 25000", lead)
  {
    CriticalFormatted(lead);
    IntsCompareExactly("ANSWER: 2500", "#### 25000", lead, 2500, 25000);
  }

  /**
   * When both answers yield a number: two `int`s must be equal, anything
   * else must agree to within 0.01.
   */
  lemma {:induction false} NumbersCompare(predicted: string, expected: string, lead: Leading, x: Num, y: Num)
    requires ExtractNumberWith(predicted, lead) == Some(x)
    requires ExtractNumberWith(expected, lead) == Some(y)
    ensures x.Int? && y.Int? ==> (IsCorrectWith(predicted, expected, lead) <==> x.i == y.i)
    ensures !(x.Int? && y.Int?) ==>
      (IsCorrectWith(predicted, expected, lead) <==> -1.0 / 100.0 < Value(x) - Value(y) < 1.0 / 100.0)
  {
  }

  lemma {:induction false} FortyTwo()
    ensures AllDigits("42") && DigitsValue("42") == 42
  {
    assert "42"[..1] == "4";
  }

  /** `test_judge`: the GSM8K gold format. */
  lemma {:induction false} GoldExample(lead: Leading)
    ensures ExtractNumberWith("Some reasoning #### 42", lead) == Some(Int(42))
  {
    var r := "Some reasoning ";
    assert r + "#### " + "42" == "Some reasoning #### 42";
    FortyTwo();
    GoldAnswerText(r, "42", lead);
  }

  /** `test_judge`: the MATH boxed format. */
  lemma {:induction false} BoxedExample(lead: Leading)
    ensures ExtractNumberWith("Therefore \\boxed{42}", lead) == Some(Int(42))
  {
    var r := "Therefore ";
    assert r + BoxedOpen + "42" + "}" == "Therefore \\boxed{42}";
    FortyTwo();
    BoxedText(r, "42", lead);
  }

  /** `test_judge`: the solver's own format. */
  lemma {:induction false} AnswerExample(lead: Leading)
    ensures ExtractNumberWith("ANSWER: 42", lead) == Some(Int(42))
  {
    assert "" + "ANSWER: " + "42" == "ANSWER: 42";
    FortyTwo();
    AnswerLineText("", "42", lead);
  }

  lemma {:induction false} FractionOfValues(a: string, b: string, lead: Leading, x: nat, y: nat)
    requires |a| > 0 && AllDigits(a) && |b| > 0 && AllDigits(b)
    requires DigitsValue(a) == x && DigitsValue(b) == y && y != 0
    ensures ExtractNumberWith(a + "/" + b, lead) == Some(Whole(x as real / y as real))
  {
    FractionText(a, b, lead);
  }

  /** The values `test_judge` expects, as `_extract_number` types them. */
  lemma {:induction false} ExampleValues()
    ensures Whole(3 as real / 4 as real) == Float(0.75)
    ensures Whole(1 as real / 2 as real) == Float(0.5)
    ensures Whole(42.0) == Int(42)
    ensures Whole(42.5) == Float(42.5)
    ensures Whole(0.5) == Float(0.5)
    ensures Pow10(1) == 10
  {
  }

  /** `test_judge`: fractions. */
  lemma {:induction false} FractionExample(lead: Leading)
    ensures ExtractNumberWith("3/4", lead) == Some(Float(0.75))
  {
    assert AllDigits("3") && AllDigits("4") && DigitsValue("3") == 3 && DigitsValue("4") == 4;
    assert "3" + "/" + "4" == "3/4";
    FractionOfValues("3", "4", lead, 3, 4);
    ExampleValues();
  }

  lemma {:induction false} HalfExample(lead: Leading)
    ensures ExtractNumberWith("1/2", lead) == Some(Float(0.5))
  {
    assert AllDigits("1") && AllDigits("2") && DigitsValue("1") == 1 && DigitsValue("2") == 2;
    assert "1" + "/" + "2" == "1/2";
    FractionOfValues("1", "2", lead, 1, 2);
    ExampleValues();
  }

  /** `test_judge`: a whole value written with a point is an `int`, any other is a `float`. */
  lemma {:induction false} WholePointExample(lead: Leading)
    ensures ExtractNumberWith("42.0", lead) == Some(Int(42))
  {
    FortyTwo();
    assert AllDigits("0") && DigitsValue("0") == 0;
    assert "42" + "." + "0" == "42.0";
    ExampleValues();
    assert PointValue("42", "0") == 42.0;
    PointNumberText("42", "0", lead);
  }

  lemma {:induction false} PointExample(lead: Leading)
    ensures ExtractNumberWith("42.5", lead) == Some(Float(42.5))
  {
    FortyTwo();
    assert AllDigits("5") && DigitsValue("5") == 5;
    assert "42" + "." + "5" == "42.5";
    ExampleValues();
    assert PointValue("42", "5") == 42.5;
    PointNumberText("42", "5", lead);
  }

  lemma {:induction false} HalfPointExample(lead: Leading)
    ensures ExtractNumberWith("0.5", lead) == Some(Float(0.5))
  {
    assert AllDigits("0") && AllDigits("5") && DigitsValue("0") == 0 && DigitsValue("5") == 5;
    assert "0" + "." + "5" == "0.5";
    ExampleValues();
    assert PointValue("0", "5") == 0.5;
    PointNumberText("0", "5", lead);
  }

  /** `test_judge`: the comparisons other than the critical case. */
  lemma {:induction false} SameNumberExample(lead: Leading)
    ensures IsCorrectWith("42", "42", lead)
  {
    IsCorrectReflexive("42", lead);
  }

  lemma {:induction false} DifferentNumberExample(lead: Leading)
    ensures !IsCorrectWith("42", "43", lead)
  {
    FortyTwo();
    assert AllDigits("43") && DigitsValue("43") == 43 by { assert "43"[..1] == "4"; }
    DigitsText("42", lead);
    DigitsText("43", lead);
    IntsCompareExactly("42", "43", lead, 42, 43);
  }

  lemma {:induction false} BareGoldExample(lead: Leading)
    ensures ExtractNumberWith("#### 42", lead) == Some(Int(42))
  {
    assert "" + "#### " + "42" == "#### 42";
    FortyTwo();
    GoldAnswerText("", "42", lead);
  }

  lemma {:induction false} DigitsValues()
    ensures AllDigits("1000") && DigitsValue("1000") == 1000
    ensures AllDigits("1234") && DigitsValue("1234") == 1234
    ensures AllDigits("56") && DigitsValue("56") == 56
  {
    assert "1000"[..3] == "100" && "100"[..2] == "10" && "10"[..1] == "1";
    assert "1234"[..3] == "123" && "123"[..2] == "12" && "12"[..1] == "1";
    assert "56"[..1] == "5";
  }

  /** `test_judge`: thousands separators. */
  lemma {:induction false} CommaExample(lead: Leading)
    ensures ExtractNumberWith("Total: 1,000", lead) == Some(Int(1000))
  {
    var r := "Total: ";
    assert r + ("1" + "," + "000" + "") == "Total: 1,000";
    assert "1" + "000" + "" == "1000";
    assert Avoids(r, {'\\', '#', '/'}) && Avoids("Total: 1,000", {'W', 'w'});
    assert AllDigits("1") && AllDigits("000");
    DigitsValues();
    NoAnswerMarker("Total: 1,000", 'W', 3);
    CommaNumberText(r, "1", "000", "", lead);
    CleanDigits("1000");
  }

  /** `test_judge`: a currency sign and thousands separators around a decimal. */
  lemma {:induction false} CurrencyExample(lead: Leading)
    ensures ExtractNumberWith("The answer is $1,234.56", lead) == Some(Float(1234.56))
  {
    var r := "The answer is $";
    assert r + ("1" + "," + "234" + ".56") == "The answer is $1,234.56";
    assert "1" + "234" + ".56" == "1234" + "." + "56";
    assert Avoids(r, {'\\', '#', '/'}) && Avoids("The answer is $1,234.56", {':'});
    assert AllDigits("1") && AllDigits("234") && ".56"[1..] == "56";
    DigitsValues();
    NoAnswerMarker("The answer is $1,234.56", ':', 6);
    CommaNumberText(r, "1", "234", ".56", lead);
    CleanPointNumber("1234", "56");
    CurrencyValue();
  }

  lemma {:induction false} CurrencyValue()
    ensures AllDigits("1234") && AllDigits("56") && Whole(PointValue("1234", "56")) == Float(1234.56)
  {
    DigitsValues();
    assert Pow10(2) == 100;
    assert PointValue("1234", "56") == 1234.0 + 56.0 / 100.0 == 1234.56;
  }

  lemma {:induction false} ProseAvoids()
    ensures Avoids("First we get 10, then 20, final answer is ", {'\\', '#', ':', '/'})
  {
  }

  /** `test_judge`: with no format marker, the last number counts. */
  lemma {:induction false} LastNumberExample(lead: Leading)
    ensures ExtractNumberWith("First we get 10, then 20, final answer is 30", lead) == Some(Int(30))
  {
    var r := "First we get 10, then 20, final answer is ";
    ProseAvoids();
    assert r + "30" == "First we get 10, then 20, final answer is 30";
    assert AllDigits("30") && DigitsValue("30") == 30 by { assert "30"[..1] == "3"; }
    LastNumberText(r, "30", lead);
  }

  lemma {:induction false} FormatMismatchExample(lead: Leading)
    ensures IsCorrectWith("ANSWER: 42", "#### 42", lead)
  {
    AnswerExample(lead);
    BareGoldExample(lead);
    IntsCompareExactly("ANSWER: 42", "#### 42", lead, 42, 42);
  }

  lemma {:induction false} FractionDecimalExample(lead: Leading)
    ensures IsCorrectWith("1/2", "0.5", lead)
  {
    HalfExample(lead);
    HalfPointExample(lead);
    NumbersCompare("1/2", "0.5", lead, Float(0.5), Float(0.5));
  }

  // ---------------------------------------------------------------------------
  // `evaluate_with_reasoning`

  /** The dictionary `evaluate_with_reasoning` returns, without its free-text `reasoning` entry. */
  datatype Evaluation = Evaluation(
    success: bool,
    predicted: string,
    predictedNumber: Option<Num>,
    expected: string,
    expectedNumber: Option<Num>)

  /**
   * The verdict of `is_correct` together with the two numbers
   * `_extract_number` reads, with the fallback pattern `lead`; the question
   * plays no part. `EvaluateWithReasoning(q, s, e, UpToThree)` is the code as
   * written, `AnyLength` the corrected pattern.
   */
  function EvaluateWithReasoning(question: string, solution: string, expectedAnswer: string, lead: Leading): (r: Evaluation)
    ensures r.predicted == solution && r.expected == expectedAnswer
    ensures r.predictedNumber == ExtractNumberWith(solution, lead)
    ensures r.expectedNumber == ExtractNumberWith(expectedAnswer, lead)
    ensures r.success == IsCorrectWith(solution, expectedAnswer, lead)
    ensures r.predictedNumber.None? || r.expectedNumber.None? ==>
      (r.success <==> NormalizeText(solution) == NormalizeText(expectedAnswer))
    ensures r.predictedNumber.Some? && r.expectedNumber.Some? && r.predictedNumber.value.Int? && r.expectedNumber.value.Int? ==>
      (r.success <==> r.predictedNumber.value.i == r.expectedNumber.value.i)
    ensures r.predictedNumber.Some? && r.expectedNumber.Some? && !(r.predictedNumber.value.Int? && r.expectedNumber.value.Int?) ==>
      (r.success <==> -1.0 / 100.0 < Value(r.predictedNumber.value) - Value(r.expectedNumber.value) < 1.0 / 100.0)
    ensures !HasDigit(solution) ==> r.predictedNumber.None?
  {
    ExtractNeedsDigitIf(solution, lead);
    Evaluation(IsCorrectWith(solution, expectedAnswer, lead), solution, ExtractNumberWith(solution, lead),
               expectedAnswer, ExtractNumberWith(expectedAnswer, lead))
  }

  lemma {:induction false} ExtractNeedsDigitIf(text: string, lead: Leading)
    ensures !HasDigit(text) ==> ExtractNumberWith(text, lead).None?
  {
    if !HasDigit(text) {
      ExtractNeedsDigit(text, lead);
    }
  }

  /** As written, the evaluation of `2500` against `25000` reports both numbers as `0` and a success. */
  lemma {:induction false} EvaluateMisreadsPlainNumbers(question: string)
    ensures EvaluateWithReasoning(question, "2500", "25000", UpToThree)
      == Evaluation(true, "2500", Some(Int(0)), "25000", Some(Int(0)))
  {
    FallbackMisreadsPlainNumbers();
  }

  /** With the corrected pattern, the same evaluation reports 2500 and 25000 and a failure. */
  lemma {:induction false} EvaluateReadsPlainNumbers(question: string)
    ensures EvaluateWithReasoning(question, "2500", "25000", AnyLength)
      == Evaluation(false, "2500", Some(Int(2500)), "25000", Some(Int(25000)))
  {
    CriticalPlain();
    CriticalPlainCompare();
  }
}
