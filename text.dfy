/**
 * String primitives the Python code relies on (`in`, `str.index`, `str.split`,
 * `str.join`, `str.replace`, `str.strip`, `str.lower`/`upper`, `str(int)`),
 * restricted to ASCII, and the two regular expressions that more than one
 * source file uses (`-?\d+\.?\d*` and `\\boxed\{([^}]+)\}`), written out as
 * scanners with the leftmost, greedy semantics of Python's `re` module.
 */
module Text {
  import opened Wrappers

  // ---------------------------------------------------------------------------
  // Character classes (ASCII view of Python's Unicode classes)

  predicate IsDigit(c: char) { '0' <= c <= '9' }

  predicate IsAsciiUpper(c: char) { 'A' <= c <= 'Z' }

  predicate IsAsciiLower(c: char) { 'a' <= c <= 'z' }

  /** Regex `\w`: letters, digits and underscore. */
  predicate IsWordChar(c: char) { IsDigit(c) || IsAsciiUpper(c) || IsAsciiLower(c) || c == '_' }

  /** `str.isspace()` on ASCII: tab .. carriage return, the four separators 0x1C .. 0x1F, and space. */
  predicate IsSpace(c: char) { c == ' ' || '\t' <= c <= '\r' || '\U{1C}' <= c <= '\U{1F}' }

  function ToLower(c: char): char { if IsAsciiUpper(c) then (c as int + 32) as char else c }

  function ToUpper(c: char): char { if IsAsciiLower(c) then (c as int - 32) as char else c }

  /** `str.lower()` */
  function Lower(s: string): (r: string)
    ensures |r| == |s|
    ensures forall i :: 0 <= i < |s| ==> !IsAsciiUpper(r[i])
  {
    seq(|s|, i requires 0 <= i < |s| => ToLower(s[i]))
  }

  /** `str.upper()` */
  function Upper(s: string): (r: string)
    ensures |r| == |s|
    ensures forall i :: 0 <= i < |s| ==> !IsAsciiLower(r[i])
  {
    seq(|s|, i requires 0 <= i < |s| => ToUpper(s[i]))
  }

  lemma LowerOfLowercase(s: string)
    requires forall i :: 0 <= i < |s| ==> !IsAsciiUpper(s[i])
    ensures Lower(s) == s
  {
  }

  lemma UpperOfNoLower(s: string)
    requires forall i :: 0 <= i < |s| ==> !IsAsciiLower(s[i])
    ensures Upper(s) == s
  {
  }

  lemma LowerConcat(a: string, b: string)
    ensures Lower(a + b) == Lower(a) + Lower(b)
  {
  }

  lemma UpperConcat(a: string, b: string)
    ensures Upper(a + b) == Upper(a) + Upper(b)
  {
  }

  /** Upper-casing neither creates nor removes digits. */
  lemma UpperKeepsDigits(s: string)
    ensures forall i :: 0 <= i < |s| ==> (IsDigit(Upper(s)[i]) <==> IsDigit(s[i]))
  {
  }

  // ---------------------------------------------------------------------------
  // Substring search: `pat in s`, `s.index(pat)`

  predicate OccursAt(s: string, pat: string, i: nat)
  {
    i + |pat| <= |s| && s[i..i + |pat|] == pat
  }

  lemma NotOccursAt(s: string, pat: string, i: nat)
    requires |pat| > 0 && i < |s| && s[i] != pat[0]
    ensures !OccursAt(s, pat, i)
  {
    if i + |pat| <= |s| {
      assert s[i..i + |pat|][0] == s[i];
    }
  }

  /** Python's `pat in s`. */
  predicate Contains(s: string, pat: string)
  {
    exists i: nat | i <= |s| :: OccursAt(s, pat, i)
  }

  /** The first occurrence of `pat` at or after `from` (`s.find(pat, from)`). */
  function FindFrom(s: string, pat: string, from: nat): (r: Option<nat>)
    ensures r.Some? ==> from <= r.value && OccursAt(s, pat, r.value)
    ensures r.Some? ==> forall j :: from <= j < r.value ==> !OccursAt(s, pat, j)
    ensures r.None? ==> forall j :: from <= j ==> !OccursAt(s, pat, j)
    decreases |s| - from
  {
    if from + |pat| > |s| then None
    else if s[from..from + |pat|] == pat then Some(from)
    else FindFrom(s, pat, from + 1)
  }

  function Find(s: string, pat: string): (r: Option<nat>)
    ensures r.None? <==> !Contains(s, pat)
    ensures r.Some? ==> OccursAt(s, pat, r.value) && forall j :: 0 <= j < r.value ==> !OccursAt(s, pat, j)
  {
    FindFrom(s, pat, 0)
  }

  /** `find` returns the first occurrence. */
  lemma FindIsFirst(s: string, pat: string, i: nat)
    requires OccursAt(s, pat, i) && forall j :: 0 <= j < i ==> !OccursAt(s, pat, j)
    ensures Find(s, pat) == Some(i)
  {
    assert Contains(s, pat);
  }

  lemma OccursInPrefix(s: string, pat: string, n: nat, j: nat)
    requires n <= |s| && OccursAt(s[..n], pat, j)
    ensures OccursAt(s, pat, j)
  {
    assert s[..n][j..j + |pat|] == s[j..j + |pat|];
  }

  lemma OccursInSuffix(s: string, pat: string, n: nat, j: nat)
    requires n <= |s| && OccursAt(s[n..], pat, j)
    ensures OccursAt(s, pat, n + j)
  {
    assert s[n..][j..j + |pat|] == s[n + j..n + j + |pat|];
  }

  lemma OccursInSlice(s: string, pat: string, a: nat, b: nat, j: nat)
    requires a <= b <= |s| && OccursAt(s[a..b], pat, j)
    ensures OccursAt(s, pat, a + j)
  {
    forall k | 0 <= k < |pat| ensures s[a + j + k] == pat[k] {
      assert s[a..b][j..j + |pat|][k] == s[a + j + k];
    }
    assert s[a + j..a + j + |pat|] == pat;
  }

  // ---------------------------------------------------------------------------
  // `sep.join(parts)` and `s.split(sep)`

  function Join(parts: seq<string>, sep: string): string
  {
    if |parts| == 0 then ""
    else if |parts| == 1 then parts[0]
    else parts[0] + sep + Join(parts[1..], sep)
  }

  /**
   * `s.split(sep)` for a non-empty separator: occurrences are consumed left to
   * right without overlapping. Joining the parts with `sep` gives `s` back, and
   * no part contains `sep`.
   */
  function Split(s: string, sep: string): (parts: seq<string>)
    requires |sep| > 0
    ensures |parts| >= 1
    ensures Join(parts, sep) == s
    ensures forall k :: 0 <= k < |parts| ==> !Contains(parts[k], sep)
    decreases |s|
  {
    match Find(s, sep)
    case None => [s]
    case Some(i) =>
      var rest := Split(s[i + |sep|..], sep);
      assert s == s[..i] + sep + s[i + |sep|..] by {
        assert s[i..i + |sep|] == sep;
        assert s == s[..i] + s[i..i + |sep|] + s[i + |sep|..];
      }
      assert !Contains(s[..i], sep) by {
        forall j: nat | OccursAt(s[..i], sep, j) ensures false {
          OccursInPrefix(s, sep, i, j);
        }
      }
      [s[..i]] + rest
  }

  /** `xs[:n]`: the first `n` elements, or all of them when there are fewer. */
  function Take<T>(xs: seq<T>, n: nat): (r: seq<T>)
    ensures |r| == if n < |xs| then n else |xs|
    ensures r <= xs
    ensures |xs| <= n ==> r == xs
  {
    if n < |xs| then xs[..n] else xs
  }

  lemma AppendAssoc<T>(a: seq<T>, b: seq<T>, c: seq<T>)
    ensures (a + b) + c == a + (b + c)
  {
  }

  function Last<T>(xs: seq<T>): T
    requires |xs| > 0
  {
    xs[|xs| - 1]
  }

  /** `s.replace(pat, "")`: Python's replace is `"".join(s.split(pat))`. */
  function RemoveAll(s: string, pat: string): string
    requires |pat| > 0
  {
    Join(Split(s, pat), "")
  }

  lemma SplitWithout(s: string, sep: string)
    requires |sep| > 0 && !Contains(s, sep)
    ensures Split(s, sep) == [s]
  {
  }

  lemma RemoveAllAbsent(s: string, pat: string)
    requires |pat| > 0 && !Contains(s, pat)
    ensures RemoveAll(s, pat) == s
  {
    SplitWithout(s, pat);
  }

  // ---------------------------------------------------------------------------
  // Characters that a string avoids

  predicate Avoids(s: string, bad: set<char>)
  {
    forall i :: 0 <= i < |s| ==> s[i] !in bad
  }

  lemma AvoidsSlice(s: string, bad: set<char>, a: nat, b: nat)
    requires Avoids(s, bad) && a <= b <= |s|
    ensures Avoids(s[a..b], bad)
  {
    forall i | 0 <= i < b - a ensures s[a..b][i] !in bad {
      assert s[a..b][i] == s[a + i];
    }
  }

  lemma {:induction false} JoinAvoids(parts: seq<string>, sep: string, bad: set<char>)
    requires forall k :: 0 <= k < |parts| ==> Avoids(parts[k], bad)
    requires Avoids(sep, bad)
    ensures Avoids(Join(parts, sep), bad)
  {
    if |parts| > 1 {
      JoinAvoids(parts[1..], sep, bad);
      var tail := Join(parts[1..], sep);
      var r := parts[0] + sep + tail;
      forall i | 0 <= i < |r| ensures r[i] !in bad {
        if i < |parts[0]| {
          assert r[i] == parts[0][i];
        } else if i < |parts[0]| + |sep| {
          assert r[i] == sep[i - |parts[0]|];
        } else {
          assert r[i] == tail[i - |parts[0]| - |sep|];
        }
      }
    }
  }

  lemma {:induction false} SplitAvoids(s: string, sep: string, bad: set<char>)
    requires |sep| > 0 && Avoids(s, bad)
    ensures forall k :: 0 <= k < |Split(s, sep)| ==> Avoids(Split(s, sep)[k], bad)
    decreases |s|
  {
    match Find(s, sep)
    case None =>
    case Some(i) =>
      AvoidsSlice(s, bad, 0, i);
      assert s[..i] == s[0..i];
      AvoidsSlice(s, bad, i + |sep|, |s|);
      assert s[i + |sep|..] == s[i + |sep|..|s|];
      SplitAvoids(s[i + |sep|..], sep, bad);
  }

  lemma SingleCharAbsent(s: string, c: char)
    requires !Contains(s, [c])
    ensures Avoids(s, {c})
  {
    forall i | 0 <= i < |s| ensures s[i] !in {c} {
      assert !OccursAt(s, [c], i);
      assert s[i..i + 1] == [s[i]];
    }
  }

  /** Removing a character keeps every character the input avoided absent, and adds that character to them. */
  lemma RemoveCharAvoids(s: string, c: char, bad: set<char>)
    requires Avoids(s, bad)
    ensures Avoids(RemoveAll(s, [c]), bad + {c})
  {
    var parts := Split(s, [c]);
    SplitAvoids(s, [c], bad);
    forall k | 0 <= k < |parts| ensures Avoids(parts[k], bad + {c}) {
      SingleCharAbsent(parts[k], c);
    }
    JoinAvoids(parts, "", bad + {c});
  }

  lemma RemoveCharOfAvoiding(s: string, c: char)
    requires Avoids(s, {c})
    ensures RemoveAll(s, [c]) == s
  {
    forall i: nat | i <= |s| ensures !OccursAt(s, [c], i) {
      if i + 1 <= |s| {
        assert s[i..i + 1] == [s[i]];
      }
    }
    RemoveAllAbsent(s, [c]);
  }

  lemma AvoidsConcat(a: string, b: string, bad: set<char>)
    ensures Avoids(a + b, bad) <==> Avoids(a, bad) && Avoids(b, bad)
  {
    if Avoids(a, bad) && Avoids(b, bad) {
      forall i | 0 <= i < |a + b| ensures (a + b)[i] !in bad {
        if i >= |a| { assert (a + b)[i] == b[i - |a|]; }
      }
    }
    if Avoids(a + b, bad) {
      forall i | 0 <= i < |a| ensures a[i] !in bad {
        assert (a + b)[i] == a[i];
      }
      forall i | 0 <= i < |b| ensures b[i] !in bad {
        assert (a + b)[|a| + i] == b[i];
      }
    }
  }

  /** A string that lacks the first character of `pat` cannot contain `pat`. */
  lemma AvoidsFirstNotContains(s: string, pat: string)
    requires |pat| > 0 && Avoids(s, {pat[0]})
    ensures !Contains(s, pat)
  {
    forall i: nat | i <= |s| && OccursAt(s, pat, i) ensures false {
    }
  }

  /** The first occurrence of `sep` in `a + sep + b` is the one after `a` when `a` lacks its first character. */
  lemma SplitOnce(a: string, sep: string, b: string)
    requires |sep| > 0 && Avoids(a, {sep[0]}) && !Contains(b, sep)
    ensures Split(a + sep + b, sep) == [a, b]
  {
    var s := a + sep + b;
    assert OccursAt(s, sep, |a|) by { assert s[|a|..|a| + |sep|] == sep; }
    assert Find(s, sep) == Some(|a|) by {
      var i := Find(s, sep).value;
      if i < |a| {
        assert false;
      }
    }
    assert s[..|a|] == a;
    assert s[|a| + |sep|..] == b;
    SplitWithout(b, sep);
  }

  /** An occurrence of `pat` cannot cover a character that `pat` lacks. */
  lemma OccursAround(s: string, pat: string, j: nat, k: nat)
    requires k < |s| && Avoids(pat, {s[k]})
    ensures OccursAt(s, pat, j) ==> j + |pat| <= k || k < j
  {
    if j <= k < j + |pat| <= |s| {
      assert s[j..j + |pat|][k - j] == s[k];
    }
  }

  /** An occurrence that lies inside `s[lo..hi]` is one of the slice. */
  lemma OccursWithin(s: string, pat: string, lo: nat, hi: nat, j: nat)
    requires lo <= j && j + |pat| <= hi <= |s|
    ensures OccursAt(s, pat, j) <==> OccursAt(s[lo..hi], pat, j - lo)
  {
    forall k | j <= k < j + |pat| ensures s[lo..hi][k - lo] == s[k] {
    }
    assert s[lo..hi][j - lo..j - lo + |pat|] == s[j..j + |pat|];
  }

  /** Around a character that `pat` lacks, `pat` can only occur on one side. */
  lemma {:induction false} ContainsAcross(a: string, c: char, b: string, pat: string)
    requires Avoids(pat, {c})
    ensures Contains(a + [c] + b, pat) ==> Contains(a, pat) || Contains(b, pat)
  {
    var s := a + [c] + b;
    forall j: nat | j <= |s| && OccursAt(s, pat, j) ensures Contains(a, pat) || Contains(b, pat) {
      OccursAround(s, pat, j, |a|);
      if j + |pat| <= |a| {
        OccursWithin(s, pat, 0, |a|, j);
        assert s[0..|a|] == a;
      } else {
        OccursWithin(s, pat, |a| + 1, |s|, j);
        assert s[|a| + 1..|s|] == b;
      }
    }
  }

  /** No occurrence of `sep` starts inside `a` when `a` lacks `sep` and ends with a character `sep` lacks. */
  lemma {:induction false} NoOccurrenceBefore(a: string, sep: string, b: string)
    requires |a| > 0 && Avoids(sep, {a[|a| - 1]}) && !Contains(a, sep)
    ensures forall j :: 0 <= j < |a| ==> !OccursAt(a + sep + b, sep, j)
  {
    var s := a + sep + b;
    assert s[|a| - 1] == a[|a| - 1];
    assert s[0..|a|] == a;
    forall j | 0 <= j < |a| ensures !OccursAt(s, sep, j) {
      OccursAround(s, sep, j, |a| - 1);
      if j + |sep| <= |a| {
        OccursWithin(s, sep, 0, |a|, j);
      }
    }
  }

  /** When `sep` first occurs right after `a`, splitting yields `a` and then the parts of what follows. */
  lemma {:induction false} SplitFirst(a: string, sep: string, b: string)
    requires |sep| > 0
    requires forall j :: 0 <= j < |a| ==> !OccursAt(a + sep + b, sep, j)
    ensures Split(a + sep + b, sep) == [a] + Split(b, sep)
  {
    var s := a + sep + b;
    assert OccursAt(s, sep, |a|) by { assert s[|a|..|a| + |sep|] == sep; }
    assert Find(s, sep) == Some(|a|);
    assert s[..|a|] == a;
    assert s[|a| + |sep|..] == b;
  }

  /** `" " + s + "\n"` contains a pattern free of blanks only if `s` does. */
  lemma {:induction false} PaddedAvoids(s: string, pat: string)
    requires |pat| > 0 && Avoids(pat, {' '}) && Avoids(pat, {'\n'}) && !Contains(s, pat)
    ensures !Contains(" " + s + "\n", pat)
    ensures !Contains(" " + s, pat)
  {
    ContainsAcross(s, '\n', "", pat);
    assert s + "\n" == s + ['\n'] + "";
    ContainsAcross("", ' ', s + "\n", pat);
    assert " " + s + "\n" == "" + [' '] + (s + "\n");
    ContainsAcross("", ' ', s, pat);
    assert " " + s == "" + [' '] + s;
  }

  /** A joined list ends with its last part, after the last separator. */
  lemma {:induction false} JoinLast(parts: seq<string>, sep: string)
    requires |parts| >= 2
    ensures Join(parts, sep) == Join(parts[..|parts| - 1], sep) + sep + Last(parts)
  {
    if |parts| > 2 {
      JoinLast(parts[1..], sep);
      assert parts[..|parts| - 1][1..] == parts[1..][..|parts| - 2];
    }
  }

  /**
   * The last part of a split is the text after some occurrence of the
   * separator, and holds no occurrence itself.
   */
  lemma {:induction false} SplitLastOccurrence(s: string, sep: string)
    requires |sep| > 0 && |Split(s, sep)| >= 2
    ensures exists i :: 0 <= i && OccursAt(s, sep, i) && s[i + |sep|..] == Last(Split(s, sep))
    ensures !Contains(Last(Split(s, sep)), sep)
  {
    var parts := Split(s, sep);
    JoinLast(parts, sep);
    var head := Join(parts[..|parts| - 1], sep);
    var i := |head|;
    assert s == head + sep + Last(parts);
    assert s[i..i + |sep|] == sep;
    assert s[i + |sep|..] == Last(parts);
    assert OccursAt(s, sep, i);
  }

  /** `sep in s` exactly when `s.split(sep)` has more than one part. */
  lemma SplitContains(s: string, sep: string)
    requires |sep| > 0
    ensures Contains(s, sep) <==> |Split(s, sep)| >= 2
  {
  }

  /** Stripping cannot create an occurrence. */
  lemma StripKeepsAbsent(s: string, pat: string)
    requires !Contains(s, pat)
    ensures !Contains(Strip(s), pat)
  {
    var a, b := StripSlice(s);
    forall j: nat | j <= |s[a..b]| ensures !OccursAt(s[a..b], pat, j) {
      if OccursAt(s[a..b], pat, j) {
        OccursInSlice(s, pat, a, b, j);
      }
    }
  }

  /** Text that neither starts nor ends with whitespace (what `strip` returns). */
  predicate Trimmed(s: string)
  {
    |s| > 0 ==> !IsSpace(s[0]) && !IsSpace(s[|s| - 1])
  }

  lemma StripIsTrimmed(s: string)
    ensures Trimmed(Strip(s))
  {
    var _, _ := StripSlice(s);
  }

  /** Stripping a space in front and a newline behind gives back trimmed text. */
  lemma {:induction false} StripPadded(s: string)
    requires Trimmed(s)
    ensures Strip(" " + s + "\n") == s
    ensures Strip(" " + s) == s
  {
    var padded := " " + s + "\n";
    assert padded[1..] == s + "\n";
    assert (" " + s)[1..] == s;
    if |s| == 0 {
      assert padded == " \n" && " " + s == " ";
      assert TrimStart("\n") == TrimStart("\n"[1..]) == "";
    } else {
      assert (s + "\n")[0] == s[0];
      assert TrimStart(padded) == s + "\n";
      assert (s + "\n")[..|s|] == s;
      assert TrimEnd(s + "\n") == TrimEnd(s) == s;
      assert TrimStart(" " + s) == TrimStart(s) == s;
    }
  }

  /** `s.split(sep)[-1].strip()`: the stripped text after the last `sep`. */
  function AfterLast(s: string, sep: string): string
    requires |sep| > 0
  {
    Strip(Last(Split(s, sep)))
  }

  // ---------------------------------------------------------------------------
  // `str.strip()`

  function TrimStart(s: string): (r: string)
    ensures |r| <= |s|
  {
    if |s| > 0 && IsSpace(s[0]) then TrimStart(s[1..]) else s
  }

  /** `TrimStart` removes exactly the leading whitespace. */
  lemma {:induction false} TrimStartSpec(s: string)
    ensures TrimStart(s) == s[|s| - |TrimStart(s)|..]
    ensures forall i :: 0 <= i < |s| - |TrimStart(s)| ==> IsSpace(s[i])
    ensures |TrimStart(s)| > 0 ==> !IsSpace(TrimStart(s)[0])
  {
    if |s| > 0 && IsSpace(s[0]) {
      TrimStartSpec(s[1..]);
      forall i | 1 <= i < |s| - |TrimStart(s)| ensures IsSpace(s[i]) {
        assert s[i] == s[1..][i - 1];
      }
    }
  }

  function TrimEnd(s: string): (r: string)
    ensures |r| <= |s|
  {
    if |s| > 0 && IsSpace(s[|s| - 1]) then TrimEnd(s[..|s| - 1]) else s
  }

  /** `TrimEnd` removes exactly the trailing whitespace. */
  lemma {:induction false} TrimEndSpec(s: string)
    ensures TrimEnd(s) == s[..|TrimEnd(s)|]
    ensures forall i :: |TrimEnd(s)| <= i < |s| ==> IsSpace(s[i])
    ensures |TrimEnd(s)| > 0 ==> !IsSpace(TrimEnd(s)[|TrimEnd(s)| - 1])
  {
    if |s| > 0 && IsSpace(s[|s| - 1]) {
      TrimEndSpec(s[..|s| - 1]);
      forall i | |TrimEnd(s)| <= i < |s| - 1 ensures IsSpace(s[i]) {
        assert s[i] == s[..|s| - 1][i];
      }
    }
  }

  /** `s.strip()`: whitespace removed at both ends. */
  function Strip(s: string): string
  {
    TrimEnd(TrimStart(s))
  }

  /**
   * The result of `strip` is the slice of `s` left after removing the
   * whitespace at both ends; it neither starts nor ends with whitespace.
   */
  lemma StripSlice(s: string) returns (a: nat, b: nat)
    ensures a <= b <= |s| && Strip(s) == s[a..b]
    ensures forall i :: 0 <= i < a ==> IsSpace(s[i])
    ensures forall i :: b <= i < |s| ==> IsSpace(s[i])
    ensures |Strip(s)| > 0 ==> !IsSpace(Strip(s)[0]) && !IsSpace(Strip(s)[|Strip(s)| - 1])
  {
    var t := TrimStart(s);
    var r := TrimEnd(t);
    TrimStartSpec(s);
    TrimEndSpec(t);
    a := |s| - |t|;
    b := a + |r|;
    assert r == s[a..b];
    forall i | b <= i < |s| ensures IsSpace(s[i]) {
      assert s[i] == t[i - a];
    }
    if |r| > 0 {
      assert r[0] == t[0];
    }
  }

  lemma StripOfTrimmed(s: string)
    requires |s| > 0 ==> !IsSpace(s[0]) && !IsSpace(s[|s| - 1])
    ensures Strip(s) == s
  {
  }

  lemma StripAvoids(s: string, bad: set<char>)
    requires Avoids(s, bad)
    ensures Avoids(Strip(s), bad)
  {
    var a, b := StripSlice(s);
    AvoidsSlice(s, bad, a, b);
  }

  // ---------------------------------------------------------------------------
  // `s.split()` (no argument) and `" ".join(...)`

  /** Length of the run of non-whitespace characters at the start of `s`. */
  function WordLength(s: string): (k: nat)
    ensures k <= |s|
    ensures forall i :: 0 <= i < k ==> !IsSpace(s[i])
    ensures k < |s| ==> IsSpace(s[k])
  {
    if |s| == 0 || IsSpace(s[0]) then 0 else 1 + WordLength(s[1..])
  }

  predicate IsWord(w: string)
  {
    |w| > 0 && forall i :: 0 <= i < |w| ==> !IsSpace(w[i])
  }

  /** `s.split()`: the maximal runs of non-whitespace characters, in order. */
  function Words(s: string): (ws: seq<string>)
    ensures forall k :: 0 <= k < |ws| ==> IsWord(ws[k])
    decreases |s|
  {
    if |s| == 0 then []
    else if IsSpace(s[0]) then Words(s[1..])
    else
      var k := WordLength(s);
      [s[..k]] + Words(s[k..])
  }

  lemma {:induction false} WordsAvoid(s: string, bad: set<char>)
    requires Avoids(s, bad)
    ensures forall k :: 0 <= k < |Words(s)| ==> Avoids(Words(s)[k], bad)
    decreases |s|
  {
    if |s| == 0 {
    } else if IsSpace(s[0]) {
      AvoidsSlice(s, bad, 1, |s|);
      assert s[1..] == s[1..|s|];
      WordsAvoid(s[1..], bad);
    } else {
      var k := WordLength(s);
      AvoidsSlice(s, bad, 0, k);
      assert s[..k] == s[0..k];
      AvoidsSlice(s, bad, k, |s|);
      assert s[k..] == s[k..|s|];
      WordsAvoid(s[k..], bad);
    }
  }

  /** A string with no whitespace at either end, and only single spaces inside. */
  predicate SingleSpaced(r: string)
  {
    && (|r| > 0 ==> !IsSpace(r[0]) && !IsSpace(r[|r| - 1]))
    && (forall i :: 0 <= i < |r| && IsSpace(r[i]) ==> r[i] == ' ')
    && (forall i :: 0 <= i < |r| - 1 && IsSpace(r[i]) ==> !IsSpace(r[i + 1]))
  }

  lemma {:induction false} JoinWordsSingleSpaced(ws: seq<string>)
    requires forall k :: 0 <= k < |ws| ==> IsWord(ws[k])
    ensures SingleSpaced(Join(ws, " "))
    ensures |ws| > 0 ==> |Join(ws, " ")| > 0
  {
    if |ws| > 1 {
      JoinWordsSingleSpaced(ws[1..]);
      var w, tail := ws[0], Join(ws[1..], " ");
      var r := w + " " + tail;
      assert r == Join(ws, " ");
      forall i | 0 <= i < |r| && IsSpace(r[i]) ensures r[i] == ' ' {
        if i > |w| { assert r[i] == tail[i - |w| - 1]; }
      }
      forall i | 0 <= i < |r| - 1 && IsSpace(r[i]) ensures !IsSpace(r[i + 1]) {
        if i > |w| {
          assert r[i] == tail[i - |w| - 1];
          assert r[i + 1] == tail[i - |w|];
        }
      }
      assert r[|r| - 1] == tail[|tail| - 1];
    }
  }

  /** What follows the first blank of a single-spaced string is single-spaced and not empty. */
  lemma {:induction false} SingleSpacedAfterBlank(r: string, k: nat)
    requires SingleSpaced(r) && k < |r| && IsSpace(r[k])
    ensures r[k] == ' ' && 0 < k + 1 < |r|
    ensures SingleSpaced(r[k + 1..]) && !IsSpace(r[k + 1])
  {
    var rest := r[k + 1..];
    assert |rest| > 0 && !IsSpace(rest[0]) by { assert rest[0] == r[k + 1]; }
    forall i | 0 <= i < |rest| - 1 && IsSpace(rest[i]) ensures !IsSpace(rest[i + 1]) {
      assert rest[i] == r[k + 1 + i] && rest[i + 1] == r[k + 2 + i];
    }
    forall i | 0 <= i < |rest| && IsSpace(rest[i]) ensures rest[i] == ' ' {
      assert rest[i] == r[k + 1 + i];
    }
  }

  /** The words of a string that starts with one blank and then a word character. */
  lemma {:induction false} WordsAfterBlank(t: string)
    requires |t| > 1 && t[0] == ' ' && !IsSpace(t[1])
    ensures Words(t) == Words(t[1..]) && Words(t[1..]) != []
  {
    assert WordLength(t[1..]) > 0;
  }

  lemma AroundBlank(r: string, k: nat)
    requires k < |r| && r[k] == ' '
    ensures r == r[..k] + " " + r[k + 1..]
  {
  }

  lemma JoinCons(w: string, ws: seq<string>, sep: string)
    requires ws != []
    ensures Join([w] + ws, sep) == w + sep + Join(ws, sep)
  {
    assert ([w] + ws)[1..] == ws;
  }

  /** On a single-spaced string, splitting on whitespace and joining with one space is the identity. */
  lemma {:induction false} JoinWordsOfSingleSpaced(r: string)
    requires SingleSpaced(r)
    ensures Join(Words(r), " ") == r
    decreases |r|
  {
    if |r| > 0 {
      var k := WordLength(r);
      if k < |r| {
        SingleSpacedAfterBlank(r, k);
        var rest := r[k + 1..];
        JoinWordsOfSingleSpaced(rest);
        assert r[k..][1..] == rest;
        WordsAfterBlank(r[k..]);
        var ws := Words(rest);
        assert Words(r) == [r[..k]] + ws;
        JoinCons(r[..k], ws, " ");
        AroundBlank(r, k);
      } else {
        assert r[k..] == [];
        assert r[..k] == r;
      }
    }
  }

  // ---------------------------------------------------------------------------
  // `str(n)` for a natural number, and its inverse

  function DigitChar(d: nat): char
    requires d < 10
  {
    ('0' as int + d) as char
  }

  function NatToString(n: nat): (r: string)
    ensures |r| > 0 && forall i :: 0 <= i < |r| ==> IsDigit(r[i])
  {
    if n < 10 then [DigitChar(n)] else NatToString(n / 10) + [DigitChar(n % 10)]
  }

  predicate AllDigits(s: string)
  {
    forall i :: 0 <= i < |s| ==> IsDigit(s[i])
  }

  /** A string of digits avoids every set of non-digits. */
  lemma DigitsAvoid(d: string, bad: set<char>)
    requires AllDigits(d) && forall c :: c in bad ==> !IsDigit(c)
    ensures Avoids(d, bad)
  {
  }

  /** The value of a string of decimal digits (`int(s)`). */
  function DigitsValue(s: string): nat
    requires forall i :: 0 <= i < |s| ==> IsDigit(s[i])
  {
    if |s| == 0 then 0
    else
      assert IsDigit(s[|s| - 1]);
      10 * DigitsValue(s[..|s| - 1]) + (s[|s| - 1] as int - '0' as int)
  }

  /** `int(str(n)) == n`, so `str` is injective on naturals. */
  lemma {:induction false} NatToStringRoundTrip(n: nat)
    ensures DigitsValue(NatToString(n)) == n
  {
    if n >= 10 {
      NatToStringRoundTrip(n / 10);
      var r := NatToString(n);
      assert r[..|r| - 1] == NatToString(n / 10);
    }
  }

  lemma NatToStringInjective(m: nat, n: nat)
    requires NatToString(m) == NatToString(n)
    ensures m == n
  {
    NatToStringRoundTrip(m);
    NatToStringRoundTrip(n);
  }

  // ---------------------------------------------------------------------------
  // The regular expression `-?\d+\.?\d*` with `re.findall`

  /** End of the run of digits that starts at `i`. */
  function DigitRunEnd(s: string, i: nat): (j: nat)
    requires i <= |s|
    ensures i <= j <= |s|
    ensures forall k :: i <= k < j ==> IsDigit(s[k])
    ensures j < |s| ==> !IsDigit(s[j])
    decreases |s| - i
  {
    if i < |s| && IsDigit(s[i]) then DigitRunEnd(s, i + 1) else i
  }

  /**
   * Where a match of `-?\d+\.?\d*` starting at `i` ends. Every part after the
   * digits is optional, so the greedy first attempt never backtracks; a `-`
   * not followed by a digit gives no match at `i`.
   */
  function DecimalMatchAt(s: string, i: nat): (e: Option<nat>)
    requires i <= |s|
    ensures e.Some? ==> i < e.value <= |s|
    ensures e.Some? <==> (i < |s| && IsDigit(s[i])) || (i + 1 < |s| && s[i] == '-' && IsDigit(s[i + 1]))
  {
    var k := if i < |s| && s[i] == '-' then i + 1 else i;
    if k < |s| && IsDigit(s[k]) then
      var j := DigitRunEnd(s, k);
      Some(if j < |s| && s[j] == '.' then DigitRunEnd(s, j + 1) else j)
    else None
  }

  /** `re.findall(r'-?\d+\.?\d*', s[p:])`. */
  function DecimalTokensFrom(s: string, p: nat): (tokens: seq<string>)
    requires p <= |s|
    ensures forall k :: 0 <= k < |tokens| ==> |tokens[k]| > 0 && Contains(s, tokens[k])
    decreases |s| - p
  {
    if p == |s| then []
    else match DecimalMatchAt(s, p)
      case Some(e) =>
        assert OccursAt(s, s[p..e], p);
        [s[p..e]] + DecimalTokensFrom(s, e)
      case None => DecimalTokensFrom(s, p + 1)
  }

  /** The last match of `-?\d+\.?\d*` in `s`, if any: a non-empty piece of `s`. */
  function LastDecimalToken(s: string): (r: Option<string>)
    ensures r.Some? ==> |r.value| > 0 && Contains(s, r.value)
  {
    var tokens := DecimalTokensFrom(s, 0);
    if |tokens| == 0 then None else Some(Last(tokens))
  }

  /**
   * A numeral the pattern matches in full: an optional `-`, a non-empty run
   * of digits, and optionally a `.` followed by any number of digits.
   */
  predicate IsDecimalNumeral(sign: string, whole: string, frac: string)
  {
    && (sign == "" || sign == "-")
    && |whole| > 0 && AllDigits(whole)
    && (frac == "" || (frac[0] == '.' && AllDigits(frac[1..])))
  }

  /** A character that cannot be the last one before a match without joining it. */
  predicate EndsMatches(c: char)
  {
    !IsDigit(c) && c != '.' && c != '-'
  }

  lemma {:induction false} DigitRunStops(s: string, i: nat, m: nat)
    requires i <= m < |s| && !IsDigit(s[m])
    ensures DigitRunEnd(s, i) <= m
    decreases |s| - i
  {
    if i < m {
      DigitRunStops(s, i + 1, m);
    }
  }

  /** A match that starts before a separating character ends at or before it. */
  lemma {:induction false} DecimalMatchStops(s: string, i: nat, n: nat)
    requires i < n <= |s| && EndsMatches(s[n - 1])
    ensures DecimalMatchAt(s, i).Some? ==> DecimalMatchAt(s, i).value <= n - 1
  {
    var k := if i < |s| && s[i] == '-' then i + 1 else i;
    if k < n - 1 {
      DigitRunStops(s, k, n - 1);
      var j := DigitRunEnd(s, k);
      if j < |s| && s[j] == '.' {
        DigitRunStops(s, j + 1, n - 1);
      }
    }
  }

  /** When no match starting in `[p, n)` runs past `n`, the scan from `p` ends with the tokens found from `n`. */
  lemma {:induction false} DecimalTokensReach(s: string, p: nat, n: nat)
    requires p <= n <= |s|
    requires forall i :: p <= i < n && DecimalMatchAt(s, i).Some? ==> DecimalMatchAt(s, i).value <= n
    requires |DecimalTokensFrom(s, n)| > 0
    ensures |DecimalTokensFrom(s, p)| > 0 && Last(DecimalTokensFrom(s, p)) == Last(DecimalTokensFrom(s, n))
    decreases n - p
  {
    if p < n {
      match DecimalMatchAt(s, p)
      case Some(e) =>
        DecimalTokensReach(s, e, n);
      case None =>
        DecimalTokensReach(s, p + 1, n);
    }
  }

  /** The digit run over `whole` stops exactly at its end. */
  lemma {:induction false} DigitRunOver(s: string, i: nat, whole: string)
    requires i + |whole| <= |s| && s[i..i + |whole|] == whole && AllDigits(whole)
    requires i + |whole| == |s| || !IsDigit(s[i + |whole|])
    ensures DigitRunEnd(s, i) == i + |whole|
    decreases |s| - i
  {
    if |whole| > 0 {
      assert s[i] == whole[0];
      assert s[i + 1..i + 1 + |whole[1..]|] == whole[1..];
      DigitRunOver(s, i + 1, whole[1..]);
    }
  }

  /** Where the sign, the digits and the fractional part of a numeral at `n` lie. */
  lemma {:induction false} NumeralParts(s: string, n: nat, sign: string, whole: string, frac: string)
    requires IsDecimalNumeral(sign, whole, frac) && n <= |s| && s[n..] == sign + whole + frac
    ensures n + |sign| + |whole| + |frac| == |s|
    ensures (if n < |s| && s[n] == '-' then n + 1 else n) == n + |sign|
    ensures IsDigit(s[n + |sign|])
    ensures s[n + |sign|..n + |sign| + |whole|] == whole
    ensures frac != "" ==> s[n + |sign| + |whole|] == '.' && s[n + |sign| + |whole| + 1..] == frac[1..]
  {
    var t := sign + whole + frac;
    var j := |sign| + |whole|;
    assert t[|sign|..j] == whole;
    assert t[j..] == frac;
    assert s[n] == t[0];
    assert s[n + |sign|] == t[|sign|] == whole[0];
    assert s[n + |sign|..n + j] == s[n..][|sign|..j];
    if frac != "" {
      assert s[n + j] == t[j] == frac[0];
      assert s[n + j + 1..] == s[n..][j + 1..] == t[j..][1..];
    }
  }

  /** The match at `n` runs to the end of the text. */
  lemma {:induction false} DecimalMatchOfNumeral(s: string, n: nat, sign: string, whole: string, frac: string)
    requires IsDecimalNumeral(sign, whole, frac) && n <= |s| && s[n..] == sign + whole + frac
    ensures DecimalMatchAt(s, n) == Some(|s|)
  {
    NumeralParts(s, n, sign, whole, frac);
    var k := n + |sign|;
    var j := k + |whole|;
    DigitRunOver(s, k, whole);
    if frac != "" {
      DigitRunOver(s, j + 1, frac[1..]);
    }
  }

  /** A numeral at the end of the text is matched in full. */
  lemma {:induction false} DecimalMatchWhole(pre: string, sign: string, whole: string, frac: string)
    requires IsDecimalNumeral(sign, whole, frac)
    ensures DecimalTokensFrom(pre + (sign + whole + frac), |pre|) == [sign + whole + frac]
  {
    var t := sign + whole + frac;
    var s := pre + t;
    assert s[|pre|..] == t;
    DecimalMatchOfNumeral(s, |pre|, sign, whole, frac);
    assert s[|pre|..|s|] == t;
  }

  /**
   * `re.findall(r'-?\d+\.?\d*', s)[-1]` is the numeral that ends the text,
   * whenever the text before it ends in a character that cannot join it.
   */
  lemma {:induction false} LastDecimalTokenOfEnd(pre: string, sign: string, whole: string, frac: string)
    requires IsDecimalNumeral(sign, whole, frac)
    requires pre == "" || EndsMatches(pre[|pre| - 1])
    ensures LastDecimalToken(pre + (sign + whole + frac)) == Some(sign + whole + frac)
  {
    var s := pre + (sign + whole + frac);
    DecimalMatchWhole(pre, sign, whole, frac);
    if pre != "" {
      assert s[|pre| - 1] == pre[|pre| - 1];
      forall i | 0 <= i < |pre| && DecimalMatchAt(s, i).Some? ensures DecimalMatchAt(s, i).value <= |pre| {
        DecimalMatchStops(s, i, |pre|);
      }
    }
    DecimalTokensReach(s, 0, |pre|);
  }

  predicate HasDigit(s: string)
  {
    exists i :: 0 <= i < |s| && IsDigit(s[i])
  }

  lemma {:induction false} DecimalTokensFromEmpty(s: string, p: nat)
    requires p <= |s|
    ensures DecimalTokensFrom(s, p) == [] <==> forall i :: p <= i < |s| ==> !IsDigit(s[i])
    decreases |s| - p
  {
    if p < |s| {
      DecimalTokensFromEmpty(s, p + 1);
    }
  }

  /** The last-number fallback finds something exactly when the text has a digit. */
  lemma LastDecimalTokenNone(s: string)
    ensures LastDecimalToken(s).None? <==> !HasDigit(s)
  {
    DecimalTokensFromEmpty(s, 0);
  }

  // ---------------------------------------------------------------------------
  // The regular expression `\\boxed\{([^}]+)\}` with `re.search(...).group(1)`

  const BoxedOpen: string := "\\boxed{"

  /** The group of a match that starts at `p`: the text up to the first `}`, if non-empty. */
  function BoxedAt(s: string, p: nat): Option<string>
  {
    if OccursAt(s, BoxedOpen, p) then
      match FindFrom(s, "}", p + |BoxedOpen|)
      case Some(q) => if q > p + |BoxedOpen| then Some(s[p + |BoxedOpen|..q]) else None
      case None => None
    else None
  }

  /**
   * The leftmost match's group. Whatever is found is non-empty, holds no `}`,
   * and occurs in `s` between `\boxed{` and `}`.
   */
  function BoxedFrom(s: string, p: nat): (g: Option<string>)
    requires p <= |s|
    ensures g.Some? ==> |g.value| > 0 && !Contains(g.value, "}")
    ensures g.Some? ==> exists q: nat :: p <= q && OccursAt(s, BoxedOpen + g.value + "}", q)
    decreases |s| - p
  {
    if p == |s| then None
    else match BoxedAt(s, p)
      case Some(group) =>
        var q :| FindFrom(s, "}", p + |BoxedOpen|) == Some(q);
        var whole := BoxedOpen + group + "}";
        assert s[p..p + |whole|] == whole by {
          assert s[p..p + |BoxedOpen|] == BoxedOpen;
          assert s[q..q + 1] == "}";
          assert s[p..p + |whole|] == s[p..p + |BoxedOpen|] + s[p + |BoxedOpen|..q] + s[q..q + 1];
        }
        assert OccursAt(s, whole, p);
        assert !Contains(group, "}") by {
          forall j: nat | OccursAt(group, "}", j) ensures false {
            OccursInSlice(s, "}", p + |BoxedOpen|, q, j);
          }
        }
        Some(group)
      case None => BoxedFrom(s, p + 1)
  }

  function BoxedContent(s: string): Option<string>
  {
    BoxedFrom(s, 0)
  }
}
