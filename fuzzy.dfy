/** The lenient free-text answer check written out identically in Marathon
    mode (`checkAnswer`) and Test mode (`calculateScore`): the user's input is
    lower-cased and trimmed, the card's answer only lower-cased, and the input
    counts as correct when either contains the other, or when an input longer
    than three characters, with its last character dropped, occurs in the
    answer. */
module Fuzzy {

  /** The characters JavaScript's `String.prototype.trim` removes: the
      WhiteSpace and LineTerminator code points of ECMAScript. */
  predicate IsTrimmable(c: char) {
    c == '\t' || c == '\n' || c == '\U{000B}' || c == '\U{000C}' || c == '\r' || c == ' '
    || c == '\U{00A0}' || c == '\U{1680}' || ('\U{2000}' <= c <= '\U{200A}')
    || c == '\U{2028}' || c == '\U{2029}' || c == '\U{202F}' || c == '\U{205F}'
    || c == '\U{3000}' || c == '\U{FEFF}'
  }

  predicate AllTrimmable(s: string) {
    forall k :: 0 <= k < |s| ==> IsTrimmable(s[k])
  }

  /** Removes leading trimmable characters: the result is a suffix of `s`
      that does not start with one, and everything cut off was trimmable. */
  function TrimStart(s: string): (r: string)
    ensures |r| <= |s| && r == s[|s| - |r|..]
    ensures AllTrimmable(s[..|s| - |r|])
    ensures r == [] || !IsTrimmable(r[0])
  {
    if |s| > 0 && IsTrimmable(s[0]) then
      var r := TrimStart(s[1..]);
      DropFirstStep(s, r);
      r
    else
      s
  }

  /** Cutting a trimmable first character and then a trimmable prefix of the
      rest cuts a trimmable prefix of the whole. */
  lemma DropFirstStep(s: string, r: string)
    requires |s| > 0 && IsTrimmable(s[0])
    requires |r| <= |s| - 1 && r == s[1..][|s| - 1 - |r|..]
    requires AllTrimmable(s[1..][..|s| - 1 - |r|])
    ensures r == s[|s| - |r|..] && AllTrimmable(s[..|s| - |r|])
  {
    forall k | 0 < k < |s| - |r| ensures IsTrimmable(s[k]) {
      assert s[k] == s[1..][..|s| - 1 - |r|][k - 1];
    }
  }

  /** Removes trailing trimmable characters: the result is a prefix of `s`
      that does not end with one, and everything cut off was trimmable. */
  function TrimEnd(s: string): (r: string)
    ensures |r| <= |s| && r == s[..|r|]
    ensures AllTrimmable(s[|r|..])
    ensures r == [] || !IsTrimmable(r[|r| - 1])
  {
    if |s| > 0 && IsTrimmable(s[|s| - 1]) then
      var r := TrimEnd(s[..|s| - 1]);
      DropLastStep(s, r);
      r
    else
      s
  }

  /** Cutting a trimmable last character and then a trimmable suffix of the
      rest cuts a trimmable suffix of the whole. */
  lemma DropLastStep(s: string, r: string)
    requires |s| > 0 && IsTrimmable(s[|s| - 1])
    requires |r| <= |s| - 1 && r == s[..|s| - 1][..|r|]
    requires AllTrimmable(s[..|s| - 1][|r|..])
    ensures r == s[..|r|] && AllTrimmable(s[|r|..])
  {
    forall k | |r| <= k < |s| - 1 ensures IsTrimmable(s[k]) {
      assert s[k] == s[..|s| - 1][|r|..][k - |r|];
    }
  }

  /** `s.trim()`: leading and then trailing trimmable characters removed. */
  function Trim(s: string): string {
    TrimEnd(TrimStart(s))
  }

  /** `toLowerCase` on one character, for the Basic Latin, Latin-1 and basic
      Cyrillic capitals; every other character is left as it is. */
  function LowerChar(c: char): char {
    if 'A' <= c <= 'Z' then (c as int + 32) as char
    else if ('\U{00C0}' <= c <= '\U{00DE}') && c != '\U{00D7}' then (c as int + 32) as char
    else if '\U{0400}' <= c <= '\U{040F}' then (c as int + 80) as char
    else if '\U{0410}' <= c <= '\U{042F}' then (c as int + 32) as char
    else c
  }

  /** `s.toLowerCase()`, character by character. */
  function Lower(s: string): (r: string)
    ensures |r| == |s|
  {
    seq(|s|, k requires 0 <= k < |s| => LowerChar(s[k]))
  }

  /** `needle` occurs in `haystack` starting at position `i`. */
  predicate OccursAt(haystack: string, needle: string, i: int) {
    0 <= i && i + |needle| <= |haystack| && haystack[i..i + |needle|] == needle
  }

  /** `haystack.includes(needle)`. */
  predicate Contains(haystack: string, needle: string) {
    exists i :: 0 <= i <= |haystack| - |needle| && OccursAt(haystack, needle, i)
  }

  /** The verdict of the check on the user's `input` against the card's `answer`. */
  predicate IsCorrect(input: string, answer: string) {
    var user := Trim(Lower(input));
    var correct := Lower(answer);
    Contains(correct, user) || Contains(user, correct)
    || (|user| > 3 && Contains(correct, user[..|user| - 1]))
  }

  // ----- Properties of the normalisation -----

  /** Trimming gives the empty string exactly when every character was trimmable. */
  lemma TrimEmptyIff(s: string)
    ensures Trim(s) == [] <==> AllTrimmable(s)
  {
    var t := TrimStart(s);
    if !AllTrimmable(s) {
      var k :| 0 <= k < |s| && !IsTrimmable(s[k]);
      assert t[k - (|s| - |t|)] == s[k];
    }
  }

  /** The trimmed string is a contiguous piece of the original. */
  lemma TrimIsInfix(s: string)
    ensures Contains(s, Trim(s))
  {
    var t := TrimStart(s);
    var e := TrimEnd(t);
    var i := |s| - |t|;
    assert s[i..i + |e|] == t[..|e|];
    assert OccursAt(s, e, i);
  }

  /** Lower-casing leaves every trimmable character as it is. */
  lemma LowerKeepsBlank(s: string)
    requires AllTrimmable(s)
    ensures Lower(s) == s
  {
    forall k | 0 <= k < |s| ensures Lower(s)[k] == s[k] {
      assert IsTrimmable(s[k]);
    }
  }

  /** Lower-casing twice is lower-casing once. */
  lemma LowerIdempotent(s: string)
    ensures Lower(Lower(s)) == Lower(s)
  {
    forall k | 0 <= k < |s| ensures Lower(Lower(s))[k] == Lower(s)[k] {
      var c := s[k];
      assert Lower(s)[k] == LowerChar(c);
    }
  }

  lemma ContainsEmpty(haystack: string)
    ensures Contains(haystack, [])
  {
    assert OccursAt(haystack, [], 0);
  }

  lemma ContainsItself(s: string)
    ensures Contains(s, s)
  {
    assert OccursAt(s, s, 0);
  }

  /** A needle whose first character never appears in the haystack does not occur in it. */
  lemma NotContainsMissingChar(haystack: string, needle: string)
    requires |needle| > 0
    requires forall k :: 0 <= k < |haystack| ==> haystack[k] != needle[0]
    ensures !Contains(haystack, needle)
  {
    forall i | 0 <= i <= |haystack| - |needle|
      ensures !OccursAt(haystack, needle, i)
    {
      assert haystack[i..i + |needle|][0] == haystack[i];
    }
  }

  // ----- Properties of the verdict -----

  /** An input that is blank after trimming is always accepted: the empty
      string is contained in every answer. (Marathon mode refuses such input
      before checking; Test mode does not.) */
  lemma BlankInputIsCorrect(input: string, answer: string)
    requires Trim(input) == []
    ensures IsCorrect(input, answer)
  {
    TrimEmptyIff(input);
    LowerKeepsBlank(input);
    ContainsEmpty(Lower(answer));
  }

  /** Typing the card's answer verbatim is always accepted, whatever its case
      or surrounding blanks. */
  lemma AnswerItselfIsCorrect(answer: string)
    ensures IsCorrect(answer, answer)
  {
    TrimIsInfix(Lower(answer));
  }

  /** The verdict ignores letter case on both sides. */
  lemma CaseInsensitive(input: string, answer: string)
    ensures IsCorrect(Lower(input), Lower(answer)) == IsCorrect(input, answer)
  {
    LowerIdempotent(input);
    LowerIdempotent(answer);
  }

  /** A string with no capital letter that lower-casing changes is its own
      lower-case form. */
  lemma LowerOfLowercase(s: string)
    requires forall k :: 0 <= k < |s| ==> LowerChar(s[k]) == s[k]
    ensures Lower(s) == s
  {
  }

  /** A string that neither starts nor ends with whitespace is its own trim. */
  lemma TrimOfUnpadded(s: string)
    requires |s| > 0 && !IsTrimmable(s[0]) && !IsTrimmable(s[|s| - 1])
    ensures Trim(s) == s
  {
  }

  /** An input whose normalised form occurs in the lower-cased answer is accepted. */
  lemma InputInsideAnswer(input: string, answer: string, i: int)
    requires OccursAt(Lower(answer), Trim(Lower(input)), i)
    ensures IsCorrect(input, answer)
  {
  }

  /** Lower-casing works character by character, so it distributes over concatenation. */
  lemma LowerAppend(a: string, b: string)
    ensures Lower(a + b) == Lower(a) + Lower(b)
  {
    forall k | 0 <= k < |a| + |b| ensures Lower(a + b)[k] == (Lower(a) + Lower(b))[k] {
      if k < |a| {
        assert (a + b)[k] == a[k];
      } else {
        assert (a + b)[k] == b[k - |a|];
      }
    }
  }

  /** A string occurs in any concatenation it ends. */
  lemma OccursAtEnd(a: string, b: string)
    ensures OccursAt(a + b, b, |a|)
  {
    assert (a + b)[|a|..|a| + |b|] == b;
  }

  /** A word of the answer is accepted. The strings are parameters fixed by
      the requires clause so that the verifier does not unfold the functions
      on literals. */
  lemma WordOfAnswerExample(input: string, answer: string)
    requires input == "волны" && answer == "Механические волны"
    ensures IsCorrect(input, answer)
  {
    LowerOfLowercase(input);
    TrimOfUnpadded(input);
    var prefix := "Механические ";
    assert answer == prefix + input;
    LowerAppend(prefix, input);
    OccursAtEnd(Lower(prefix), input);
    InputInsideAnswer(input, answer, |prefix|);
  }

  /** An unrelated word is refused. */
  lemma UnrelatedWordExample(input: string, answer: string)
    requires input == "xyz" && answer == "частота колебаний"
    ensures !IsCorrect(input, answer)
  {
    LowerOfLowercase(input);
    TrimOfUnpadded(input);
    LowerOfLowercase(answer);
    NotContainsMissingChar(answer, input);
    NotContainsMissingChar(input, answer);
  }
}
