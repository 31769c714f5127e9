/**
 * The string operations the analyzer borrows from Python: substring
 * containment (`needle in text`) and `str.replace`.
 */
module Strings {

  /** True when no character of `t` is a slash. */
  predicate NoSlash(t: string) {
    forall k | 0 <= k < |t| :: t[k] != '/'
  }

  /** `needle` occurs in `text` starting at index `i`. */
  ghost predicate OccursAt(text: string, needle: string, i: int) {
    0 <= i && i + |needle| <= |text| && text[i..i + |needle|] == needle
  }

  /** Python's `needle in text`, scanning `text` from the left. */
  function Contains(text: string, needle: string): (r: bool)
    ensures r <==> exists i :: OccursAt(text, needle, i)
    decreases |text|
  {
    if |text| < |needle| then
      false
    else if text[..|needle|] == needle then
      assert OccursAt(text, needle, 0);
      true
    else
      assert |text| > 0;
      var rest := Contains(text[1..], needle);
      assert forall i :: OccursAt(text[1..], needle, i) ==> OccursAt(text, needle, i + 1);
      assert forall i :: OccursAt(text, needle, i) && i > 0 ==> OccursAt(text[1..], needle, i - 1);
      rest
  }

  /**
   * Python's `text.replace(pattern, replacement)` for a non-empty pattern:
   * every non-overlapping occurrence, found left to right, is replaced.
   */
  function ReplaceAll(text: string, pattern: string, replacement: string): (r: string)
    requires |pattern| > 0
    ensures !Contains(text, pattern) ==> r == text
    ensures |replacement| <= |pattern| ==> |r| <= |text|
    ensures NoSlash(text) && NoSlash(replacement) ==> NoSlash(r)
    decreases |text|
  {
    if |text| < |pattern| then
      text
    else if text[..|pattern|] == pattern then
      var rest := ReplaceAll(text[|pattern|..], pattern, replacement);
      replacement + rest
    else
      var rest := ReplaceAll(text[1..], pattern, replacement);
      assert !Contains(text, pattern) ==> !Contains(text[1..], pattern) by {
        if Contains(text[1..], pattern) {
          var i :| OccursAt(text[1..], pattern, i);
          assert OccursAt(text, pattern, i + 1);
        }
      }
      [text[0]] + rest
  }

  /**
   * The replacement's step over one occurrence: text before it in which no
   * occurrence starts is copied, the occurrence becomes `replacement`, and
   * scanning resumes right after it.
   */
  lemma {:induction false} ReplaceAllStep(a: string, pattern: string, replacement: string, b: string)
    requires |pattern| > 0
    requires forall i | 0 <= i < |a| :: !OccursAt(a + pattern + b, pattern, i)
    ensures ReplaceAll(a + pattern + b, pattern, replacement) == a + replacement + ReplaceAll(b, pattern, replacement)
    decreases |a|
  {
    var t := a + pattern + b;
    if |a| == 0 {
      ReplaceAllAtMatch(pattern, replacement, b);
      assert t == pattern + b;
    } else {
      assert !OccursAt(t, pattern, 0);
      NoOccurrenceShifts(a, pattern, b);
      ReplaceAllStep(a[1..], pattern, replacement, b);
      SkipThenStep(a, pattern, replacement, b);
    }
  }

  /** One skipped character in front of a step already taken. */
  lemma SkipThenStep(a: string, pattern: string, replacement: string, b: string)
    requires |pattern| > 0 && |a| > 0 && !OccursAt(a + pattern + b, pattern, 0)
    requires ReplaceAll(a[1..] + pattern + b, pattern, replacement) == a[1..] + replacement + ReplaceAll(b, pattern, replacement)
    ensures ReplaceAll(a + pattern + b, pattern, replacement) == a + replacement + ReplaceAll(b, pattern, replacement)
  {
    FirstThenRest(a, pattern, b);
    SkipOne(a[0], a[1..] + pattern + b, pattern, replacement);
    FirstThenRest(a, replacement, ReplaceAll(b, pattern, replacement));
  }

  /** Splitting off the first character of `a + x + y`. */
  lemma FirstThenRest(a: string, x: string, y: string)
    requires |a| > 0
    ensures a + x + y == [a[0]] + (a[1..] + x + y)
  {
    assert a == [a[0]] + a[1..];
  }

  /** `ReplaceAllSkip` for text written as its first character and the rest. */
  lemma SkipOne(c: char, rest: string, pattern: string, replacement: string)
    requires |pattern| > 0 && !OccursAt([c] + rest, pattern, 0)
    ensures ReplaceAll([c] + rest, pattern, replacement) == [c] + ReplaceAll(rest, pattern, replacement)
  {
    ReplaceAllSkip([c] + rest, pattern, replacement);
    assert ([c] + rest)[1..] == rest;
  }

  /** Text that starts with the pattern: the match is replaced and scanning resumes after it. */
  lemma ReplaceAllAtMatch(pattern: string, replacement: string, b: string)
    requires |pattern| > 0
    ensures ReplaceAll(pattern + b, pattern, replacement) == replacement + ReplaceAll(b, pattern, replacement)
  {
    var t := pattern + b;
    assert t[..|pattern|] == pattern;
    assert t[|pattern|..] == b;
  }

  /** Where no occurrence starts, the first character is copied and scanning moves on by one. */
  lemma ReplaceAllSkip(t: string, pattern: string, replacement: string)
    requires |pattern| > 0 && |t| > 0 && !OccursAt(t, pattern, 0)
    ensures ReplaceAll(t, pattern, replacement) == [t[0]] + ReplaceAll(t[1..], pattern, replacement)
  {
    if |t| < |pattern| {
      assert !Contains(t[1..], pattern);
    }
  }

  /** Dropping the first character of `a` keeps `a` free of starting positions. */
  lemma NoOccurrenceShifts(a: string, pattern: string, b: string)
    requires |a| > 0
    requires forall i | 0 <= i < |a| :: !OccursAt(a + pattern + b, pattern, i)
    ensures forall i | 0 <= i < |a[1..]| :: !OccursAt(a[1..] + pattern + b, pattern, i)
  {
    var t := a + pattern + b;
    assert t[1..] == a[1..] + pattern + b;
    forall i | 0 <= i < |a[1..]| ensures !OccursAt(t[1..], pattern, i) {
      assert !OccursAt(t, pattern, i + 1);
      if i + |pattern| <= |t[1..]| {
        assert t[i + 1..i + 1 + |pattern|] == t[1..][i..i + |pattern|];
      }
    }
  }
}
