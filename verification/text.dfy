/**
 * Text helpers the library's operations rely on: what the mandatory text
 * prompt hands back, lower-casing, substring search and the order used to
 * sort strings.  Culture rules are abstracted: lower-casing acts on the
 * ASCII letters and strings are ordered ordinally, character by character.
 */
module Text {

  /** White space as trimming sees it (the ASCII part of it). */
  predicate IsWhite(c: char) {
    c == ' ' || c == '\t' || c == '\n' || c == '\r' || c as int == 11 || c as int == 12
  }

  /** A value the mandatory prompt returns: trimmed at both ends and not blank. */
  predicate IsPromptText(s: string) {
    |s| > 0 && !IsWhite(s[0]) && !IsWhite(s[|s| - 1])
  }

  function LowerChar(c: char): char {
    if 'A' <= c <= 'Z' then (c as int + 32) as char else c
  }

  function Lower(s: string): string {
    seq(|s|, i requires 0 <= i < |s| => LowerChar(s[i]))
  }

  /** `t` occurs in `s` starting at index `i`. */
  predicate OccursAt(s: string, t: string, i: int) {
    0 <= i && i + |t| <= |s| && s[i..i + |t|] == t
  }

  /** Substring test, as `Contains` on strings. */
  predicate Contains(s: string, t: string) {
    exists i | 0 <= i <= |s| :: OccursAt(s, t, i)
  }

  /**
   * The executable check behind `Contains`, as `string.Contains` performs
   * it: scans `s` left to right for the first occurrence of `t`; -1 when
   * there is none.
   */
  method IndexOf(s: string, t: string) returns (k: int)
    ensures -1 <= k <= |s|
    ensures k >= 0 ==> OccursAt(s, t, k) && forall j :: 0 <= j < k ==> !OccursAt(s, t, j)
    ensures k < 0 <==> !Contains(s, t)
  {
    if |t| > |s| {
      return -1;
    }
    var i := 0;
    while i <= |s| - |t|
      invariant 0 <= i <= |s| - |t| + 1
      invariant forall j :: 0 <= j < i ==> !OccursAt(s, t, j)
    {
      if s[i..i + |t|] == t {
        return i;
      }
      i := i + 1;
    }
    return -1;
  }

  /** The empty term occurs in every string. */
  lemma ContainsEmpty(s: string)
    ensures Contains(s, "")
  {
    assert OccursAt(s, "", 0);
  }

  /** Ordinal order: compare character by character, a proper prefix comes first. */
  predicate LessOrEqual(a: string, b: string) {
    |a| == 0 || (|b| > 0 && (a[0] < b[0] || (a[0] == b[0] && LessOrEqual(a[1..], b[1..]))))
  }

  lemma {:induction false} LessOrEqualReflexive(a: string)
    ensures LessOrEqual(a, a)
  {
    if |a| > 0 {
      LessOrEqualReflexive(a[1..]);
    }
  }

  lemma {:induction false} LessOrEqualTotal(a: string, b: string)
    ensures LessOrEqual(a, b) || LessOrEqual(b, a)
  {
    if |a| > 0 && |b| > 0 && a[0] == b[0] {
      LessOrEqualTotal(a[1..], b[1..]);
    }
  }

  lemma {:induction false} LessOrEqualAntisymmetric(a: string, b: string)
    requires LessOrEqual(a, b) && LessOrEqual(b, a)
    ensures a == b
  {
    if |a| > 0 {
      LessOrEqualAntisymmetric(a[1..], b[1..]);
      assert a == [a[0]] + a[1..];
      assert b == [b[0]] + b[1..];
    }
  }

  lemma {:induction false} LessOrEqualTransitive(a: string, b: string, c: string)
    requires LessOrEqual(a, b) && LessOrEqual(b, c)
    ensures LessOrEqual(a, c)
  {
    if |a| > 0 && a[0] == b[0] && b[0] == c[0] {
      LessOrEqualTransitive(a[1..], b[1..], c[1..]);
    }
  }
}
