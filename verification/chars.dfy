/**
 Character classes of the declaration pattern, with the ASCII meaning the
 RE2 engine gives them: `\s` is `[\t\n\f\r ]` and `\w` is `[0-9A-Za-z_]`.
 The parent name is drawn from `[\w\.]`.

 `Span` scans the maximal run of one class; every greedy repetition in the
 pattern is such a run.
 */
module Chars {

  datatype CharClass = Space | Word | WordOrDot

  predicate IsSpace(c: char) {
    c == '\t' || c == '\n' || c == '\U{000C}' || c == '\r' || c == ' '
  }

  predicate IsWord(c: char) {
    ('0' <= c <= '9') || ('A' <= c <= 'Z') || ('a' <= c <= 'z') || c == '_'
  }

  predicate InClass(c: char, k: CharClass) {
    match k
    case Space => IsSpace(c)
    case Word => IsWord(c)
    case WordOrDot => IsWord(c) || c == '.'
  }

  /** Every character of s[i..j] belongs to class k. */
  predicate All(s: string, i: nat, j: nat, k: CharClass)
    requires i <= j <= |s|
  {
    forall x :: i <= x < j ==> InClass(s[x], k)
  }

  /** A run of class k cannot be extended past position j. */
  predicate EndsRun(s: string, j: nat, k: CharClass)
    requires j <= |s|
  {
    j == |s| || !InClass(s[j], k)
  }

  /** The literal w occurs in s at position i. */
  predicate HasAt(s: string, i: nat, w: string) {
    i + |w| <= |s| && s[i..i + |w|] == w
  }

  /** End of the maximal run of class k that starts at i. */
  function Span(s: string, i: nat, k: CharClass): (j: nat)
    requires i <= |s|
    ensures i <= j <= |s|
    ensures All(s, i, j, k) && EndsRun(s, j, k)
    decreases |s| - i
  {
    if i < |s| && InClass(s[i], k) then Span(s, i + 1, k) else i
  }

  /** A maximal run is unique: any run from i that cannot be extended is the one Span finds. */
  lemma SpanUnique(s: string, i: nat, j: nat, k: CharClass)
    requires i <= j <= |s|
    requires All(s, i, j, k) && EndsRun(s, j, k)
    ensures Span(s, i, k) == j
  {
  }
}
