/**
 The class-declaration pattern of main.go,

     ^\s*(?:abstract\s+)?class\s+(\w+)(?:\s+extends\s+([\w\.]+))?

 recognised by a hand-written scanner. The pattern is anchored at the start
 of the line only, so anything may follow a match.

 Under RE2's leftmost-first semantics every repetition in this pattern ends
 up maximal: each run is followed by a character that cannot belong to it
 (blanks are followed by `a`, `c`, `e` or a word character; the class name
 by a non-word character). `Match` therefore scans maximal runs only, and
 `Declares` states the same language and the same captures without
 reference to the scanner.
 */
module ClassPattern {
  import opened Wrappers
  import opened Chars

  /** The two capture groups of a matching line; `parent` is empty when the
      `extends` group did not take part in the match. */
  datatype Decl = Decl(name: string, parent: string)

  /** Where the keyword `class` must begin: after the leading blanks, and
      after `abstract` and its blanks when those are present. */
  function ClassKeyword(s: string): (c: nat)
    ensures c <= |s|
  {
    var i := Span(s, 0, Space);
    if HasAt(s, i, "abstract") && Span(s, i + 8, Space) > i + 8 then Span(s, i + 8, Space) else i
  }

  /** The `(?:\s+extends\s+([\w\.]+))?` group tried at position e: the
      dotted parent name, or "" when the group does not match. */
  function ExtendsTarget(s: string, e: nat): (p: string)
    requires e <= |s|
    ensures All(p, 0, |p|, WordOrDot)
  {
    var f := Span(s, e, Space);
    if f == e || !HasAt(s, f, "extends") then ""
    else
      var g := Span(s, f + 7, Space);
      if g == f + 7 then "" else s[g..Span(s, g, WordOrDot)]
  }

  /** A class name as group 1 captures it: a non-empty run of `\w`. */
  predicate IsName(n: string) {
    |n| > 0 && All(n, 0, |n|, Word)
  }

  /** A parent name as group 2 captures it: a non-empty run of `[\w\.]`. */
  predicate IsDottedName(p: string) {
    |p| > 0 && All(p, 0, |p|, WordOrDot)
  }

  /** `classRegex.FindStringSubmatch(line)`: None for no match, otherwise
      the class name (group 1) and the parent name (group 2, possibly ""). */
  function Match(line: string): (r: Option<Decl>)
    ensures r.Some? ==> IsName(r.value.name)
    ensures r.Some? ==> r.value.parent == "" || IsDottedName(r.value.parent)
  {
    var c := ClassKeyword(line);
    if !HasAt(line, c, "class") then None
    else
      var k := Span(line, c + 5, Space);
      var e := Span(line, k, Word);
      if k == c + 5 || e == k then None
      else Some(Decl(line[k..e], ExtendsTarget(line, e)))
  }

  // ---------------------------------------------------------------------
  // The pattern stated by positions, independently of the scanner.
  // ---------------------------------------------------------------------

  /** s[..k] reads as `\s*(abstract\s+)?class\s+`: blanks up to i, the
      keyword `class` at c (with `abstract` at i and blanks between when
      c != i), and at least one blank from c + 5 up to k. */
  ghost predicate HeadAt(s: string, i: nat, c: nat, k: nat) {
    && i <= c && c + 5 < k <= |s|
    && All(s, 0, i, Space)
    && (c == i || (i + 8 < c && HasAt(s, i, "abstract") && All(s, i + 8, c, Space)))
    && HasAt(s, c, "class")
    && All(s, c + 5, k, Space)
  }

  /** s[k..e] is a non-empty run of word characters that cannot be extended. */
  ghost predicate NameAt(s: string, k: nat, e: nat) {
    k < e <= |s| && All(s, k, e, Word) && EndsRun(s, e, Word)
  }

  /** From e: at least one blank up to f, `extends` at f, at least one blank
      up to g, and a word character or dot at g. */
  ghost predicate ExtendsAt(s: string, e: nat, f: nat, g: nat) {
    && e < f && f + 7 < g < |s|
    && All(s, e, f, Space)
    && HasAt(s, f, "extends")
    && All(s, f + 7, g, Space)
    && InClass(s[g], WordOrDot)
  }

  /** p is what group 2 captures when the optional group is tried at e. */
  ghost predicate ParentAt(s: string, e: nat, p: string) {
    || (exists f: nat, g: nat, h: nat :: ExtendsAt(s, e, f, g) && g < h <= |s|
          && All(s, g, h, WordOrDot) && EndsRun(s, h, WordOrDot) && p == s[g..h])
    || (p == "" && !(exists f: nat, g: nat :: ExtendsAt(s, e, f, g)))
  }

  /** The line matches with the head at i, c, k, the name ending at e, and captures d. */
  ghost predicate DeclaresAt(s: string, d: Decl, i: nat, c: nat, k: nat, e: nat) {
    HeadAt(s, i, c, k) && NameAt(s, k, e) && d.name == s[k..e] && ParentAt(s, e, d.parent)
  }

  /** The line matches the pattern, with captures d. */
  ghost predicate Declares(s: string, d: Decl) {
    exists i: nat, c: nat, k: nat, e: nat :: DeclaresAt(s, d, i, c, k, e)
  }

  /** The line has the shape the pattern requires before its optional part:
      blanks, optionally `abstract` and blanks, `class`, blanks, a word character. */
  ghost predicate HasShape(s: string) {
    exists i: nat, c: nat, k: nat :: HeadAt(s, i, c, k) && k < |s| && IsWord(s[k])
  }

  // ---------------------------------------------------------------------
  // The scanner agrees with the positional statement.
  // ---------------------------------------------------------------------

  /** A head followed by a word character fixes where the scanner finds
      `class` and where the name begins. */
  lemma HeadDetermined(s: string, i: nat, c: nat, k: nat)
    requires HeadAt(s, i, c, k) && k < |s| && IsWord(s[k])
    ensures ClassKeyword(s) == c
    ensures Span(s, c + 5, Space) == k
  {
    assert s[c] == "class"[0];
    assert s[i] == 'a' || s[i] == 'c';
    SpanUnique(s, 0, i, Space);
    if c == i {
      assert s[i + 1] == "class"[1];
    } else {
      SpanUnique(s, i + 8, c, Space);
    }
    SpanUnique(s, c + 5, k, Space);
  }

  /** When the `extends` group can match from e, the scanner takes it and
      captures the maximal dotted run. */
  lemma ExtendsFound(s: string, e: nat, f: nat, g: nat)
    requires ExtendsAt(s, e, f, g)
    ensures ExtendsTarget(s, e) == s[g..Span(s, g, WordOrDot)]
  {
    assert s[f] == "extends"[0];
    SpanUnique(s, e, f, Space);
    SpanUnique(s, f + 7, g, Space);
  }

  /** When the `extends` group cannot match from e, group 2 is empty. */
  lemma ExtendsMissing(s: string, e: nat)
    requires e <= |s|
    requires !(exists f: nat, g: nat :: ExtendsAt(s, e, f, g))
    ensures ExtendsTarget(s, e) == ""
  {
    var f := Span(s, e, Space);
    if f != e && HasAt(s, f, "extends") {
      var g := Span(s, f + 7, Space);
      if g != f + 7 {
        assert Span(s, g, WordOrDot) != g ==> ExtendsAt(s, e, f, g);
      }
    }
  }

  /** The optional `extends` group, computed by the scanner, captures exactly
      what the positional statement says. */
  lemma ExtendsTargetCorrect(s: string, e: nat, p: string)
    requires e <= |s|
    ensures ExtendsTarget(s, e) == p <==> ParentAt(s, e, p)
  {
    if exists f: nat, g: nat :: ExtendsAt(s, e, f, g) {
      var f: nat, g: nat :| ExtendsAt(s, e, f, g);
      ExtendsFound(s, e, f, g);
      var h := Span(s, g, WordOrDot);
      assert ExtendsTarget(s, e) == p ==> ParentAt(s, e, p);
      if ParentAt(s, e, p) {
        var f2: nat, g2: nat, h2: nat :| ExtendsAt(s, e, f2, g2) && g2 < h2 <= |s|
          && All(s, g2, h2, WordOrDot) && EndsRun(s, h2, WordOrDot) && p == s[g2..h2];
        ExtendsFound(s, e, f2, g2);
        SpanUnique(s, g2, h2, WordOrDot);
      }
    } else {
      ExtendsMissing(s, e);
    }
  }

  /** The head the scanner reads is a head in the positional sense. */
  lemma ScannedHead(s: string, c: nat, k: nat)
    requires c == ClassKeyword(s) && HasAt(s, c, "class")
    requires c + 5 < k <= |s| && k == Span(s, c + 5, Space)
    ensures HeadAt(s, Span(s, 0, Space), c, k)
  {
  }

  /** What the scanner established when it reports a match. */
  lemma MatchUnfold(s: string, d: Decl)
    requires Match(s) == Some(d)
    ensures var c := ClassKeyword(s);
      && HasAt(s, c, "class") && c + 5 < Span(s, c + 5, Space)
      && var k := Span(s, c + 5, Space);
      && k < Span(s, k, Word)
      && d == Decl(s[k..Span(s, k, Word)], ExtendsTarget(s, Span(s, k, Word)))
  {
  }

  /** The positions the scanner found form a declaration in the positional sense. */
  lemma ScannedDeclares(s: string, c: nat, k: nat, e: nat, d: Decl)
    requires c == ClassKeyword(s) && HasAt(s, c, "class")
    requires c + 5 < k <= |s| && k == Span(s, c + 5, Space)
    requires k < e <= |s| && e == Span(s, k, Word)
    requires d == Decl(s[k..e], ExtendsTarget(s, e))
    ensures Declares(s, d)
  {
    ScannedHead(s, c, k);
    ExtendsTargetCorrect(s, e, d.parent);
    assert DeclaresAt(s, d, Span(s, 0, Space), c, k, e);
  }

  /** Every match the scanner reports has the positional form. */
  lemma MatchSound(s: string, d: Decl)
    requires Match(s) == Some(d)
    ensures Declares(s, d)
  {
    MatchUnfold(s, d);
    var c := ClassKeyword(s);
    var k := Span(s, c + 5, Space);
    ScannedDeclares(s, c, k, Span(s, k, Word), d);
  }

  /** The scanner's result once the positions of `class`, the name and its
      end are known. */
  lemma MatchAt(s: string, c: nat, k: nat, e: nat)
    requires ClassKeyword(s) == c && HasAt(s, c, "class")
    requires c + 5 < k <= |s| && Span(s, c + 5, Space) == k
    requires k < e <= |s| && Span(s, k, Word) == e
    ensures Match(s) == Some(Decl(s[k..e], ExtendsTarget(s, e)))
  {
  }

  /** Every line of the positional form is reported with the same captures. */
  lemma MatchComplete(s: string, d: Decl)
    requires Declares(s, d)
    ensures Match(s) == Some(d)
  {
    var i: nat, c: nat, k: nat, e: nat :| DeclaresAt(s, d, i, c, k, e);
    assert HeadAt(s, i, c, k) && NameAt(s, k, e);
    HeadDetermined(s, i, c, k);
    SpanUnique(s, k, e, Word);
    MatchAt(s, c, k, e);
    ExtendsTargetCorrect(s, e, d.parent);
  }

  /** A line matches with captures d exactly when it has the positional
      form with name and parent d: both directions of the recogniser's
      correctness. */
  lemma MatchCorrect(s: string, d: Decl)
    ensures Match(s) == Some(d) <==> Declares(s, d)
  {
    if Match(s) == Some(d) {
      MatchSound(s, d);
    }
    if Declares(s, d) {
      MatchComplete(s, d);
    }
  }

  /** A line matches at all exactly when it has the required shape. */
  lemma MatchIffShape(s: string)
    ensures Match(s).Some? <==> HasShape(s)
  {
    if Match(s).Some? {
      var c := ClassKeyword(s);
      var i := Span(s, 0, Space);
      var k := Span(s, c + 5, Space);
      assert HeadAt(s, i, c, k);
    }
    if HasShape(s) {
      var i: nat, c: nat, k: nat :| HeadAt(s, i, c, k) && k < |s| && IsWord(s[k]);
      HeadDetermined(s, i, c, k);
      assert Span(s, k, Word) > k;
    }
  }

  // ---------------------------------------------------------------------
  // Canonical declaration lines.
  // ---------------------------------------------------------------------

  /** Where the pieces of `class N extends P` sit. */
  lemma ExtendsLinePieces(n: string, p: string)
    ensures var s := "class " + n + " extends " + p;
      && s[0..5] == "class" && s[5] == ' '
      && (forall x :: 6 <= x < 6 + |n| ==> s[x] == n[x - 6])
      && s[6 + |n|] == ' ' && s[7 + |n|..14 + |n|] == "extends" && s[14 + |n|] == ' '
      && (forall x :: 15 + |n| <= x < |s| ==> s[x] == p[x - 15 - |n|])
  {
    var s := "class " + n + " extends " + p;
    var e := 6 + |n|;
    var t := " extends ";
    assert s[e..e + 9] == t;
    assert s[e + 1..e + 8] == t[1..8];
  }

  /** `class N extends P` captures N and P. */
  lemma MatchExtendsLine(n: string, p: string)
    requires IsName(n) && IsDottedName(p)
    ensures Match("class " + n + " extends " + p) == Some(Decl(n, p))
  {
    var s := "class " + n + " extends " + p;
    var e := 6 + |n|;
    ExtendsLinePieces(n, p);
    assert HeadAt(s, 0, 0, 6);
    assert NameAt(s, 6, e);
    assert s[6..e] == n;
    assert ExtendsAt(s, e, e + 1, e + 9) by {
      assert s[e + 9] == p[0];
    }
    assert All(s, e + 9, |s|, WordOrDot);
    assert s[e + 9..] == p;
    assert ParentAt(s, e, p);
    assert DeclaresAt(s, Decl(n, p), 0, 0, 6, e);
    MatchComplete(s, Decl(n, p));
  }

  /** `abstract class N` captures N and an empty parent. */
  lemma MatchAbstractLine(n: string)
    requires IsName(n)
    ensures Match("abstract class " + n) == Some(Decl(n, ""))
  {
    var s := "abstract class " + n;
    assert s[..15] == "abstract class ";
    assert s[15..] == n;
    assert HeadAt(s, 0, 9, 15) by {
      assert s[0..8] == "abstract";
      assert s[9..14] == "class";
    }
    assert NameAt(s, 15, |s|) by {
      assert forall x :: 15 <= x < |s| ==> s[x] == n[x - 15];
    }
    assert ParentAt(s, |s|, "");
    assert DeclaresAt(s, Decl(n, ""), 0, 9, 15, |s|);
    MatchComplete(s, Decl(n, ""));
  }

  /** `abstract` must be followed by a blank: `abstractclass N` is no declaration. */
  lemma AbstractNeedsBlank(n: string)
    ensures Match("abstractclass " + n) == None
  {
    var s := "abstractclass " + n;
    assert s[..14] == "abstractclass ";
    SpanUnique(s, 0, 0, Space);
    assert HasAt(s, 0, "abstract");
    SpanUnique(s, 8, 8, Space);
    assert ClassKeyword(s) == 0;
    assert !HasAt(s, 0, "class") by {
      assert s[1] == 'b';
    }
  }

  /** `class` must be followed by a blank: `classN` is no declaration. */
  lemma ClassNeedsBlank(n: string)
    requires IsName(n)
    ensures Match("class" + n) == None
  {
    var s := "class" + n;
    assert s[..5] == "class";
    assert s[5] == n[0];
    SpanUnique(s, 0, 0, Space);
    assert !HasAt(s, 0, "abstract") by {
      assert s[1] == 'l';
    }
    assert ClassKeyword(s) == 0;
    SpanUnique(s, 5, 5, Space);
  }

  /** `extends` must be followed by a blank: in `class N extendsP` the
      optional group does not match and the parent is empty. */
  lemma ExtendsNeedsBlank(n: string, p: string)
    requires IsName(n) && IsName(p)
    ensures Match("class " + n + " extends" + p) == Some(Decl(n, ""))
  {
    var s := "class " + n + " extends" + p;
    var e := 6 + |n|;
    assert s[..6] == "class ";
    assert s[6..e] == n;
    assert s[e..e + 8] == " extends";
    assert s[e + 8] == p[0];
    assert HeadAt(s, 0, 0, 6) by {
      assert s[0..5] == "class";
    }
    assert NameAt(s, 6, e) by {
      assert forall x :: 6 <= x < e ==> s[x] == n[x - 6];
    }
    assert ExtendsTarget(s, e) == "" by {
      SpanUnique(s, e, e + 1, Space);
      assert HasAt(s, e + 1, "extends");
      SpanUnique(s, e + 8, e + 8, Space);
    }
    ExtendsTargetCorrect(s, e, "");
    assert DeclaresAt(s, Decl(n, ""), 0, 0, 6, e);
    MatchComplete(s, Decl(n, ""));
  }
}
