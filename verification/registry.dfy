/**
 The class registry built by `parseQLFile` in main.go: a map from class name
 to its node, updated once per line.

 The Go map holds a pointer per key, and every pointer stored is freshly
 allocated at the moment it is stored under exactly one key, so no two keys
 share a node. A map of immutable values therefore has the same behaviour.

 The lines of all files, in the order the walk visits them, form one
 sequence; `Fold` applies the per-line step to it from first to last.
 */
module ClassRegistry {
  import opened Wrappers
  import opened ClassPattern

  /** `ClassNode` of main.go; `parent` is "" when there is none. */
  datatype ClassNode = ClassNode(name: string, parent: string, children: seq<string>)

  type Registry = map<string, ClassNode>

  /** Every entry is stored under its own name. */
  predicate WellKeyed(reg: Registry) {
    forall k :: k in reg ==> reg[k].name == k
  }

  /** Every non-empty parent named by an entry is itself an entry. */
  predicate ParentsPresent(reg: Registry) {
    forall k :: k in reg && reg[k].parent != "" ==> reg[k].parent in reg
  }

  predicate Valid(reg: Registry) {
    WellKeyed(reg) && ParentsPresent(reg)
  }

  /** The registry update for one matched declaration `class name extends parent`:
      the record for `name` is replaced (children accumulated so far are
      dropped), then `name` is linked under `parent` when there is one,
      creating a placeholder for a parent not seen before. */
  function Declare(reg: Registry, name: string, parent: string): (r: Registry)
    ensures r.Keys == reg.Keys + {name} + (if parent == "" then {} else {parent})
    ensures r[name].name == name && r[name].parent == parent
    ensures r[name].children == (if parent != "" && parent == name then [name] else [])
    ensures parent != "" && parent != name && parent in reg ==>
              r[parent] == reg[parent].(children := reg[parent].children + [name])
    ensures parent != "" && parent != name && parent !in reg ==>
              r[parent] == ClassNode(parent, "", [name])
    ensures forall k :: k in reg && k != name && k != parent ==> r[k] == reg[k]
  {
    var replaced := reg[name := ClassNode(name, parent, [])];
    if parent == "" then replaced
    else if parent in replaced then
      replaced[parent := replaced[parent].(children := replaced[parent].children + [name])]
    else
      replaced[parent := ClassNode(parent, "", [name])]
  }

  /** The registry update for one line, given what the pattern made of it:
      a line that does not match leaves the registry exactly as it was. */
  function Apply(reg: Registry, m: Option<Decl>): (r: Registry)
    ensures m.None? ==> r == reg
    ensures m.Some? ==> m.value.name in r && r[m.value.name].parent == m.value.parent
    ensures Valid(reg) ==> Valid(r)
    ensures reg.Keys <= r.Keys
  {
    match m
    case None => reg
    case Some(d) => Declare(reg, d.name, d.parent)
  }

  /** One iteration of the scanning loop over `line`. */
  function Step(reg: Registry, line: string): (r: Registry)
    ensures Match(line).None? ==> r == reg
    ensures Match(line).Some? ==> Match(line).value.name in r
    ensures Match(line).Some? ==> r[Match(line).value.name].parent == Match(line).value.parent
    ensures Valid(reg) ==> Valid(r)
  {
    Apply(reg, Match(line))
  }

  /** What the pattern makes of each line. */
  function Matches(lines: seq<string>): seq<Option<Decl>>
  {
    seq(|lines|, j requires 0 <= j < |lines| => Match(lines[j]))
  }

  /** The per-line updates applied to a registry, first to last. */
  function Replay(reg: Registry, ms: seq<Option<Decl>>): (r: Registry)
    ensures Valid(reg) ==> Valid(r)
    ensures reg.Keys <= r.Keys
    decreases |ms|
  {
    if |ms| == 0 then reg
    else Apply(Replay(reg, ms[..|ms| - 1]), ms[|ms| - 1])
  }

  /** The scanning loop run over every line, first to last. */
  function Fold(reg: Registry, lines: seq<string>): Registry {
    Replay(reg, Matches(lines))
  }

  /** Folding over one more line is one more iteration of the loop body. */
  lemma FoldIsLoop(reg: Registry, lines: seq<string>, line: string)
    ensures Fold(reg, lines + [line]) == Step(Fold(reg, lines), line)
  {
    var ms := Matches(lines + [line]);
    assert ms[..|lines|] == Matches(lines);
    assert ms[|lines|] == Match(line);
    assert Replay(reg, ms) == Apply(Replay(reg, ms[..|lines|]), ms[|lines|]);
  }

  // ---------------------------------------------------------------------
  // What the replay computes, stated against the sequence of matches.
  // ---------------------------------------------------------------------

  /** Entry j of the matches declares class c. */
  predicate DeclaresClass(ms: seq<Option<Decl>>, j: nat, c: string)
    requires j < |ms|
  {
    ms[j].Some? && ms[j].value.name == c
  }

  /** Every name some line declares. */
  ghost function Declared(ms: seq<Option<Decl>>): set<string> {
    set j | 0 <= j < |ms| && ms[j].Some? :: ms[j].value.name
  }

  /** Every non-empty parent some line names after `extends`. */
  ghost function Referenced(ms: seq<Option<Decl>>): set<string> {
    set j | 0 <= j < |ms| && ms[j].Some? && ms[j].value.parent != "" :: ms[j].value.parent
  }

  /** Index of the last declaration of c, if any. */
  function LastDeclaration(ms: seq<Option<Decl>>, c: string): (r: Option<nat>)
    ensures r.Some? ==> r.value < |ms| && DeclaresClass(ms, r.value, c)
    ensures r.Some? ==> forall j :: r.value < j < |ms| ==> !DeclaresClass(ms, j, c)
    ensures r.None? ==> forall j :: 0 <= j < |ms| ==> !DeclaresClass(ms, j, c)
    decreases |ms|
  {
    if |ms| == 0 then None
    else if DeclaresClass(ms, |ms| - 1, c) then Some(|ms| - 1)
    else
      assert forall j :: 0 <= j < |ms| - 1 ==> DeclaresClass(ms[..|ms| - 1], j, c) == DeclaresClass(ms, j, c);
      LastDeclaration(ms[..|ms| - 1], c)
  }

  /** The name a line contributes to the children of c: the declared class
      when it extends c. */
  function ChildOf(m: Option<Decl>, c: string): seq<string> {
    if m.Some? && c != "" && m.value.parent == c then [m.value.name] else []
  }

  /** Names of the classes declared with parent c, in line order. */
  function ChildNames(ms: seq<Option<Decl>>, c: string): (r: seq<string>)
    ensures |r| <= |ms|
    ensures c == "" ==> r == []
    decreases |ms|
  {
    if |ms| == 0 then [] else ChildNames(ms[..|ms| - 1], c) + ChildOf(ms[|ms| - 1], c)
  }

  lemma DeclaredSnoc(ms: seq<Option<Decl>>)
    requires |ms| > 0
    ensures Declared(ms) == Declared(ms[..|ms| - 1])
      + (if ms[|ms| - 1].Some? then {ms[|ms| - 1].value.name} else {})
  {
    var pre := ms[..|ms| - 1];
    forall x | x in Declared(ms)
      ensures x in Declared(pre) || (ms[|ms| - 1].Some? && x == ms[|ms| - 1].value.name)
    {
      var j :| 0 <= j < |ms| && ms[j].Some? && x == ms[j].value.name;
      if j < |pre| {
        assert ms[j] == pre[j];
      }
    }
    forall x | x in Declared(pre) ensures x in Declared(ms) {
      var j :| 0 <= j < |pre| && pre[j].Some? && x == pre[j].value.name;
      assert ms[j] == pre[j];
    }
  }

  lemma ReferencedSnoc(ms: seq<Option<Decl>>)
    requires |ms| > 0
    ensures Referenced(ms) == Referenced(ms[..|ms| - 1])
      + (if ms[|ms| - 1].Some? && ms[|ms| - 1].value.parent != "" then {ms[|ms| - 1].value.parent} else {})
  {
    var pre := ms[..|ms| - 1];
    forall x | x in Referenced(ms)
      ensures x in Referenced(pre) || (ms[|ms| - 1].Some? && x == ms[|ms| - 1].value.parent)
    {
      var j :| 0 <= j < |ms| && ms[j].Some? && ms[j].value.parent != "" && x == ms[j].value.parent;
      if j < |pre| {
        assert ms[j] == pre[j];
      }
    }
    forall x | x in Referenced(pre) ensures x in Referenced(ms) {
      var j :| 0 <= j < |pre| && pre[j].Some? && pre[j].value.parent != "" && x == pre[j].value.parent;
      assert ms[j] == pre[j];
    }
  }

  /** The keys after the replay are the initial keys, every declared name and
      every referenced parent; entries are never removed. */
  lemma {:induction false} ReplayKeys(reg: Registry, ms: seq<Option<Decl>>)
    ensures Replay(reg, ms).Keys == reg.Keys + Declared(ms) + Referenced(ms)
    decreases |ms|
  {
    if |ms| > 0 {
      ReplayKeys(reg, ms[..|ms| - 1]);
      DeclaredSnoc(ms);
      ReferencedSnoc(ms);
    }
  }

  /** A name that has a last declaration is among the declared names. */
  lemma LastDeclarationDeclared(ms: seq<Option<Decl>>, c: string)
    requires LastDeclaration(ms, c).Some?
    ensures c in Declared(ms)
  {
    var j := LastDeclaration(ms, c).value;
    assert ms[j].value.name == c;
  }

  /** A name that some line names as its parent is among the referenced parents. */
  lemma {:induction false} ChildNamesReferenced(ms: seq<Option<Decl>>, c: string)
    requires ChildNames(ms, c) != []
    ensures c in Referenced(ms)
    decreases |ms|
  {
    var last := ms[|ms| - 1];
    ReferencedSnoc(ms);
    if !(last.Some? && c != "" && last.value.parent == c) {
      ChildNamesReferenced(ms[..|ms| - 1], c);
    }
  }

  /** The parent recorded for c after the replay is the one given by the
      last declaration of c (the last one wins), or, when no line declares
      c, what the initial registry held for it ("" for a placeholder). */
  lemma {:induction false} ReplayParent(reg: Registry, ms: seq<Option<Decl>>, c: string)
    requires c in Replay(reg, ms)
    ensures Replay(reg, ms)[c].parent ==
      match LastDeclaration(ms, c)
      case Some(j) => ms[j].value.parent
      case None => if c in reg then reg[c].parent else ""
    decreases |ms|
  {
    if |ms| > 0 {
      var pre := ms[..|ms| - 1];
      var before := Replay(reg, pre);
      if !DeclaresClass(ms, |ms| - 1, c) {
        assert LastDeclaration(ms, c) == LastDeclaration(pre, c);
        if c in before {
          ReplayParent(reg, pre, c);
        } else {
          ReplayKeys(reg, pre);
          if LastDeclaration(pre, c).Some? {
            LastDeclarationDeclared(pre, c);
          }
        }
      }
    }
  }

  /** One line that does not declare c changes the children of c only by
      appending the class it declares when that class extends c. */
  lemma ApplyChildren(before: Registry, m: Option<Decl>, c: string)
    requires c in Apply(before, m)
    requires !(m.Some? && m.value.name == c)
    ensures Apply(before, m)[c].children == (if c in before then before[c].children else []) + ChildOf(m, c)
  {
  }

  /** Dropping the last line from a suffix of the matches. */
  lemma ChildNamesSuffixSnoc(ms: seq<Option<Decl>>, j: nat, c: string)
    requires j < |ms|
    ensures ChildNames(ms[j..], c) == ChildNames(ms[..|ms| - 1][j..], c) + ChildOf(ms[|ms| - 1], c)
  {
    assert ms[j..][..|ms[j..]| - 1] == ms[..|ms| - 1][j..];
  }

  /** The children recorded for c after the replay are the classes declared
      with parent c since the last declaration of c, in line order: a
      redeclaration discards the children gathered before it. When no line
      declares c they follow whatever children the initial registry held. */
  lemma {:induction false} ReplayChildren(reg: Registry, ms: seq<Option<Decl>>, c: string)
    requires c in Replay(reg, ms)
    ensures Replay(reg, ms)[c].children ==
      match LastDeclaration(ms, c)
      case Some(j) => ChildNames(ms[j..], c)
      case None => (if c in reg then reg[c].children else []) + ChildNames(ms, c)
    decreases |ms|
  {
    if |ms| > 0 {
      var n := |ms|;
      var pre := ms[..n - 1];
      var before := Replay(reg, pre);
      if DeclaresClass(ms, n - 1, c) {
        assert ms[n - 1..][..0] == [];
      } else {
        assert LastDeclaration(ms, c) == LastDeclaration(pre, c);
        ApplyChildren(before, ms[n - 1], c);
        if c in before {
          ReplayChildren(reg, pre, c);
          if LastDeclaration(pre, c).Some? {
            ChildNamesSuffixSnoc(ms, LastDeclaration(pre, c).value, c);
          }
        } else {
          ReplayKeys(reg, pre);
          if LastDeclaration(pre, c).Some? {
            LastDeclarationDeclared(pre, c);
          }
          if ChildNames(pre, c) != [] {
            ChildNamesReferenced(pre, c);
          }
        }
      }
    }
  }
}
