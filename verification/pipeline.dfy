/**
 The whole run of main.go on the lines of every selected file, in walk
 order: start from an empty registry, apply the loop body of `parseQLFile`
 to each line, and extract the graph.
 */
module Pipeline {
  import opened Wrappers
  import opened ClassPattern
  import opened ClassRegistry
  import opened ClassGraph

  /** The registry after every line has been scanned. */
  function Build(lines: seq<string>): (reg: Registry)
    ensures Valid(reg)
  {
    Fold(map[], lines)
  }

  /** The graph written to the output file. */
  function Run(lines: seq<string>): Graph {
    CreateGraph(Build(lines))
  }

  /** One node for every class declared or referenced as a parent, and no other. */
  lemma RunNodes(lines: seq<string>)
    ensures Run(lines).nodes == Declared(Matches(lines)) + Referenced(Matches(lines))
  {
    ReplayKeys(map[], Matches(lines));
    GraphOfValid(Build(lines));
  }

  /** An edge p -> c exists exactly when the last line declaring c names
      the non-empty parent p: on redeclaration the last parent wins. */
  lemma RunEdges(lines: seq<string>, p: string, c: string)
    ensures (p, c) in Run(lines).edges <==>
      match LastDeclaration(Matches(lines), c)
      case Some(j) => p != "" && Match(lines[j]) == Some(Decl(c, p))
      case None => false
  {
    var reg := Build(lines);
    GraphOfValid(reg);
    if c in reg {
      ReplayParent(map[], Matches(lines), c);
    } else {
      ReplayKeys(map[], Matches(lines));
      if LastDeclaration(Matches(lines), c).Some? {
        LastDeclarationDeclared(Matches(lines), c);
      }
    }
  }

  /** The children recorded for a class: those declared with it as parent
      since its last declaration, or since the start when it is only ever a
      referenced parent. */
  lemma BuildChildren(lines: seq<string>, c: string)
    requires c in Build(lines)
    ensures Build(lines)[c].children ==
      match LastDeclaration(Matches(lines), c)
      case Some(j) => ChildNames(Matches(lines)[j..], c)
      case None => ChildNames(Matches(lines), c)
  {
    ReplayChildren(map[], Matches(lines), c);
  }

  /** No selected file, or no declaration line: an empty graph. */
  lemma NoLinesEmptyGraph()
    ensures Run([]) == Graph({}, {})
  {
  }

  // ---------------------------------------------------------------------
  // Worked examples, each over arbitrary class names, and their helpers.
  // ---------------------------------------------------------------------

  /** The run over lines whose matches are known. */
  lemma RunOfMatches(lines: seq<string>, ms: seq<Option<Decl>>)
    requires Matches(lines) == ms
    ensures Run(lines) == CreateGraph(Replay(map[], ms))
    ensures Build(lines) == Replay(map[], ms)
  {
  }

  lemma MatchesTwo(l1: string, l2: string)
    ensures Matches([l1, l2]) == [Match(l1), Match(l2)]
  {
  }

  lemma ReplayOne(x: Option<Decl>)
    ensures Replay(map[], [x]) == Apply(map[], x)
  {
    assert [x][..0] == [];
  }

  lemma ReplayTwo(x: Option<Decl>, y: Option<Decl>)
    ensures Replay(map[], [x, y]) == Apply(Apply(map[], x), y)
  {
    assert [x, y][..1] == [x];
    ReplayOne(x);
  }

  lemma GraphOfOne(n: string)
    ensures CreateGraph(map[n := ClassNode(n, "", [])]) == Graph({n}, {})
  {
    GraphInsert(map[], n, ClassNode(n, "", []));
  }

  lemma GraphOfTwo(n: string, p: string)
    requires n != p && p != ""
    ensures CreateGraph(map[n := ClassNode(n, p, []), p := ClassNode(p, "", [n])]) == Graph({n, p}, {(p, n)})
  {
    var one := map[n := ClassNode(n, p, [])];
    GraphInsert(map[], n, ClassNode(n, p, []));
    GraphInsert(one, p, ClassNode(p, "", [n]));
    assert one[p := ClassNode(p, "", [n])] == map[n := ClassNode(n, p, []), p := ClassNode(p, "", [n])];
  }

  lemma ThreeDisplay(a: string, b: string, c: string, x: ClassNode, y: ClassNode, z: ClassNode)
    requires a != b && b != c && a != c
    ensures map[a := x][b := y][c := z] == map[a := x, b := y, c := z]
  {
  }

  lemma GraphOfChain(a: string, b: string, c: string)
    requires a != b && b != c && a != c && b != "" && c != ""
    ensures CreateGraph(map[a := ClassNode(a, b, []), b := ClassNode(b, c, []), c := ClassNode(c, "", [b])])
      == Graph({a, b, c}, {(b, a), (c, b)})
  {
    var one := map[a := ClassNode(a, b, [])];
    var two := one[b := ClassNode(b, c, [])];
    GraphInsert(map[], a, ClassNode(a, b, []));
    GraphInsert(one, b, ClassNode(b, c, []));
    GraphInsert(two, c, ClassNode(c, "", [b]));
    ThreeDisplay(a, b, c, ClassNode(a, b, []), ClassNode(b, c, []), ClassNode(c, "", [b]));
  }

  lemma GraphOfMoved(a: string, b: string, c: string)
    requires a != b && b != c && a != c && b != "" && c != ""
    ensures CreateGraph(map[a := ClassNode(a, c, []), b := ClassNode(b, "", [a]), c := ClassNode(c, "", [a])])
      == Graph({a, b, c}, {(c, a)})
  {
    var one := map[a := ClassNode(a, c, [])];
    var two := one[b := ClassNode(b, "", [a])];
    GraphInsert(map[], a, ClassNode(a, c, []));
    GraphInsert(one, b, ClassNode(b, "", [a]));
    GraphInsert(two, c, ClassNode(c, "", [a]));
    ThreeDisplay(a, b, c, ClassNode(a, c, []), ClassNode(b, "", [a]), ClassNode(c, "", [a]));
  }

  /** A single line `class N extends P` gives the nodes N and P and the edge P -> N. */
  lemma ExtendsExample(n: string, p: string)
    requires IsName(n) && IsDottedName(p) && n != p
    ensures Run(["class " + n + " extends " + p]) == Graph({n, p}, {(p, n)})
  {
    MatchExtendsLine(n, p);
    RunOfMatches(["class " + n + " extends " + p], [Some(Decl(n, p))]);
    ReplayOne(Some(Decl(n, p)));
    assert Declare(map[], n, p) == map[n := ClassNode(n, p, []), p := ClassNode(p, "", [n])];
    GraphOfTwo(n, p);
  }

  /** A single line `abstract class N` gives the node N and no edge. */
  lemma AbstractExample(n: string)
    requires IsName(n)
    ensures Run(["abstract class " + n]) == Graph({n}, {})
  {
    MatchAbstractLine(n);
    RunOfMatches(["abstract class " + n], [Some(Decl(n, ""))]);
    ReplayOne(Some(Decl(n, "")));
    assert Declare(map[], n, "") == map[n := ClassNode(n, "", [])];
    GraphOfOne(n);
  }

  /** A declaration whose parent is not yet registered. */
  lemma DeclareNewParent(reg: Registry, n: string, p: string)
    requires p !in reg && p != n && p != ""
    ensures Declare(reg, n, p) == reg[n := ClassNode(n, p, [])][p := ClassNode(p, "", [n])]
  {
  }

  lemma ChainUpdates(a: string, b: string, c: string)
    requires a != b && b != c && a != c && b != "" && c != ""
    ensures Replay(map[], [Some(Decl(a, b)), Some(Decl(b, c))])
      == map[a := ClassNode(a, b, [])][b := ClassNode(b, "", [a])][b := ClassNode(b, c, [])][c := ClassNode(c, "", [b])]
  {
    ReplayTwo(Some(Decl(a, b)), Some(Decl(b, c)));
    DeclareNewParent(map[], a, b);
    DeclareNewParent(map[a := ClassNode(a, b, [])][b := ClassNode(b, "", [a])], b, c);
  }

  lemma ChainDisplay(a: string, b: string, c: string)
    requires a != b && b != c && a != c
    ensures map[a := ClassNode(a, b, [])][b := ClassNode(b, "", [a])][b := ClassNode(b, c, [])][c := ClassNode(c, "", [b])]
      == map[a := ClassNode(a, b, []), b := ClassNode(b, c, []), c := ClassNode(c, "", [b])]
  {
  }

  lemma ChainRegistry(a: string, b: string, c: string)
    requires a != b && b != c && a != c && b != "" && c != ""
    ensures Replay(map[], [Some(Decl(a, b)), Some(Decl(b, c))])
      == map[a := ClassNode(a, b, []), b := ClassNode(b, c, []), c := ClassNode(c, "", [b])]
  {
    ChainUpdates(a, b, c);
    ChainDisplay(a, b, c);
  }

  lemma MovedUpdates(a: string, b: string, c: string)
    requires a != b && b != c && a != c && b != "" && c != ""
    ensures Replay(map[], [Some(Decl(a, b)), Some(Decl(a, c))])
      == map[a := ClassNode(a, b, [])][b := ClassNode(b, "", [a])][a := ClassNode(a, c, [])][c := ClassNode(c, "", [a])]
  {
    ReplayTwo(Some(Decl(a, b)), Some(Decl(a, c)));
    DeclareNewParent(map[], a, b);
    DeclareNewParent(map[a := ClassNode(a, b, [])][b := ClassNode(b, "", [a])], a, c);
  }

  lemma MovedDisplay(a: string, b: string, c: string)
    requires a != b && b != c && a != c
    ensures map[a := ClassNode(a, b, [])][b := ClassNode(b, "", [a])][a := ClassNode(a, c, [])][c := ClassNode(c, "", [a])]
      == map[a := ClassNode(a, c, []), b := ClassNode(b, "", [a]), c := ClassNode(c, "", [a])]
  {
  }

  lemma MovedRegistry(a: string, b: string, c: string)
    requires a != b && b != c && a != c && b != "" && c != ""
    ensures Replay(map[], [Some(Decl(a, b)), Some(Decl(a, c))])
      == map[a := ClassNode(a, c, []), b := ClassNode(b, "", [a]), c := ClassNode(c, "", [a])]
  {
    MovedUpdates(a, b, c);
    MovedDisplay(a, b, c);
  }

  lemma MatchesOfTwoExtends(a: string, b: string, c: string, d: string)
    requires IsName(a) && IsDottedName(b) && IsName(c) && IsDottedName(d)
    ensures Matches(["class " + a + " extends " + b, "class " + c + " extends " + d])
      == [Some(Decl(a, b)), Some(Decl(c, d))]
  {
    MatchExtendsLine(a, b);
    MatchExtendsLine(c, d);
    MatchesTwo("class " + a + " extends " + b, "class " + c + " extends " + d);
  }

  /** A class used as a parent before it is declared: its own declaration
      replaces the placeholder, so the child recorded earlier is dropped
      from its children, but the edge B -> A survives because edges come
      from each child's parent field. */
  lemma ForwardReferenceExample(a: string, b: string, c: string)
    requires IsName(a) && IsName(b) && IsDottedName(c)
    requires a != b && b != c && a != c
    ensures var lines := ["class " + a + " extends " + b, "class " + b + " extends " + c];
      && b in Build(lines) && Build(lines)[b].children == []
      && Run(lines) == Graph({a, b, c}, {(b, a), (c, b)})
  {
    var lines := ["class " + a + " extends " + b, "class " + b + " extends " + c];
    MatchesOfTwoExtends(a, b, b, c);
    RunOfMatches(lines, [Some(Decl(a, b)), Some(Decl(b, c))]);
    ChainRegistry(a, b, c);
    GraphOfChain(a, b, c);
  }

  /** Declaring a class twice: the last parent wins, and the first parent
      keeps its node (and its stale child entry) but loses the edge. */
  lemma RedeclarationExample(a: string, b: string, c: string)
    requires IsName(a) && IsDottedName(b) && IsDottedName(c)
    requires a != b && b != c && a != c
    ensures var lines := ["class " + a + " extends " + b, "class " + a + " extends " + c];
      && b in Build(lines) && Build(lines)[b].children == [a]
      && Run(lines) == Graph({a, b, c}, {(c, a)})
  {
    var lines := ["class " + a + " extends " + b, "class " + a + " extends " + c];
    MatchesOfTwoExtends(a, b, a, c);
    RunOfMatches(lines, [Some(Decl(a, b)), Some(Decl(a, c))]);
    MovedRegistry(a, b, c);
    GraphOfMoved(a, b, c);
  }
}
