# qlviz class-hierarchy builder, modelled in Dafny

qlviz walks a tree of CodeQL sources (`.ql` and `.qll` files). It reads them
line by line and picks out class declarations with one regular expression:
an optional `abstract`, then `class Name`, then optionally `extends Parent`.
It records these in a registry that maps each class name to a `ClassNode`
(name, parent, children). Finally it emits a directed graph with one node per
registered class and one edge from parent to child.

This project models the core of that pipeline:

- `chars.dfy` (`Chars`): the character classes `\s` = `[\t\n\f\r ]`,
  `\w` = `[0-9A-Za-z_]` and `[\w\.]`, plus `Span`, the scan of a maximal run.
- `pattern.dfy` (`ClassPattern`): `Match`, a hand-written recogniser for
  `^\s*(?:abstract\s+)?class\s+(\w+)(?:\s+extends\s+([\w\.]+))?` that returns
  no match or the two capture groups. `Declares` states the same pattern by
  positions, independently of the scanner. The two are proved equivalent in
  both directions.
- `registry.dfy` (`ClassRegistry`): `ClassNode` and the registry map, and the
  loop body of `parseQLFile` as `Step`. `Fold` applies it over all lines in
  walk order. The module also holds the invariants the loop keeps and what
  the fold computes per class: keys, parent, children.
- `graph.dfy` (`ClassGraph`): `createGraph` as a node set and a
  (parent, child) edge set.
- `pipeline.dfy` (`Pipeline`): the whole run from an empty registry,
  end-to-end properties, and worked examples.
- `source_filter.dfy` (`SourceFilter`): the file selection of
  `traverseFiles`, with Go's `filepath.Ext`.

The Go registry holds one `*ClassNode` per key. Every pointer is freshly
allocated when it is stored, under exactly one key, so no two keys share a
node. That is why a map of immutable values behaves the same.

A redeclaration replaces the whole record (main.go:69-72), so the children
gathered before it are lost; `ReplayChildren`, `ForwardReferenceExample` and
`RedeclarationExample` state this. The graph never reads
`Children`; edges come from each class's own `Parent` field. So the lost
children never change the graph: the edge to a forward-referenced class
survives its redeclaration.

## Model

| member | source | states |
|---|---|---|
| Chars.Span | main.go:53 | a greedy repetition of one character class ends where the run can no longer be extended; every character before that end belongs to the class |
| ClassPattern.Match | main.go:65-68 | on a match, the class name is a non-empty run of word characters, and the parent is empty or made only of word characters and dots |
| ClassPattern.ExtendsTarget | main.go:53 | the optional `extends` group captures only word characters and dots |
| ClassPattern.ExtendsTargetCorrect | main.go:53 | the `extends` group captures exactly the maximal dotted run after blanks, `extends` and blanks; it captures "" exactly when no such clause starts at the end of the name |
| ClassPattern.MatchCorrect | main.go:53 | a line matches with captures (name, parent) if and only if it has the positional form: leading blanks, optional `abstract` plus blanks, `class`, blanks, the maximal word run as name, then the parent as above |
| ClassPattern.MatchIffShape | main.go:53 | a line matches at all exactly when it has optional blanks, optionally `abstract` and blanks, then `class`, blanks and a word character; trailing text is allowed |
| ClassPattern.MatchExtendsLine | main.go:53 | `class N extends P` captures N and P for every name N and dotted name P |
| ClassPattern.MatchAbstractLine | main.go:53 | `abstract class N` captures N with an empty parent |
| ClassPattern.AbstractNeedsBlank | main.go:53 | `abstract` with no blank before `class` does not match |
| ClassPattern.ClassNeedsBlank | main.go:53 | `class` directly followed by the name does not match |
| ClassPattern.ExtendsNeedsBlank | main.go:53 | `extends` with no blank before the parent leaves the parent empty while the class still matches |
| ClassRegistry.Declare | main.go:67-83 | the declared class gets its name and parent, and empty children unless it extends itself; an existing parent gets the class appended at the end of its children with name and parent unchanged; a missing parent gets a placeholder with no parent and the one child; the key set grows by the class and the non-empty parent; no other key changes |
| ClassRegistry.Apply | main.go:65-84 | a line without a match leaves the registry exactly unchanged; a match records the captured parent; keys are never removed; every entry stays under its own name and every non-empty parent stays registered |
| ClassRegistry.Step | main.go:63-85 | one loop iteration: no match leaves the registry unchanged; after a match the declared class holds the captured parent; both invariants are kept |
| ClassRegistry.Replay | main.go:63-85 | over any sequence of lines the invariants are kept and entries are never removed |
| ClassRegistry.FoldIsLoop | main.go:63-85 | folding over one more line is one more execution of the loop body on that line |
| ClassRegistry.LastDeclaration | main.go:69-72 | finds the last line that declares a class: no later line declares it, and None means no line does |
| ClassRegistry.ReplayKeys | main.go:69-82 | after the fold, the keys are the initial keys plus every declared name plus every referenced non-empty parent |
| ClassRegistry.ReplayParent | main.go:69-77 | a class's recorded parent comes from its last declaration; a class never declared keeps its initial parent, or "" as a placeholder |
| ClassRegistry.ReplayChildren | main.go:69-82 | a class's children are the classes declared with it as parent since its last declaration, in line order; a redeclaration drops the children recorded before it |
| ClassGraph.CreateGraph | main.go:91-103 | every entry's name is a node, every entry with a non-empty parent gives the edge parent -> name, and no edge starts at "" |
| ClassGraph.GraphOfValid | main.go:96-101 | on a registry that keeps the invariants, the nodes are exactly the keys, the edges are exactly the recorded parent links, every edge joins two nodes, and each class has at most one incoming edge |
| ClassGraph.GraphInsert | main.go:96-101 | an entry under a new key adds its name as a node and, when it has a parent, exactly one edge |
| ClassGraph.EmptyRegistryEmptyGraph | main.go:91-103 | an empty registry gives no nodes and no edges |
| Pipeline.Build | main.go:21-29 | the registry built from an empty map by any lines keeps both invariants |
| Pipeline.RunNodes | main.go:63-101 | the graph has one node for every class declared or referenced as a parent, and no other |
| Pipeline.RunEdges | main.go:66-100 | the edge p -> c exists exactly when the last line declaring c names the non-empty parent p: on redeclaration the last parent wins |
| Pipeline.BuildChildren | main.go:69-82 | the children of a class are those declared under it since its last declaration, or since the start when it is only ever referenced |
| Pipeline.NoLinesEmptyGraph | main.go:21-29 | with no lines there are no nodes and no edges |
| Pipeline.ExtendsExample | main.go:53-103 | a single line `class N extends P` yields the nodes N and P and the edge P -> N |
| Pipeline.AbstractExample | main.go:53-103 | a single line `abstract class N` yields the node N and no edge |
| Pipeline.ForwardReferenceExample | main.go:69-82 | when B is a parent before it is declared, its declaration empties its children, yet the edge B -> A remains |
| Pipeline.RedeclarationExample | main.go:69-82 | declaring A again with a new parent moves its edge to the new parent, while the old parent keeps a stale child entry |
| SourceFilter.Ext | main.go:46 | the extension is "" exactly when the last path element has no dot; otherwise it is the path's suffix from that element's last dot |
| SourceFilter.ExtOfSuffix | main.go:46 | a path that ends in a dot followed by no dot or separator has exactly that suffix as its extension |
| SourceFilter.SelectedIffSuffix | main.go:46 | a file is handed to the parser exactly when it is not a directory and its name ends in `.ql` or `.qll` |

## Left out

- Directory traversal (`filepath.Walk`, main.go:41-51): its order and its error handling are I/O. The input is the lines of all selected files, concatenated in walk order.
- File reading and line splitting (`ioutil.ReadFile`, `bufio.Scanner`, main.go:56-62 and 86-88): lines are taken as given. This leaves out the scanner's stripping of a trailing `\r`, its token-size limit, and the early stop after a read or scan error.
- The graph library (gographviz parsing, `Analyse`, `AddNode`, `AddEdge`, main.go:92-99): its source is not part of this model. The graph is modelled as a set of node names and a set of edges.
- DOT serialisation and output (`graph.String()`, `os.Create`, `WriteString`, `Close`, main.go:31-38): these are I/O. No quoting of names with dots is modelled.
- Go map iteration order (main.go:96): it is unspecified, so the graph is stated as sets.
- Unicode: characters are taken as runes. Only the ASCII characters listed above are word or blank characters, as in Go's RE2 classes. Invalid UTF-8 is not modelled.
- Path separators: only `/` is a separator, as on Unix.
