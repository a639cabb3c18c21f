/**
 `createGraph` of main.go: one node per registry entry and one edge from
 parent to child per entry that names a parent. The Go code walks the map in
 an unspecified order and adds to a graph library object; only the resulting
 sets of node names and edges are modelled.
 */
module ClassGraph {
  import opened ClassRegistry

  /** Node names and directed (parent, child) edges. */
  datatype Graph = Graph(nodes: set<string>, edges: set<(string, string)>)

  function CreateGraph(reg: Registry): (g: Graph)
    ensures forall k :: k in reg ==> reg[k].name in g.nodes
    ensures forall k :: k in reg && reg[k].parent != "" ==> (reg[k].parent, reg[k].name) in g.edges
    ensures forall e :: e in g.edges ==> e.0 != ""
  {
    Graph(set k | k in reg :: reg[k].name,
          set k | k in reg && reg[k].parent != "" :: (reg[k].parent, reg[k].name))
  }

  /** On a registry that keeps its invariants, the nodes are exactly the
      keys, the edges are exactly the recorded parent links, every edge joins
      two nodes, and no class has two incoming edges. */
  lemma GraphOfValid(reg: Registry)
    requires Valid(reg)
    ensures CreateGraph(reg).nodes == reg.Keys
    ensures forall p, c :: (p, c) in CreateGraph(reg).edges <==> c in reg && reg[c].parent == p && p != ""
    ensures forall p, c :: (p, c) in CreateGraph(reg).edges ==> p in CreateGraph(reg).nodes && c in CreateGraph(reg).nodes
    ensures forall p, p', c :: (p, c) in CreateGraph(reg).edges && (p', c) in CreateGraph(reg).edges ==> p == p'
  {
    var g := CreateGraph(reg);
    forall p, c | (p, c) in g.edges ensures c in reg && reg[c].parent == p {
      var k :| k in reg && reg[k].parent != "" && (p, c) == (reg[k].parent, reg[k].name);
    }
  }

  /** An empty registry gives a graph with no nodes and no edges. */
  lemma EmptyRegistryEmptyGraph()
    ensures CreateGraph(map[]) == Graph({}, {})
  {
  }

  /** Adding an entry under a new key adds its name as a node and, when it
      names a parent, one edge from that parent. */
  lemma GraphInsert(reg: Registry, k: string, v: ClassNode)
    requires k !in reg
    ensures CreateGraph(reg[k := v]) == Graph(CreateGraph(reg).nodes + {v.name},
      CreateGraph(reg).edges + (if v.parent != "" then {(v.parent, v.name)} else {}))
  {
    var g, g' := CreateGraph(reg), CreateGraph(reg[k := v]);
    forall x | x in g'.nodes ensures x in g.nodes + {v.name} {
      var j :| j in reg[k := v] && reg[k := v][j].name == x;
      if j != k {
        assert reg[j].name == x;
      }
    }
    forall x | x in g'.edges
      ensures x in g.edges + (if v.parent != "" then {(v.parent, v.name)} else {})
    {
      var j :| j in reg[k := v] && reg[k := v][j].parent != "" && x == (reg[k := v][j].parent, reg[k := v][j].name);
      if j != k {
        assert reg[j].parent != "" && x == (reg[j].parent, reg[j].name);
      }
    }
    forall x | x in g.nodes ensures x in g'.nodes {
      var j :| j in reg && reg[j].name == x;
      assert reg[k := v][j] == reg[j];
    }
    forall x | x in g.edges ensures x in g'.edges {
      var j :| j in reg && reg[j].parent != "" && x == (reg[j].parent, reg[j].name);
      assert reg[k := v][j] == reg[j];
    }
    assert reg[k := v][k] == v;
  }
}
