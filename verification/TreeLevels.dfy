/** The levels of the nodes of a hierarchy graph, computed in one pass over the nodes in the
    order of their ids. */
module TreeLevels {

  /** A node: its parent, 0 for none, and its level. */
  datatype NodeRegistry = NodeRegistry(parent: nat, treeVLevel: nat)

  type NodeMap = map<nat, NodeRegistry>

  const NODE_IDS := 0x1_0000

  /** Node id has a parent that is known. */
  predicate HasParent(m: NodeMap, id: nat)
    requires id in m
  {
    m[id].parent != 0 && m[id].parent in m
  }

  /** The level that the pass gives to a node: it looks at its parent when that may not have
      its level yet. */
  function LevelOf(m: NodeMap, id: nat): (l: nat)
    requires id in m
    ensures l <= if id == 0 then 1 else id
    decreases id
  {
    if !HasParent(m, id) then 0
    else if m[id].parent < id then LevelOf(m, m[id].parent) + 1
    else 1
  }

  /** The levels are those of a tree: a node lies one below its parent. */
  ghost predicate TreeOrder(m: NodeMap) {
    forall id :: id in m ==> m[id].treeVLevel == if HasParent(m, id) then m[m[id].parent].treeVLevel + 1 else 0
  }

  /** Parents come before their children, except for parents that have no parent themselves. */
  ghost predicate ParentsFirst(m: NodeMap) {
    forall id :: id in m && HasParent(m, id) && m[id].parent >= id ==> !HasParent(m, m[id].parent)
  }

  /** No node has a level yet. */
  ghost predicate Unlevelled(m: NodeMap) {
    forall id :: id in m ==> id < 0x1_0000 && m[id].treeVLevel == 0
  }

  /** The node that is n steps above. */
  function Above(m: NodeMap, id: nat, n: nat): nat
    requires id in m
    decreases n
  {
    if n == 0 || !HasParent(m, id) then id else Above(m, m[id].parent, n - 1)
  }

  /** In tree order the level is the depth: so many steps up, and no fewer, end at a root. */
  lemma {:induction false} LevelIsDepth(m: NodeMap, id: nat, n: nat)
    requires TreeOrder(m) && id in m && n <= m[id].treeVLevel
    ensures Above(m, id, n) in m
    ensures HasParent(m, Above(m, id, n)) <==> n < m[id].treeVLevel
    decreases n
  {
    if n > 0 {
      LevelIsDepth(m, m[id].parent, n - 1);
    }
  }

  class NodeDB {
    var nodes: NodeMap

    /** Adds a node, unless its id is taken. No node that is there changes, and what the pass over
        the nodes relies on stays true. */
    method AddNode(id: nat, parent: nat)
      modifies this
      ensures nodes.Keys == old(nodes.Keys) + {id}
      ensures forall k :: k in old(nodes) ==> nodes[k] == old(nodes)[k]
      ensures id !in old(nodes) ==> nodes[id].parent == parent
      ensures Unlevelled(old(nodes)) && id < 0x1_0000 ==> Unlevelled(nodes)
    {
      if id !in nodes {
        nodes := nodes[id := NodeRegistry(parent, 0)];
      }
    }

    /** Gives every node its level. The result is a tree order if and only if parents come first;
        levels fit into 16 bits. */
    method ProduceTreeEdges()
      requires Unlevelled(nodes)
      modifies this
      ensures nodes.Keys == old(nodes.Keys)
      ensures forall id :: id in nodes ==>
                && nodes[id].parent == old(nodes)[id].parent
                && nodes[id].treeVLevel == LevelOf(old(nodes), id) < 0x1_0000
      ensures TreeOrder(nodes) <==> ParentsFirst(nodes)
    {
      ghost var m := nodes;
      for id := 0 to NODE_IDS
        invariant nodes.Keys == m.Keys
        invariant forall k :: k in m ==> nodes[k] == m[k].(treeVLevel := if k < id then LevelOf(m, k) else 0)
      {
        if id in nodes {
          var pa := nodes[id].parent;
          var level := if pa != 0 && pa in nodes then nodes[pa].treeVLevel + 1 else 0;
          nodes := nodes[id := nodes[id].(treeVLevel := level)];
        }
      }
      LevelsInOrder(m, nodes);
    }

    constructor ()
      ensures nodes == map[]
    {
      nodes := map[];
    }
  }

  /** The levels of the pass are a tree order exactly when parents come first. */
  lemma LevelsInOrder(m: NodeMap, r: NodeMap)
    requires r.Keys == m.Keys && forall k :: k in m ==> r[k] == m[k].(treeVLevel := LevelOf(m, k))
    ensures TreeOrder(r) <==> ParentsFirst(r)
  {
  }

  /** Node 1 is below 2, which is below 3: the pass gives 1 and 2 the same level. */
  lemma ChildFirst()
    ensures var m := map[1 := NodeRegistry(2, 0), 2 := NodeRegistry(3, 0), 3 := NodeRegistry(0, 0)];
            LevelOf(m, 1) == LevelOf(m, 2) == 1 && LevelOf(m, 3) == 0 && !ParentsFirst(m)
  {
    var m := map[1 := NodeRegistry(2, 0), 2 := NodeRegistry(3, 0), 3 := NodeRegistry(0, 0)];
    assert HasParent(m, 1) && HasParent(m, 2) && !HasParent(m, 3);
  }
}
