/** The group forest of the group manager, its preorder listing, and its parent relation. */
module GroupTree {
  import opened Wrappers

  datatype GroupNode = GroupNode(id: int, children: seq<GroupNode>)

  type Forest = seq<GroupNode>

  /** One row of the flattened tree. */
  datatype FlatNode = FlatNode(node: GroupNode, depth: nat, parentId: Option<int>, siblingIndex: nat)

  ghost function IdSet(nodes: Forest): set<int> {
    if nodes == [] then {} else {nodes[0].id} + IdSet(nodes[0].children) + IdSet(nodes[1..])
  }

  /** Group ids are primary keys: no id occurs twice in the forest. */
  ghost predicate DistinctIds(nodes: Forest) {
    nodes != [] ==>
      && nodes[0].id !in IdSet(nodes[0].children)
      && nodes[0].id !in IdSet(nodes[1..])
      && IdSet(nodes[0].children) !! IdSet(nodes[1..])
      && DistinctIds(nodes[0].children)
      && DistinctIds(nodes[1..])
  }

  /** All nodes of the forest, at every depth. */
  ghost function NodeSet(nodes: Forest): (r: set<GroupNode>)
    ensures forall v :: v in r ==> v.id in IdSet(nodes)
  {
    if nodes == [] then {} else {nodes[0]} + NodeSet(nodes[0].children) + NodeSet(nodes[1..])
  }

  // ─── Flattening ───

  function Flatten(nodes: Forest, depth: nat, parentId: Option<int>, first: nat): seq<FlatNode> {
    if nodes == [] then
      []
    else
      [FlatNode(nodes[0], depth, parentId, first)]
      + Flatten(nodes[0].children, depth + 1, Some(nodes[0].id), 0)
      + Flatten(nodes[1..], depth, parentId, first + 1)
  }

  method FlattenTree(nodes: Forest, depth: nat, parentId: Option<int>) returns (result: seq<FlatNode>)
    ensures result == Flatten(nodes, depth, parentId, 0)
    decreases nodes
  {
    result := [];
    for idx := 0 to |nodes|
      invariant result + Flatten(nodes[idx..], depth, parentId, idx) == Flatten(nodes, depth, parentId, 0)
    {
      var node := nodes[idx];
      ghost var before := result;
      result := result + [FlatNode(node, depth, parentId, idx)];
      var nested := FlattenTree(node.children, depth + 1, Some(node.id));
      result := result + nested;
      assert nodes[idx..][1..] == nodes[idx + 1..];
      assert result + Flatten(nodes[idx + 1..], depth, parentId, idx + 1)
          == before + Flatten(nodes[idx..], depth, parentId, idx);
    }
  }

  // ─── The listing determines the tree ───

  /** What a row shows on screen: its group and its indentation. */
  function Outline(flat: seq<FlatNode>): (r: seq<(int, nat)>)
    ensures |r| == |flat|
  {
    if flat == [] then [] else [(flat[0].node.id, flat[0].depth)] + Outline(flat[1..])
  }

  /** Reads back the forest at `depth` from an outline; the second result is the unread rest. */
  function Rebuild(outline: seq<(int, nat)>, depth: nat): (r: (Forest, seq<(int, nat)>))
    ensures |r.1| <= |outline|
    decreases |outline|
  {
    if outline == [] || outline[0].1 != depth then
      ([], outline)
    else
      var (children, rest) := Rebuild(outline[1..], depth + 1);
      var (siblings, tail) := Rebuild(rest, depth);
      ([GroupNode(outline[0].0, children)] + siblings, tail)
  }

  lemma {:induction false} OutlineConcat(a: seq<FlatNode>, b: seq<FlatNode>)
    ensures Outline(a + b) == Outline(a) + Outline(b)
  {
    if a == [] {
      assert a + b == b;
    } else {
      OutlineConcat(a[1..], b);
      assert (a + b)[1..] == a[1..] + b;
    }
  }

  lemma OutlineOfFlatten(nodes: Forest, depth: nat, parentId: Option<int>, first: nat)
    requires nodes != []
    ensures Outline(Flatten(nodes, depth, parentId, first))
         == [(nodes[0].id, depth)]
            + Outline(Flatten(nodes[0].children, depth + 1, Some(nodes[0].id), 0))
            + Outline(Flatten(nodes[1..], depth, parentId, first + 1))
  {
    var top := [FlatNode(nodes[0], depth, parentId, first)];
    var inner := Flatten(nodes[0].children, depth + 1, Some(nodes[0].id), 0);
    OutlineConcat(top + inner, Flatten(nodes[1..], depth, parentId, first + 1));
    OutlineConcat(top, inner);
    assert Outline(top) == [(nodes[0].id, depth)] + Outline([]);
  }

  lemma {:induction false} RebuildUndoesFlatten(
      nodes: Forest, depth: nat, parentId: Option<int>, first: nat, tail: seq<(int, nat)>)
    requires tail != [] ==> tail[0].1 < depth
    ensures Rebuild(Outline(Flatten(nodes, depth, parentId, first)) + tail, depth) == (nodes, tail)
    decreases nodes
  {
    if nodes == [] {
      assert [] + tail == tail;
    } else {
      var n := nodes[0];
      OutlineOfFlatten(nodes, depth, parentId, first);
      var inner := Outline(Flatten(n.children, depth + 1, Some(n.id), 0));
      var outer := Outline(Flatten(nodes[1..], depth, parentId, first + 1));
      RebuildAfterChildren(n, nodes[1..], inner, outer, depth, tail) by {
        assert (outer + tail) != [] ==> (outer + tail)[0].1 < depth + 1 by {
          if nodes[1..] != [] {
            OutlineOfFlatten(nodes[1..], depth, parentId, first + 1);
          }
        }
        RebuildUndoesFlatten(n.children, depth + 1, Some(n.id), 0, outer + tail);
        RebuildUndoesFlatten(nodes[1..], depth, parentId, first + 1, tail);
      }
      assert [n] + nodes[1..] == nodes;
    }
  }

  lemma RebuildAfterChildren(
      n: GroupNode, siblings: Forest, inner: seq<(int, nat)>, outer: seq<(int, nat)>, depth: nat,
      tail: seq<(int, nat)>)
    requires Rebuild(inner + (outer + tail), depth + 1) == (n.children, outer + tail)
    requires Rebuild(outer + tail, depth) == (siblings, tail)
    ensures Rebuild([(n.id, depth)] + inner + outer + tail, depth) == ([n] + siblings, tail)
  {
    var all := [(n.id, depth)] + inner + outer + tail;
    assert all[1..] == inner + (outer + tail);
    assert GroupNode(n.id, n.children) == n;
  }

  // ─── Rows tell the truth about parents ───

  /** `f` is a member of the sibling list `nodes`, whose first member has index `first`. */
  ghost predicate IsSibling(f: FlatNode, nodes: Forest, depth: nat, parentId: Option<int>, first: nat) {
    && f.depth == depth
    && f.parentId == parentId
    && first <= f.siblingIndex < first + |nodes|
    && nodes[f.siblingIndex - first] == f.node
  }

  /** `f` is the row of a child of the row `g`. */
  ghost predicate IsChildRow(f: FlatNode, g: FlatNode) {
    IsSibling(f, g.node.children, g.depth + 1, Some(g.node.id), 0)
  }

  /** Every row is a sibling at the top level or a child of another row `g`, exactly as it says it is. */
  lemma {:induction false} RowsAreTrue(
      nodes: Forest, depth: nat, parentId: Option<int>, first: nat, f: FlatNode)
    returns (g: FlatNode)
    requires f in Flatten(nodes, depth, parentId, first)
    ensures f.node in NodeSet(nodes) && depth <= f.depth
    ensures
      || IsSibling(f, nodes, depth, parentId, first)
      || (g in Flatten(nodes, depth, parentId, first) && IsChildRow(f, g))
    decreases nodes
  {
    var top := FlatNode(nodes[0], depth, parentId, first);
    var inner := Flatten(nodes[0].children, depth + 1, Some(nodes[0].id), 0);
    g := top;
    if f == top {
    } else if f in inner {
      var h := RowsAreTrue(nodes[0].children, depth + 1, Some(nodes[0].id), 0, f);
      if !IsSibling(f, nodes[0].children, depth + 1, Some(nodes[0].id), 0) {
        g := h;
      }
    } else {
      g := RowsAreTrue(nodes[1..], depth, parentId, first + 1, f);
    }
  }

  lemma {:induction false} SiblingsAreListed(
      nodes: Forest, depth: nat, parentId: Option<int>, first: nat, f: FlatNode)
    requires IsSibling(f, nodes, depth, parentId, first)
    ensures f in Flatten(nodes, depth, parentId, first)
  {
    if f.siblingIndex > first {
      SiblingsAreListed(nodes[1..], depth, parentId, first + 1, f);
    }
  }

  /** Nothing is left out: with a row come the rows of all its children. */
  lemma {:induction false} ChildrenAreListed(
      nodes: Forest, depth: nat, parentId: Option<int>, first: nat, g: FlatNode, f: FlatNode)
    requires g in Flatten(nodes, depth, parentId, first) && IsChildRow(f, g)
    ensures f in Flatten(nodes, depth, parentId, first)
    decreases nodes
  {
    var inner := Flatten(nodes[0].children, depth + 1, Some(nodes[0].id), 0);
    if g == FlatNode(nodes[0], depth, parentId, first) {
      SiblingsAreListed(nodes[0].children, depth + 1, Some(nodes[0].id), 0, f);
    } else if g in inner {
      ChildrenAreListed(nodes[0].children, depth + 1, Some(nodes[0].id), 0, g, f);
    } else {
      ChildrenAreListed(nodes[1..], depth, parentId, first + 1, g, f);
    }
  }

  /** Every node of the forest has a row. */
  lemma {:induction false} NodesAreListed(
      nodes: Forest, depth: nat, parentId: Option<int>, first: nat, v: GroupNode)
    requires v in NodeSet(nodes)
    ensures exists f :: f in Flatten(nodes, depth, parentId, first) && f.node == v
    decreases nodes
  {
    var top := FlatNode(nodes[0], depth, parentId, first);
    if v == nodes[0] {
      assert top in Flatten(nodes, depth, parentId, first);
    } else if v in NodeSet(nodes[0].children) {
      NodesAreListed(nodes[0].children, depth + 1, Some(nodes[0].id), 0, v);
    } else {
      NodesAreListed(nodes[1..], depth, parentId, first + 1, v);
    }
  }
}
