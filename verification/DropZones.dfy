/** The drop gaps the group manager renders around the rows of the flattened tree. */
module DropZones {
  import opened Wrappers
  import opened GroupTree
  import opened Sequences

  /** "Insert as child number `insertIndex` of `parentId`" (`None`: the root level). */
  datatype Zone = Zone(parentId: Option<int>, insertIndex: nat)

  // ─── What the page computes ───

  function FindRow(flat: seq<FlatNode>, id: Option<int>): (r: Option<FlatNode>)
    ensures r.Some? ==> r.value in flat && Some(r.value.node.id) == id
  {
    if flat == [] then None
    else if Some(flat[0].node.id) == id then Some(flat[0])
    else FindRow(flat[1..], id)
  }

  function RowAbove(flat: seq<FlatNode>, row: FlatNode): FlatNode {
    var ancestor := FindRow(flat, row.parentId);
    if ancestor.Some? then ancestor.value else row
  }

  /** The gaps after the levels that close, from `row` at `depth` up to `target`. */
  function ClosingZones(flat: seq<FlatNode>, row: FlatNode, depth: int, target: nat): seq<Zone>
    decreases depth
  {
    if depth < target then
      []
    else
      [Zone(row.parentId, row.siblingIndex + 1)] + ClosingZones(flat, RowAbove(flat, row), depth - 1, target)
  }

  function DepthAt(flat: seq<FlatNode>, i: nat): nat {
    if i < |flat| then flat[i].depth else 0
  }

  function ZonesAfter(flat: seq<FlatNode>, i: nat): seq<Zone>
    requires i < |flat|
  {
    if DepthAt(flat, i + 1) <= flat[i].depth then
      ClosingZones(flat, flat[i], flat[i].depth, DepthAt(flat, i + 1))
    else
      [Zone(Some(flat[i].node.id), 0)]
  }

  lemma ClosingStep(flat: seq<FlatNode>, row: FlatNode, above: FlatNode, depth: int, target: nat, before: seq<Zone>)
    requires depth >= target && (depth > target ==> above == RowAbove(flat, row))
    ensures before + ClosingZones(flat, row, depth, target)
         == (before + [Zone(row.parentId, row.siblingIndex + 1)]) + ClosingZones(flat, above, depth - 1, target)
  {
    Assoc(before, [Zone(row.parentId, row.siblingIndex + 1)], ClosingZones(flat, above, depth - 1, target));
  }

  method DropZonesAfter(flat: seq<FlatNode>, i: nat) returns (zones: seq<Zone>)
    requires i < |flat|
    ensures zones == ZonesAfter(flat, i)
  {
    zones := [];
    if i + 1 == |flat| || flat[i + 1].depth <= flat[i].depth {
      var targetDepth := if i + 1 == |flat| then 0 else flat[i + 1].depth;
      var cur := flat[i];
      var d: int := flat[i].depth;
      ghost var all := ClosingZones(flat, cur, d, targetDepth);
      assert all == ZonesAfter(flat, i);
      while d >= targetDepth
        invariant targetDepth - 1 <= d
        invariant zones + ClosingZones(flat, cur, d, targetDepth) == all
      {
        ghost var row, before := cur, zones;
        zones := zones + [Zone(cur.parentId, cur.siblingIndex + 1)];
        if d > targetDepth {
          var ancestor := FindRow(flat, cur.parentId);
          if ancestor.Some? {
            cur := ancestor.value;
          }
        }
        ClosingStep(flat, row, cur, d, targetDepth, before);
        d := d - 1;
      }
    } else {
      zones := [Zone(Some(flat[i].node.id), 0)];
    }
  }

  ghost function AfterRow(flat: seq<FlatNode>): nat -> seq<Zone> {
    (i: nat) => if i < |flat| then ZonesAfter(flat, i) else []
  }

  /** The gaps after the rows from `lo` up to `hi`. */
  ghost function ZonesBetween(flat: seq<FlatNode>, lo: nat, hi: nat): seq<Zone>
    requires lo <= hi <= |flat|
  {
    Joined(AfterRow(flat), lo, hi)
  }

  /** All gaps of the page, top to bottom; an empty tree shows a placeholder instead. */
  ghost function AllZones(tree: Forest): seq<Zone> {
    var flat := Flatten(tree, 0, None, 0);
    if tree == [] then [] else [Zone(None, 0)] + ZonesBetween(flat, 0, |flat|)
  }

  method RenderZones(tree: Forest) returns (zones: seq<Zone>)
    ensures zones == AllZones(tree)
  {
    zones := [];
    if tree != [] {
      var flat := FlattenTree(tree, 0, None);
      zones := [Zone(None, 0)];
      for i := 0 to |flat|
        invariant zones + ZonesBetween(flat, i, |flat|) == AllZones(tree)
      {
        var after := DropZonesAfter(flat, i);
        Assoc(zones, after, ZonesBetween(flat, i + 1, |flat|));
        zones := zones + after;
      }
    }
  }

  // ─── What the gaps should be ───

  /** The gaps of a sibling list, first gap excluded, and of everything below it. */
  ghost function GapsOf(nodes: Forest, parentId: Option<int>, first: nat): seq<Zone> {
    if nodes == [] then
      []
    else
      var n := nodes[0];
      (if n.children == [] then [] else [Zone(Some(n.id), 0)])
      + GapsOf(n.children, Some(n.id), 0)
      + [Zone(parentId, first + 1)]
      + GapsOf(nodes[1..], parentId, first + 1)
  }

  /** A place where a group can be inserted: any position at the root level or among existing children. */
  ghost predicate IsInsertionPoint(tree: Forest, z: Zone) {
    match z.parentId
    case None => z.insertIndex <= |tree|
    case Some(id) =>
      exists v :: v in NodeSet(tree) && v.id == id && v.children != [] && z.insertIndex <= |v.children|
  }

  ghost function NodeCount(nodes: Forest): nat {
    if nodes == [] then 0 else 1 + NodeCount(nodes[0].children) + NodeCount(nodes[1..])
  }

  ghost function InternalCount(nodes: Forest): nat {
    if nodes == [] then
      0
    else
      (if nodes[0].children == [] then 0 else 1) + InternalCount(nodes[0].children) + InternalCount(nodes[1..])
  }

  // ─── The walk back up closes exactly the levels that end ───

  ghost predicate DistinctRows(flat: seq<FlatNode>) {
    forall i, j :: 0 <= i < j < |flat| ==> flat[i].node.id != flat[j].node.id
  }

  lemma {:induction false} RowIdsDistinct(nodes: Forest, depth: nat, parentId: Option<int>, first: nat)
    requires DistinctIds(nodes)
    ensures DistinctRows(Flatten(nodes, depth, parentId, first))
    ensures forall f :: f in Flatten(nodes, depth, parentId, first) ==> f.node.id in IdSet(nodes)
    decreases nodes
  {
    if nodes != [] {
      var inner := Flatten(nodes[0].children, depth + 1, Some(nodes[0].id), 0);
      var outer := Flatten(nodes[1..], depth, parentId, first + 1);
      RowIdsDistinct(nodes[0].children, depth + 1, Some(nodes[0].id), 0);
      RowIdsDistinct(nodes[1..], depth, parentId, first + 1);
      assert forall i :: 0 <= i < |inner| ==> inner[i] in inner;
      assert forall i :: 0 <= i < |outer| ==> outer[i] in outer;
    }
  }

  lemma {:induction false} FindRowAt(flat: seq<FlatNode>, i: nat)
    requires DistinctRows(flat) && i < |flat|
    ensures FindRow(flat, Some(flat[i].node.id)) == Some(flat[i])
  {
    if i > 0 {
      FindRowAt(flat[1..], i - 1);
    }
  }

  lemma ZonesBetweenSplit(flat: seq<FlatNode>, lo: nat, mid: nat, hi: nat)
    requires lo <= mid <= hi <= |flat|
    ensures ZonesBetween(flat, lo, hi) == ZonesBetween(flat, lo, mid) + ZonesBetween(flat, mid, hi)
  {
    JoinedSplit(AfterRow(flat), lo, mid, hi);
  }

  /** `nodes` occupies the rows from `lo` to `hi`, and `above` is the row of its parent. */
  ghost predicate Block(
      flat: seq<FlatNode>, lo: nat, hi: nat, nodes: Forest, depth: nat, parentId: Option<int>, first: nat,
      above: FlatNode)
  {
    && nodes != [] && DistinctRows(flat)
    && lo <= hi <= |flat| && flat[lo..hi] == Flatten(nodes, depth, parentId, first)
    && DepthAt(flat, hi) <= depth
    && (depth > 0 ==> FindRow(flat, parentId) == Some(above))
  }

  /** After the rows of a sibling list come its own gaps, then those of the outer levels that end there. */
  lemma {:induction false} BlockZones(
      flat: seq<FlatNode>, lo: nat, hi: nat, nodes: Forest, depth: nat, parentId: Option<int>, first: nat,
      above: FlatNode)
    requires Block(flat, lo, hi, nodes, depth, parentId, first, above)
    ensures ZonesBetween(flat, lo, hi)
         == GapsOf(nodes, parentId, first) + ClosingZones(flat, above, depth - 1, DepthAt(flat, hi))
    decreases nodes
  {
    var mid := BlockParts(flat, lo, hi, nodes, depth, parentId, first, above);
    if nodes[0].children != [] {
      BlockZones(flat, lo + 1, mid, nodes[0].children, depth + 1, Some(nodes[0].id), 0, flat[lo]);
    }
    SubtreeZones(flat, lo, mid, nodes, depth, parentId, first, above);
    if nodes[1..] != [] {
      BlockZones(flat, mid, hi, nodes[1..], depth, parentId, first + 1, above);
    }
    JoinZones(flat, lo, mid, hi, nodes, depth, parentId, first, above);
  }

  lemma JoinZones(
      flat: seq<FlatNode>, lo: nat, mid: nat, hi: nat, nodes: Forest, depth: nat, parentId: Option<int>, first: nat,
      above: FlatNode)
    requires nodes != [] && lo <= mid <= hi <= |flat|
    requires ZonesBetween(flat, lo, mid)
         == FirstGaps(nodes[0], parentId, first) + ClosingZones(flat, above, depth - 1, DepthAt(flat, mid))
    requires nodes[1..] == [] ==> mid == hi
    requires nodes[1..] != [] ==>
      && DepthAt(flat, mid) == depth
      && ZonesBetween(flat, mid, hi)
         == GapsOf(nodes[1..], parentId, first + 1) + ClosingZones(flat, above, depth - 1, DepthAt(flat, hi))
    ensures ZonesBetween(flat, lo, hi)
         == GapsOf(nodes, parentId, first) + ClosingZones(flat, above, depth - 1, DepthAt(flat, hi))
  {
    ZonesBetweenSplit(flat, lo, mid, hi);
    var firstGaps := FirstGaps(nodes[0], parentId, first);
    assert GapsOf(nodes, parentId, first) == firstGaps + GapsOf(nodes[1..], parentId, first + 1);
    if nodes[1..] == [] {
      assert ZonesBetween(flat, mid, hi) == [];
      assert firstGaps + [] == firstGaps;
    } else {
      assert ClosingZones(flat, above, depth - 1, DepthAt(flat, mid)) == [];
      assert firstGaps + [] == firstGaps;
      Assoc(firstGaps, GapsOf(nodes[1..], parentId, first + 1),
        ClosingZones(flat, above, depth - 1, DepthAt(flat, hi)));
    }
  }

  ghost function FirstGaps(n: GroupNode, parentId: Option<int>, first: nat): seq<Zone> {
    (if n.children == [] then [] else [Zone(Some(n.id), 0)])
    + GapsOf(n.children, Some(n.id), 0)
    + [Zone(parentId, first + 1)]
  }

  /** The rows of the first node and below it close with the gap after it, then the outer levels. */
  lemma SubtreeZones(
      flat: seq<FlatNode>, lo: nat, mid: nat, nodes: Forest, depth: nat, parentId: Option<int>, first: nat,
      above: FlatNode)
    requires nodes != [] && lo < mid <= |flat| && flat[lo] == FlatNode(nodes[0], depth, parentId, first)
    requires DepthAt(flat, mid) <= depth && (depth > 0 ==> FindRow(flat, parentId) == Some(above))
    requires nodes[0].children == [] ==> mid == lo + 1
    requires nodes[0].children != [] ==>
      && lo + 1 < mid && flat[lo + 1].depth == depth + 1
      && ZonesBetween(flat, lo + 1, mid)
         == GapsOf(nodes[0].children, Some(nodes[0].id), 0) + ClosingZones(flat, flat[lo], depth, DepthAt(flat, mid))
    ensures ZonesBetween(flat, lo, mid)
         == FirstGaps(nodes[0], parentId, first) + ClosingZones(flat, above, depth - 1, DepthAt(flat, mid))
  {
    var n := nodes[0];
    var head := if n.children == [] then [] else [Zone(Some(n.id), 0)];
    var inner := GapsOf(n.children, Some(n.id), 0);
    var own := [Zone(parentId, first + 1)];
    var outer := ClosingZones(flat, above, depth - 1, DepthAt(flat, mid));
    assert ClosingZones(flat, flat[lo], depth, DepthAt(flat, mid)) == own + outer;
    if n.children == [] {
      assert ZonesBetween(flat, mid, mid) == [];
      assert ZonesAfter(flat, lo) + [] == own + outer;
      assert head + inner + own == own;
    } else {
      assert ZonesAfter(flat, lo) == head;
      Regroup(head, inner, own, outer);
    }
  }

  lemma Regroup<T>(a: seq<T>, b: seq<T>, c: seq<T>, d: seq<T>)
    ensures a + (b + (c + d)) == (a + b + c) + d
  {}

  lemma BlockParts(
      flat: seq<FlatNode>, lo: nat, hi: nat, nodes: Forest, depth: nat, parentId: Option<int>, first: nat,
      above: FlatNode)
    returns (mid: nat)
    requires Block(flat, lo, hi, nodes, depth, parentId, first, above)
    ensures lo < mid <= hi && flat[lo] == FlatNode(nodes[0], depth, parentId, first)
    ensures DepthAt(flat, mid) <= depth
    ensures nodes[0].children == [] ==> mid == lo + 1
    ensures nodes[0].children != [] ==>
      && lo + 1 < mid && flat[lo + 1].depth == depth + 1
      && Block(flat, lo + 1, mid, nodes[0].children, depth + 1, Some(nodes[0].id), 0, flat[lo])
    ensures nodes[1..] == [] ==> mid == hi
    ensures nodes[1..] != [] ==>
      && DepthAt(flat, mid) == depth
      && Block(flat, mid, hi, nodes[1..], depth, parentId, first + 1, above)
  {
    var n := nodes[0];
    var inner := Flatten(n.children, depth + 1, Some(n.id), 0);
    var outer := Flatten(nodes[1..], depth, parentId, first + 1);
    var all := flat[lo..hi];
    mid := lo + 1 + |inner|;
    assert all == [FlatNode(n, depth, parentId, first)] + inner + outer;
    assert flat[lo] == all[0];
    FindRowAt(flat, lo);
    SliceOfSlice(flat, lo, hi, 1, 1 + |inner|);
    SliceOfSlice(flat, lo, hi, 1 + |inner|, |all|);
    assert all[1..1 + |inner|] == inner;
    assert all[1 + |inner|..|all|] == outer;
    if n.children != [] {
      assert flat[lo + 1] == all[1] == inner[0];
    }
    if nodes[1..] != [] {
      assert flat[mid] == outer[0];
    }
  }

  // ─── Main results ───

  /** The row-by-row computation yields the gaps of the tree, in their structural order. */
  lemma ZonesAreGaps(tree: Forest)
    requires DistinctIds(tree) && tree != []
    ensures AllZones(tree) == [Zone(None, 0)] + GapsOf(tree, None, 0)
  {
    var flat := Flatten(tree, 0, None, 0);
    RowIdsDistinct(tree, 0, None, 0);
    assert flat[0..|flat|] == flat;
    BlockZones(flat, 0, |flat|, tree, 0, None, 0, flat[0]);
  }

  ghost function Once(b: bool): nat { if b then 1 else 0 }

  /** How often a gap occurs among those of a sibling list. */
  ghost function GapCount(nodes: Forest, parentId: Option<int>, first: nat, z: Zone): nat {
    if nodes == [] then
      0
    else
      Once(nodes[0].children != [] && z == Zone(Some(nodes[0].id), 0))
      + GapCount(nodes[0].children, Some(nodes[0].id), 0, z)
      + Once(z == Zone(parentId, first + 1))
      + GapCount(nodes[1..], parentId, first + 1, z)
  }

  lemma GapCountParts(nodes: Forest, parentId: Option<int>, first: nat, z: Zone)
    requires nodes != []
    ensures multiset(GapsOf(nodes, parentId, first))[z]
         == Once(nodes[0].children != [] && z == Zone(Some(nodes[0].id), 0))
            + multiset(GapsOf(nodes[0].children, Some(nodes[0].id), 0))[z]
            + Once(z == Zone(parentId, first + 1))
            + multiset(GapsOf(nodes[1..], parentId, first + 1))[z]
  {
    var n := nodes[0];
    var head := if n.children == [] then [] else [Zone(Some(n.id), 0)];
    var own := [Zone(parentId, first + 1)];
    CountFour(head, GapsOf(n.children, Some(n.id), 0), own, GapsOf(nodes[1..], parentId, first + 1), z);
  }

  lemma CountFour<T>(a: seq<T>, b: seq<T>, c: seq<T>, d: seq<T>, z: T)
    ensures multiset(a + b + c + d)[z] == multiset(a)[z] + multiset(b)[z] + multiset(c)[z] + multiset(d)[z]
  {
    CountConcat(a + b + c, d, z);
    CountConcat(a + b, c, z);
    CountConcat(a, b, z);
  }

  lemma {:induction false} GapCountIsMultiplicity(nodes: Forest, parentId: Option<int>, first: nat, z: Zone)
    ensures multiset(GapsOf(nodes, parentId, first))[z] == GapCount(nodes, parentId, first, z)
    decreases nodes
  {
    if nodes != [] {
      GapCountIsMultiplicity(nodes[0].children, Some(nodes[0].id), 0, z);
      GapCountIsMultiplicity(nodes[1..], parentId, first + 1, z);
      GapCountParts(nodes, parentId, first, z);
    }
  }

  lemma {:induction false} NoForeignGaps(nodes: Forest, parentId: Option<int>, first: nat, z: Zone)
    requires z.parentId != parentId && (z.parentId.Some? ==> z.parentId.value !in IdSet(nodes))
    ensures GapCount(nodes, parentId, first, z) == 0
    decreases nodes
  {
    if nodes != [] {
      NoForeignGaps(nodes[0].children, Some(nodes[0].id), 0, z);
      NoForeignGaps(nodes[1..], parentId, first + 1, z);
    }
  }

  /** A sibling list has each of its own gaps but the first exactly once. */
  lemma {:induction false} OwnGapsOnce(nodes: Forest, parentId: Option<int>, first: nat, z: Zone)
    requires z.parentId == parentId && (parentId.Some? ==> parentId.value !in IdSet(nodes))
    ensures GapCount(nodes, parentId, first, z) == Once(first < z.insertIndex <= first + |nodes|)
    decreases nodes
  {
    if nodes != [] {
      NoForeignGaps(nodes[0].children, Some(nodes[0].id), 0, z);
      OwnGapsOnce(nodes[1..], parentId, first + 1, z);
    }
  }

  /** Below a sibling list, each insertion point has exactly one gap. */
  lemma {:induction false} DeeperGapsOnce(nodes: Forest, parentId: Option<int>, first: nat, z: Zone)
    requires DistinctIds(nodes) && z.parentId != parentId && z.parentId.Some?
    ensures GapCount(nodes, parentId, first, z) == Once(IsInsertionPoint(nodes, z))
    decreases nodes
  {
    if nodes != [] {
      var n := nodes[0];
      PointsOfParts(nodes, z);
      PointsInside(n.children, z);
      PointsInside(nodes[1..], z);
      if z.parentId == Some(n.id) {
        OwnGapsOnce(n.children, Some(n.id), 0, z);
        NoForeignGaps(nodes[1..], parentId, first + 1, z);
      } else {
        DeeperGapsOnce(n.children, Some(n.id), 0, z);
        DeeperGapsOnce(nodes[1..], parentId, first + 1, z);
      }
    }
  }

  lemma PointsInside(nodes: Forest, z: Zone)
    requires z.parentId.Some?
    ensures IsInsertionPoint(nodes, z) ==> z.parentId.value in IdSet(nodes)
  {}

  lemma PointsOfParts(nodes: Forest, z: Zone)
    requires z.parentId.Some? && nodes != []
    ensures IsInsertionPoint(nodes, z) <==>
      || (z.parentId == Some(nodes[0].id) && nodes[0].children != [] && z.insertIndex <= |nodes[0].children|)
      || IsInsertionPoint(nodes[0].children, z)
      || IsInsertionPoint(nodes[1..], z)
  {}

  /** Every insertion point of a non-empty tree has exactly one gap, and there are no others; an empty one has none. */
  lemma EveryGapExactlyOnce(tree: Forest, z: Zone)
    requires DistinctIds(tree)
    ensures multiset(AllZones(tree))[z] == Once(tree != [] && IsInsertionPoint(tree, z))
  {
    if tree == [] {
      return;
    }
    ZonesAreGaps(tree);
    CountConcat([Zone(None, 0)], GapsOf(tree, None, 0), z);
    GapCountIsMultiplicity(tree, None, 0, z);
    if z.parentId == None {
      OwnGapsOnce(tree, None, 0, z);
    } else {
      DeeperGapsOnce(tree, None, 0, z);
    }
  }

  lemma {:induction false} GapTotal(nodes: Forest, parentId: Option<int>, first: nat)
    ensures |GapsOf(nodes, parentId, first)| == NodeCount(nodes) + InternalCount(nodes)
    decreases nodes
  {
    if nodes != [] {
      GapTotal(nodes[0].children, Some(nodes[0].id), 0);
      GapTotal(nodes[1..], parentId, first + 1);
    }
  }

  lemma ZoneTotal(tree: Forest)
    requires DistinctIds(tree) && tree != []
    ensures |AllZones(tree)| == NodeCount(tree) + InternalCount(tree) + 1
  {
    ZonesAreGaps(tree);
    GapTotal(tree, None, 0);
  }
}
