/** Group permissions a team holds implicitly, through a permission on an ancestor group. */
module Coverage {
  import opened Wrappers
  import opened GroupTree
  import opened Ancestry

  /** The entry for one group; zero is falsy, so a cover with id 0 counts as no cover. */
  function OwnCover(n: GroupNode, direct: set<int>, coveredBy: Option<int>): map<int, int> {
    if coveredBy.Some? && coveredBy.value != 0 && n.id !in direct then map[n.id := coveredBy.value] else map[]
  }

  /** What one traversal records: each covered group with the assigned group that covers it. */
  function Covers(nodes: Forest, direct: set<int>, coveredBy: Option<int>): map<int, int> {
    if nodes == [] then
      map[]
    else
      var n := nodes[0];
      OwnCover(n, direct, coveredBy)
      + Covers(n.children, direct, if n.id in direct then Some(n.id) else coveredBy)
      + Covers(nodes[1..], direct, coveredBy)
  }

  class Collector {
    const assignedGroupIds: set<int>
    var coveredGroupIds: set<int>
    var coveredByGroupId: map<int, int>

    /** The set and the map always hold the same groups. */
    ghost predicate Valid()
      reads this
    {
      coveredGroupIds == coveredByGroupId.Keys
    }

    constructor (assignedGroupIds: set<int>)
      ensures Valid() && this.assignedGroupIds == assignedGroupIds && coveredByGroupId == map[]
    {
      this.assignedGroupIds := assignedGroupIds;
      coveredGroupIds, coveredByGroupId := {}, map[];
    }

    method CollectDescendants(nodes: Forest, coveredBy: Option<int>)
      requires Valid()
      modifies this
      ensures Valid()
      ensures coveredByGroupId == old(coveredByGroupId) + Covers(nodes, assignedGroupIds, coveredBy)
      decreases nodes
    {
      for i := 0 to |nodes|
        invariant Valid()
        invariant coveredByGroupId + Covers(nodes[i..], assignedGroupIds, coveredBy)
               == old(coveredByGroupId) + Covers(nodes, assignedGroupIds, coveredBy)
      {
        var node := nodes[i];
        ghost var start := coveredByGroupId;
        var directlyAssigned := node.id in assignedGroupIds;
        var effectiveCover := if directlyAssigned then Some(node.id) else coveredBy;
        if coveredBy.Some? && coveredBy.value != 0 && !directlyAssigned {
          coveredGroupIds := coveredGroupIds + {node.id};
          PutIsMerge(coveredByGroupId, node.id, coveredBy.value);
          coveredByGroupId := coveredByGroupId[node.id := coveredBy.value];
        } else {
          MergeNothing(coveredByGroupId);
        }
        assert nodes[i..][0] == node && nodes[i..][1..] == nodes[i + 1..];
        assert coveredByGroupId == start + OwnCover(node, assignedGroupIds, coveredBy);
        CollectDescendants(node.children, effectiveCover);
        CoversStep(nodes[i..], assignedGroupIds, coveredBy, start, coveredByGroupId);
      }
    }
  }

  lemma PutIsMerge(a: map<int, int>, k: int, v: int)
    ensures a[k := v] == a + map[k := v]
  {}

  lemma MergeNothing(a: map<int, int>)
    ensures a + map[] == a
  {}

  lemma CoversStep(
      nodes: Forest, direct: set<int>, coveredBy: Option<int>, before: map<int, int>, after: map<int, int>)
    requires nodes != []
    requires after == before + OwnCover(nodes[0], direct, coveredBy)
      + Covers(nodes[0].children, direct, if nodes[0].id in direct then Some(nodes[0].id) else coveredBy)
    ensures after + Covers(nodes[1..], direct, coveredBy) == before + Covers(nodes, direct, coveredBy)
  {
    MergeThrice(before, OwnCover(nodes[0], direct, coveredBy),
      Covers(nodes[0].children, direct, if nodes[0].id in direct then Some(nodes[0].id) else coveredBy),
      Covers(nodes[1..], direct, coveredBy));
  }

  lemma MergeThrice(a: map<int, int>, b: map<int, int>, c: map<int, int>, d: map<int, int>)
    ensures a + (b + c + d) == (a + b + c) + d
  {}

  /** `a` is the assigned group closest to the end of `path`. */
  ghost predicate IsNearest(path: seq<int>, direct: set<int>, a: int) {
    exists i :: 0 <= i < |path| && path[i] == a && a in direct && forall j :: i < j < |path| ==> path[j] !in direct
  }

  /** The cover in force at the end of `path`, if `coveredBy` is in force at its start. */
  ghost function CoverAfter(path: seq<int>, direct: set<int>, coveredBy: Option<int>): Option<int> {
    if path == [] then coveredBy
    else CoverAfter(path[1..], direct, if path[0] in direct then Some(path[0]) else coveredBy)
  }

  lemma {:induction false} CoverAfterIsNearest(path: seq<int>, direct: set<int>, coveredBy: Option<int>)
    ensures match CoverAfter(path, direct, coveredBy)
      case Some(a) =>
        || IsNearest(path, direct, a)
        || (coveredBy == Some(a) && forall x :: x in path ==> x !in direct)
      case None => coveredBy == None && forall x :: x in path ==> x !in direct
    decreases |path|
  {
    if path != [] {
      var first := if path[0] in direct then Some(path[0]) else coveredBy;
      CoverAfterIsNearest(path[1..], direct, first);
      var last := CoverAfter(path[1..], direct, first);
      if last.Some? && IsNearest(path[1..], direct, last.value) {
        var i :| 0 <= i < |path[1..]| && path[1..][i] == last.value && last.value in direct
              && forall j :: i < j < |path[1..]| ==> path[1..][j] !in direct;
        assert path[i + 1] == last.value;
        forall j | i + 1 < j < |path| ensures path[j] !in direct {
          assert path[j] == path[1..][j - 1];
        }
        assert IsNearest(path, direct, last.value);
      } else if path[0] in direct {
        forall j | 0 < j < |path| ensures path[j] !in direct {
          assert path[j] == path[1..][j - 1];
        }
        assert IsNearest(path, direct, path[0]);
      }
    }
  }

  lemma NearestIsUnique(path: seq<int>, direct: set<int>, a: int, b: int)
    requires IsNearest(path, direct, a) && IsNearest(path, direct, b)
    ensures a == b
  {}

  lemma {:induction false} CoversInside(nodes: Forest, direct: set<int>, coveredBy: Option<int>)
    ensures Covers(nodes, direct, coveredBy).Keys <= IdSet(nodes)
  {
    if nodes != [] {
      CoversInside(nodes[0].children, direct, if nodes[0].id in direct then Some(nodes[0].id) else coveredBy);
      CoversInside(nodes[1..], direct, coveredBy);
    }
  }

  lemma {:induction false} CoversAlongPath(nodes: Forest, direct: set<int>, coveredBy: Option<int>, g: int)
    requires DistinctIds(nodes) && g in IdSet(nodes)
    ensures var cover := CoverAfter(AncestorPath(nodes, g), direct, coveredBy);
      var covers := Covers(nodes, direct, coveredBy);
      && (g in covers <==> g !in direct && cover.Some? && cover.value != 0)
      && (g in covers ==> covers[g] == cover.value)
    decreases nodes
  {
    var n := nodes[0];
    var effective := if n.id in direct then Some(n.id) else coveredBy;
    CoversInside(n.children, direct, effective);
    CoversInside(nodes[1..], direct, coveredBy);
    if g == n.id {
    } else if g in IdSet(n.children) {
      CoversAlongPath(n.children, direct, effective, g);
      assert ([n.id] + AncestorPath(n.children, g))[1..] == AncestorPath(n.children, g);
    } else {
      CoversAlongPath(nodes[1..], direct, coveredBy, g);
    }
  }

  /**
   * A group is recorded as covered by `a` exactly when it is not itself assigned and `a` is the nearest
   * assigned group on its root path; a nearest group with id 0 records nothing.
   */
  lemma CoveredByNearestAssigned(tree: Forest, direct: set<int>, g: int, a: int)
    requires DistinctIds(tree)
    ensures g in Covers(tree, direct, None) && Covers(tree, direct, None)[g] == a <==>
      && g in IdSet(tree)
      && g !in direct
      && a != 0
      && IsNearest(FindAncestorIds(tree, g, []).value, direct, a)
  {
    CoversInside(tree, direct, None);
    if g in IdSet(tree) {
      var path := AncestorPath(tree, g);
      FindAncestorIdsIsPath(tree, g, []);
      assert [] + path == path;
      CoversAlongPath(tree, direct, None, g);
      CoverAfterIsNearest(path, direct, None);
      var cover := CoverAfter(path, direct, None);
      if cover.Some? && IsNearest(path, direct, a) {
        NearestIsUnique(path, direct, a, cover.value);
      }
    }
  }

  /** A cover with id 0 counts as none; ids of stored groups are positive, so no stored tree shows this. */
  lemma ZeroCoversNothing()
    ensures var tree := [GroupNode(0, [GroupNode(1, [])])];
      && IsNearest(FindAncestorIds(tree, 1, []).value, {0}, 0)
      && 1 !in Covers(tree, {0}, None)
  {
    var tree := [GroupNode(0, [GroupNode(1, [])])];
    assert tree[0].children[1..] == [] && tree[1..] == [];
    assert FindAncestorIds(tree[0].children, 1, [0]) == Some([0]);
    assert [] + [0] == [0];
    assert FindAncestorIds(tree, 1, []) == Some([0]);
    assert OwnCover(tree[0].children[0], {0}, Some(0)) == map[];
    assert 1 !in Covers(tree[0].children, {0}, Some(0));
    assert [0][0] == 0;
  }
}
