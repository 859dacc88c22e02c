/** The parent relation of a group forest, descendants, and what a reparenting move does to it. */
module Ancestry {
  import opened Wrappers
  import opened GroupTree
  import opened Sequences

  /** Each group's parent; `None` for a root. */
  type ParentMap = map<int, Option<int>>

  ghost function Parents(nodes: Forest, parentId: Option<int>): (r: ParentMap)
    ensures r.Keys == IdSet(nodes)
  {
    if nodes == [] then
      map[]
    else
      map[nodes[0].id := parentId] + Parents(nodes[0].children, Some(nodes[0].id)) + Parents(nodes[1..], parentId)
  }

  ghost function ParentOf(pm: ParentMap, x: Option<int>): Option<int> {
    if x.Some? && x.value in pm then pm[x.value] else None
  }

  /** The group `steps` levels above `x`. */
  ghost function Up(pm: ParentMap, x: Option<int>, steps: nat): Option<int>
    decreases steps
  {
    if steps == 0 then x else Up(pm, ParentOf(pm, x), steps - 1)
  }

  ghost predicate ProperAncestor(pm: ParentMap, a: int, c: int) {
    exists steps: nat :: steps > 0 && Up(pm, Some(c), steps) == Some(a)
  }

  /** Every parent exists, and going up from any group ends at a root. */
  ghost predicate IsForest(pm: ParentMap) {
    && (forall x :: x in pm && pm[x].Some? ==> pm[x].value in pm)
    && (forall x :: x in pm ==> exists steps: nat :: Up(pm, Some(x), steps) == None)
  }

  lemma {:induction false} UpAdd(pm: ParentMap, x: Option<int>, m: nat, n: nat)
    ensures Up(pm, x, m + n) == Up(pm, Up(pm, x, m), n)
    decreases m
  {
    if m > 0 {
      UpAdd(pm, ParentOf(pm, x), m - 1, n);
    }
  }

  lemma {:induction false} UpFromNone(pm: ParentMap, n: nat)
    ensures Up(pm, None, n) == None
  {
    if n > 0 {
      UpFromNone(pm, n - 1);
    }
  }

  // ─── Searches of the page and of the store ───

  function FindInChildren(nodes: Forest, id: int): (r: bool)
    ensures r <==> id in IdSet(nodes)
  {
    nodes != [] && (nodes[0].id == id || FindInChildren(nodes[0].children, id) || FindInChildren(nodes[1..], id))
  }

  function IsDescendantOf(nodes: Forest, ancestorId: int, candidateId: int): bool {
    nodes != [] &&
    if nodes[0].id == ancestorId then
      FindInChildren(nodes[0].children, candidateId)
    else
      || IsDescendantOf(nodes[0].children, ancestorId, candidateId)
      || IsDescendantOf(nodes[1..], ancestorId, candidateId)
  }

  function FindNodeById(nodes: Forest, id: int): (r: Option<GroupNode>)
    ensures r.Some? ==> r.value in NodeSet(nodes) && r.value.id == id
    ensures r.None? ==> id !in IdSet(nodes)
  {
    if nodes == [] then None
    else if nodes[0].id == id then Some(nodes[0])
    else
      var found := FindNodeById(nodes[0].children, id);
      if found.Some? then found else FindNodeById(nodes[1..], id)
  }

  function FindAncestorIds(nodes: Forest, targetId: int, path: seq<int>): (r: Option<seq<int>>)
    ensures r.Some? <==> targetId in IdSet(nodes)
    decreases nodes
  {
    if nodes == [] then None
    else if nodes[0].id == targetId then Some(path)
    else
      var below := FindAncestorIds(nodes[0].children, targetId, path + [nodes[0].id]);
      if below.Some? then below else FindAncestorIds(nodes[1..], targetId, path)
  }

  // ─── The path found is the chain of proper ancestors ───

  /** `pm` holds the true parent of every node of `nodes`, whose own parent is `parentId`. */
  ghost predicate Agrees(pm: ParentMap, nodes: Forest, parentId: Option<int>) {
    nodes != [] ==>
      && nodes[0].id in pm && pm[nodes[0].id] == parentId
      && Agrees(pm, nodes[0].children, Some(nodes[0].id))
      && Agrees(pm, nodes[1..], parentId)
  }

  lemma {:induction false} AgreesExtends(pm: ParentMap, larger: ParentMap, nodes: Forest, parentId: Option<int>)
    requires Agrees(pm, nodes, parentId)
    requires forall x :: x in IdSet(nodes) ==> x in larger && x in pm && larger[x] == pm[x]
    ensures Agrees(larger, nodes, parentId)
  {
    if nodes != [] {
      AgreesExtends(pm, larger, nodes[0].children, Some(nodes[0].id));
      AgreesExtends(pm, larger, nodes[1..], parentId);
    }
  }

  lemma {:induction false} ParentsAgree(nodes: Forest, parentId: Option<int>)
    requires DistinctIds(nodes)
    ensures Agrees(Parents(nodes, parentId), nodes, parentId)
  {
    if nodes != [] {
      var pm := Parents(nodes, parentId);
      ParentsAgree(nodes[0].children, Some(nodes[0].id));
      ParentsAgree(nodes[1..], parentId);
      AgreesExtends(Parents(nodes[0].children, Some(nodes[0].id)), pm, nodes[0].children, Some(nodes[0].id));
      AgreesExtends(Parents(nodes[1..], parentId), pm, nodes[1..], parentId);
    }
  }

  /** The ids on the way from the top of `nodes` down to `x`, `x` itself excluded. */
  ghost function AncestorPath(nodes: Forest, x: int): seq<int>
    requires x in IdSet(nodes)
  {
    if nodes[0].id == x then []
    else if x in IdSet(nodes[0].children) then [nodes[0].id] + AncestorPath(nodes[0].children, x)
    else AncestorPath(nodes[1..], x)
  }

  lemma {:induction false} FindAncestorIdsIsPath(nodes: Forest, x: int, path: seq<int>)
    requires x in IdSet(nodes)
    ensures FindAncestorIds(nodes, x, path) == Some(path + AncestorPath(nodes, x))
    decreases nodes
  {
    if nodes[0].id == x {
      assert path + [] == path;
    } else if x in IdSet(nodes[0].children) {
      FindAncestorIdsIsPath(nodes[0].children, x, path + [nodes[0].id]);
      assert path + [nodes[0].id] + AncestorPath(nodes[0].children, x) == path + AncestorPath(nodes, x);
    } else {
      FindAncestorIdsIsPath(nodes[1..], x, path);
    }
  }

  /** Read backwards, the path is what going up yields; one step more leaves the forest. */
  lemma {:induction false} PathIsChain(pm: ParentMap, nodes: Forest, parentId: Option<int>, x: int)
    requires Agrees(pm, nodes, parentId) && x in IdSet(nodes)
    ensures var path := AncestorPath(nodes, x);
      && (forall i :: 0 <= i < |path| ==> Up(pm, Some(x), |path| - i) == Some(path[i]))
      && Up(pm, Some(x), |path| + 1) == parentId
  {
    if nodes[0].id == x {
      assert Up(pm, Some(x), 1) == Up(pm, parentId, 0);
    } else if x in IdSet(nodes[0].children) {
      var below := AncestorPath(nodes[0].children, x);
      PathIsChain(pm, nodes[0].children, Some(nodes[0].id), x);
      UpAdd(pm, Some(x), |below| + 1, 1);
      assert Up(pm, Some(nodes[0].id), 1) == Up(pm, parentId, 0);
    } else {
      PathIsChain(pm, nodes[1..], parentId, x);
    }
  }

  lemma {:induction false} PathMembersAreAncestors(nodes: Forest, a: int, x: int)
    requires DistinctIds(nodes)
    ensures IsDescendantOf(nodes, a, x) <==> x in IdSet(nodes) && a in AncestorPath(nodes, x)
  {
    if nodes != [] {
      PathMembersAreAncestors(nodes[0].children, a, x);
      PathMembersAreAncestors(nodes[1..], a, x);
      PathStaysInside(nodes[0].children, x);
      PathStaysInside(nodes[1..], x);
    }
  }

  lemma {:induction false} PathStaysInside(nodes: Forest, x: int)
    requires DistinctIds(nodes)
    ensures x in IdSet(nodes) ==>
      && x !in AncestorPath(nodes, x)
      && forall a :: a in AncestorPath(nodes, x) ==> a in IdSet(nodes)
  {
    if nodes != [] {
      PathStaysInside(nodes[0].children, x);
      PathStaysInside(nodes[1..], x);
    }
  }

  /** Step by step, the path is what going up yields; beyond it there is nothing. */
  lemma ChainOfPath(pm: ParentMap, tree: Forest, x: int, path: seq<int>)
    requires DistinctIds(tree) && pm == Parents(tree, None) && x in IdSet(tree) && path == AncestorPath(tree, x)
    ensures forall i :: 0 <= i < |path| ==> Up(pm, Some(x), |path| - i) == Some(path[i])
    ensures Up(pm, Some(x), |path| + 1) == None
  {
    ParentsAgree(tree, None);
    PathIsChain(pm, tree, None, x);
  }

  lemma NothingBeyond(pm: ParentMap, x: Option<int>, end: nat, steps: nat)
    requires Up(pm, x, end) == None && steps >= end
    ensures Up(pm, x, steps) == None
  {
    UpAdd(pm, x, end, steps - end);
    UpFromNone(pm, steps - end);
  }

  lemma ChainMembers(pm: ParentMap, x: int, path: seq<int>, a: int)
    requires forall i :: 0 <= i < |path| ==> Up(pm, Some(x), |path| - i) == Some(path[i])
    requires Up(pm, Some(x), |path| + 1) == None
    ensures a in path <==> ProperAncestor(pm, a, x)
  {
    if a in path {
      var i :| 0 <= i < |path| && path[i] == a;
      assert Up(pm, Some(x), |path| - i) == Some(a);
    }
    if ProperAncestor(pm, a, x) {
      var steps: nat :| steps > 0 && Up(pm, Some(x), steps) == Some(a);
      if steps > |path| {
        NothingBeyond(pm, Some(x), |path| + 1, steps);
      }
      assert path[|path| - steps] == a;
    }
  }

  /** The ids found by the store are exactly the proper ancestors, nearest last. */
  lemma AncestorIdsAreTheChain(tree: Forest, x: int, path: seq<int>)
    requires DistinctIds(tree) && FindAncestorIds(tree, x, []) == Some(path)
    ensures x in Parents(tree, None)
    ensures forall i :: 0 <= i < |path| ==> Up(Parents(tree, None), Some(x), |path| - i) == Some(path[i])
    ensures forall steps: nat :: steps > |path| ==> Up(Parents(tree, None), Some(x), steps) == None
    ensures forall a :: a in path <==> ProperAncestor(Parents(tree, None), a, x)
  {
    var pm := Parents(tree, None);
    FindAncestorIdsIsPath(tree, x, []);
    assert [] + AncestorPath(tree, x) == AncestorPath(tree, x);
    ChainOfPath(pm, tree, x, path);
    forall steps: nat | steps > |path| ensures Up(pm, Some(x), steps) == None {
      NothingBeyond(pm, Some(x), |path| + 1, steps);
    }
    forall a ensures a in path <==> ProperAncestor(pm, a, x) {
      ChainMembers(pm, x, path, a);
    }
  }

  /** The page's test is exactly "proper descendant". */
  lemma DescendantTestIsExact(tree: Forest, a: int, c: int)
    requires DistinctIds(tree)
    ensures IsDescendantOf(tree, a, c) <==> ProperAncestor(Parents(tree, None), a, c)
  {
    var pm := Parents(tree, None);
    PathMembersAreAncestors(tree, a, c);
    if c in IdSet(tree) {
      FindAncestorIdsIsPath(tree, c, []);
      assert [] + AncestorPath(tree, c) == AncestorPath(tree, c);
      AncestorIdsAreTheChain(tree, c, AncestorPath(tree, c));
    } else if ProperAncestor(pm, a, c) {
      var steps: nat :| steps > 0 && Up(pm, Some(c), steps) == Some(a);
      UpFromNone(pm, steps - 1);
      assert false;
    }
  }

  lemma TreeIsForest(tree: Forest)
    requires DistinctIds(tree)
    ensures IsForest(Parents(tree, None))
  {
    var pm := Parents(tree, None);
    ParentsAgree(tree, None);
    forall x | x in pm
      ensures exists steps: nat :: Up(pm, Some(x), steps) == None
      ensures pm[x].Some? ==> pm[x].value in pm
    {
      var path := AncestorPath(tree, x);
      PathIsChain(pm, tree, None, x);
      PathStaysInside(tree, x);
      assert Up(pm, Some(x), 1) == Up(pm, pm[x], 0);
      if path == [] {
        assert Up(pm, Some(x), 1) == None;
      } else {
        var p := path[|path| - 1];
        assert p in path;
        assert p in IdSet(tree);
        assert Up(pm, Some(x), |path| - (|path| - 1)) == Some(path[|path| - 1]);
        assert pm[x] == Some(path[|path| - 1]);
        assert p in pm.Keys;
      }
    }
  }

  /** Every row of the listing names the parent that the relation has. */
  lemma {:induction false} RowsNameTheirParents(
      pm: ParentMap, nodes: Forest, depth: nat, parentId: Option<int>, first: nat, f: FlatNode)
    requires Agrees(pm, nodes, parentId) && f in Flatten(nodes, depth, parentId, first)
    ensures f.node.id in pm && pm[f.node.id] == f.parentId
    decreases nodes
  {
    if f in Flatten(nodes[0].children, depth + 1, Some(nodes[0].id), 0) {
      RowsNameTheirParents(pm, nodes[0].children, depth + 1, Some(nodes[0].id), 0, f);
    } else if f in Flatten(nodes[1..], depth, parentId, first + 1) {
      RowsNameTheirParents(pm, nodes[1..], depth, parentId, first + 1, f);
    }
  }

  // ─── Children, by lookup and by parent relation ───

  function IdsOf(nodes: Forest): (r: seq<int>)
    ensures |r| == |nodes| && forall i :: 0 <= i < |r| ==> r[i] == nodes[i].id
  {
    if nodes == [] then [] else [nodes[0].id] + IdsOf(nodes[1..])
  }

  lemma {:induction false} IdsAreDistinct(nodes: Forest)
    requires DistinctIds(nodes)
    ensures NoDuplicates(IdsOf(nodes)) && forall x :: x in IdsOf(nodes) ==> x in IdSet(nodes)
  {
    if nodes != [] {
      IdsAreDistinct(nodes[1..]);
      ConsDistinct(nodes[0].id, IdsOf(nodes[1..]));
    }
  }

  lemma {:induction false} ParentsStayInside(nodes: Forest, parentId: Option<int>, x: int)
    requires x in IdSet(nodes)
    ensures var p := Parents(nodes, parentId)[x];
      p == parentId || (p.Some? && p.value in IdSet(nodes))
  {
    if x in IdSet(nodes[1..]) {
      ParentsStayInside(nodes[1..], parentId, x);
    } else if x in IdSet(nodes[0].children) {
      ParentsStayInside(nodes[0].children, Some(nodes[0].id), x);
    }
  }

  ghost predicate HasParent(pm: ParentMap, x: int, q: Option<int>) {
    x in pm && pm[x] == q
  }

  lemma HasParentOfParts(nodes: Forest, parentId: Option<int>, x: int, q: Option<int>)
    requires nodes != [] && DistinctIds(nodes)
    ensures HasParent(Parents(nodes, parentId), x, q) <==>
      || (x == nodes[0].id && parentId == q)
      || HasParent(Parents(nodes[0].children, Some(nodes[0].id)), x, q)
      || HasParent(Parents(nodes[1..], parentId), x, q)
  {}

  lemma {:induction false} TopLevelIds(nodes: Forest, parentId: Option<int>, x: int)
    requires DistinctIds(nodes) && (parentId.Some? ==> parentId.value !in IdSet(nodes))
    ensures x in IdsOf(nodes) <==> HasParent(Parents(nodes, parentId), x, parentId)
  {
    if nodes != [] {
      HasParentOfParts(nodes, parentId, x, parentId);
      TopLevelIds(nodes[1..], parentId, x);
      if x in IdSet(nodes[0].children) {
        ParentsStayInside(nodes[0].children, Some(nodes[0].id), x);
      }
    }
  }

  /** The children of the group that the page finds are the groups whose parent it is. */
  lemma {:induction false} FoundChildren(nodes: Forest, parentId: Option<int>, v: int, x: int)
    requires DistinctIds(nodes) && v in IdSet(nodes)
    requires parentId.Some? ==> parentId.value !in IdSet(nodes)
    ensures x in IdsOf(FindNodeById(nodes, v).value.children) <==> HasParent(Parents(nodes, parentId), x, Some(v))
    decreases nodes
  {
    var n, rest := nodes[0], nodes[1..];
    HasParentOfParts(nodes, parentId, x, Some(v));
    if x in IdSet(rest) {
      ParentsStayInside(rest, parentId, x);
    }
    if x in IdSet(n.children) {
      ParentsStayInside(n.children, Some(n.id), x);
    }
    if v == n.id {
      TopLevelIds(n.children, Some(n.id), x);
    } else if v in IdSet(n.children) {
      FoundChildren(n.children, Some(n.id), v, x);
    } else {
      FoundChildren(rest, parentId, v, x);
    }
  }

  // ─── Moving a group under a new parent ───

  /** The way up from `x` that avoids `d` is the same before and after `d` gets a new parent. */
  lemma {:induction false} UpUnaffected(pm: ParentMap, d: int, q: Option<int>, x: Option<int>, n: nat)
    requires forall k: nat :: k < n ==> Up(pm, x, k) != Some(d)
    ensures Up(pm[d := q], x, n) == Up(pm, x, n)
    decreases n
  {
    if n > 0 {
      assert Up(pm, x, 0) != Some(d);
      forall k: nat | k < n - 1 ensures Up(pm, ParentOf(pm, x), k) != Some(d) {
        assert Up(pm, x, k + 1) != Some(d);
      }
      UpUnaffected(pm, d, q, ParentOf(pm, x), n - 1);
    }
  }

  /** The first time `d` is met on the way up, if it is met within `n` steps. */
  lemma FirstMeeting(pm: ParentMap, d: int, x: Option<int>, n: nat) returns (m: nat)
    requires Up(pm, x, n) == Some(d)
    ensures m <= n && Up(pm, x, m) == Some(d)
    ensures forall k: nat :: k < m ==> Up(pm, x, k) != Some(d)
  {
    m := 0;
    while Up(pm, x, m) != Some(d)
      invariant m <= n
      invariant forall k: nat :: k < m ==> Up(pm, x, k) != Some(d)
      decreases n - m
    {
      m := m + 1;
    }
  }

  ghost predicate InOwnSubtree(pm: ParentMap, d: int, q: Option<int>) {
    q.Some? && (q.value == d || ProperAncestor(pm, d, q.value))
  }

  lemma EndsAtRoot(pm: ParentMap, d: int, q: Option<int>, x: Option<int>, n: nat)
    returns (steps: nat)
    requires d in pm && (q.Some? ==> q.value in pm) && IsForest(pm) && !InOwnSubtree(pm, d, q)
    requires Up(pm, x, n) == None
    ensures Up(pm[d := q], x, steps) == None
  {
    if exists k: nat :: k < n && Up(pm, x, k) == Some(d) {
      var k: nat :| k < n && Up(pm, x, k) == Some(d);
      var m := FirstMeeting(pm, d, x, k);
      UpUnaffected(pm, d, q, x, m);
      var rest: nat := 0;
      if q.Some? {
        var r: nat :| Up(pm, q, r) == None;
        forall i: nat | i < r ensures Up(pm, q, i) != Some(d) {
          assert i == 0 ==> Up(pm, q, i) == q;
        }
        UpUnaffected(pm, d, q, q, r);
        rest := r;
      }
      UpAdd(pm[d := q], x, m, 1 + rest);
      UpAdd(pm[d := q], Some(d), 1, rest);
      assert Up(pm[d := q], Some(d), 1) == Up(pm[d := q], q, 0);
      steps := m + (1 + rest);
    } else {
      UpUnaffected(pm, d, q, x, n);
      steps := n;
    }
  }

  /** Going round: from `d`, after a move into its own subtree, `d` is met again and again. */
  lemma {:induction false} CycleNeverEnds(pm: ParentMap, d: int, period: nat, n: nat)
    requires period > 0 && Up(pm, Some(d), period) == Some(d)
    ensures Up(pm, Some(d), n) != None
    decreases n
  {
    if n >= period {
      UpAdd(pm, Some(d), period, n - period);
      CycleNeverEnds(pm, d, period, n - period);
    } else if Up(pm, Some(d), n) == None {
      UpAdd(pm, Some(d), n, period - n);
      UpFromNone(pm, period - n);
    }
  }

  /** A move keeps the groups a forest if and only if the new parent is outside the moved subtree. */
  lemma MoveKeepsForestIff(pm: ParentMap, d: int, q: Option<int>)
    requires IsForest(pm) && d in pm && (q.Some? ==> q.value in pm)
    ensures IsForest(pm[d := q]) <==> !InOwnSubtree(pm, d, q)
  {
    var moved := pm[d := q];
    if InOwnSubtree(pm, d, q) {
      var n: nat := 0;
      if q.value != d {
        n :| n > 0 && Up(pm, q, n) == Some(d);
      }
      var m := FirstMeeting(pm, d, q, n);
      UpUnaffected(pm, d, q, q, m);
      UpAdd(moved, Some(d), 1, m);
      assert Up(moved, Some(d), 1) == Up(moved, q, 0);
      if IsForest(moved) {
        var steps: nat :| Up(moved, Some(d), steps) == None;
        CycleNeverEnds(moved, d, 1 + m, steps);
        assert false;
      }
    } else {
      forall x | x in moved ensures exists steps: nat :: Up(moved, Some(x), steps) == None {
        var n: nat :| Up(pm, Some(x), n) == None;
        var steps := EndsAtRoot(pm, d, q, Some(x), n);
      }
    }
  }
}
