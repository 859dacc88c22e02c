/** Drag and drop in the group manager: which server calls a drop causes, and what they do to the tree. */
module GroupDrag {
  import opened Wrappers
  import opened GroupTree
  import opened Ancestry
  import opened Sequences

  /** The dragged group as it was when the drag began. */
  datatype Dragged = Dragged(id: int, parentId: Option<int>)

  datatype DropTarget =
    | Nowhere
    | OnGroup(groupId: int)
    | Between(parentId: Option<int>, insertIndex: nat)

  datatype ApiCall =
    | Move(id: int, parentId: Option<int>)
    | Reorder(items: seq<(int, nat)>)

  function Without(ids: seq<int>, d: int): (r: seq<int>)
    ensures d !in r
  {
    if ids == [] then [] else (if ids[0] == d then [] else [ids[0]]) + Without(ids[1..], d)
  }

  function Numbered(ids: seq<int>): (r: seq<(int, nat)>)
    ensures |r| == |ids| && forall i :: 0 <= i < |r| ==> r[i] == (ids[i], i)
  {
    seq(|ids|, i requires 0 <= i < |ids| => (ids[i], i))
  }

  /** The children of the drop's parent, as the page looks them up. */
  function ParentChildren(tree: Forest, parentId: Option<int>): Forest {
    if parentId == None then
      tree
    else
      var found := FindNodeById(tree, parentId.value);
      if found.Some? then found.value.children else []
  }

  function InsertAt(siblings: seq<int>, d: int, insertIndex: nat): seq<int> {
    var at := if insertIndex < |siblings| then insertIndex else |siblings|;
    siblings[..at] + [d] + siblings[at..]
  }

  function NewOrder(children: seq<int>, d: int, insertIndex: nat): seq<int> {
    InsertAt(Without(children, d), d, insertIndex)
  }

  function DropCalls(tree: Forest, dragged: Option<Dragged>, over: DropTarget, moveSucceeds: bool): seq<ApiCall> {
    if dragged == None then
      []
    else
      var Dragged(d, oldParent) := dragged.value;
      match over
      case Nowhere => []
      case OnGroup(g) =>
        if g == d || Some(g) == oldParent || IsDescendantOf(tree, d, g) then [] else [Move(d, Some(g))]
      case Between(q, insertIndex) =>
        if q.Some? && IsDescendantOf(tree, d, q.value) then
          []
        else
          var reorder := [Reorder(Numbered(NewOrder(IdsOf(ParentChildren(tree, q)), d, insertIndex)))];
          if oldParent == q then reorder
          else [Move(d, q)] + (if moveSucceeds then reorder else [])
  }

  method HandleDragEnd(tree: Forest, dragged: Option<Dragged>, over: DropTarget, moveSucceeds: bool)
    returns (calls: seq<ApiCall>)
    ensures calls == DropCalls(tree, dragged, over, moveSucceeds)
  {
    calls := [];
    if over == Nowhere || dragged == None {
      return;
    }
    var d := dragged.value.id;
    if over.OnGroup? {
      if over.groupId == d { return; }
      if Some(over.groupId) == dragged.value.parentId { return; }
      if IsDescendantOf(tree, d, over.groupId) { return; }
      calls := [Move(d, Some(over.groupId))];
    } else {
      if over.parentId.Some? && IsDescendantOf(tree, d, over.parentId.value) { return; }
      if dragged.value.parentId != over.parentId {
        calls := [Move(d, over.parentId)];
        if !moveSucceeds { return; }
      }
      var siblings := Without(IdsOf(ParentChildren(tree, over.parentId)), d);
      var finalOrder := InsertDragged(siblings, d, over.insertIndex);
      calls := calls + [Reorder(Numbered(finalOrder))];
    }
  }

  method InsertDragged(siblings: seq<int>, d: int, insertIndex: nat) returns (finalOrder: seq<int>)
    ensures finalOrder == InsertAt(siblings, d, insertIndex)
  {
    var clamped := if insertIndex < |siblings| then insertIndex else |siblings|;
    finalOrder := [];
    for i := 0 to |siblings|
      invariant i <= clamped ==> finalOrder == siblings[..i]
      invariant i > clamped ==> finalOrder == siblings[..clamped] + [d] + siblings[clamped..i]
    {
      if i == clamped {
        finalOrder := finalOrder + [d];
      }
      finalOrder := finalOrder + [siblings[i]];
    }
    if clamped >= |siblings| {
      finalOrder := finalOrder + [d];
    }
  }

  // ─── The guard ───

  /** The drop names a place of the tree, as every rendered drop zone does. */
  ghost predicate TargetExists(tree: Forest, over: DropTarget) {
    match over
    case Nowhere => true
    case OnGroup(g) => g in IdSet(tree)
    case Between(q, _) => q.Some? ==> q.value in IdSet(tree)
  }

  /** A drop causes no call exactly without a drag or target, on a no-op target, or below the dragged group. */
  lemma IgnoredDrops(tree: Forest, dragged: Option<Dragged>, over: DropTarget, moveSucceeds: bool)
    requires DistinctIds(tree)
    ensures DropCalls(tree, dragged, over, moveSucceeds) == [] <==>
      || dragged == None
      || over == Nowhere
      || (over.OnGroup? &&
            (|| over.groupId == dragged.value.id
             || Some(over.groupId) == dragged.value.parentId
             || ProperAncestor(Parents(tree, None), dragged.value.id, over.groupId)))
      || (over.Between? && over.parentId.Some? &&
            ProperAncestor(Parents(tree, None), dragged.value.id, over.parentId.value))
  {
    if dragged.Some? {
      match over
      case Nowhere =>
      case OnGroup(g) => DescendantTestIsExact(tree, dragged.value.id, g);
      case Between(q, _) => if q.Some? { DescendantTestIsExact(tree, dragged.value.id, q.value); }
    }
  }

  /**
   * A move the page sends keeps the groups a forest, except for one kind of drop: into a gap among the
   * dragged group's own children, which the guard lets through and which always makes a cycle.
   */
  lemma SentMovesKeepForestIff(
      tree: Forest, dragged: Dragged, over: DropTarget, moveSucceeds: bool, newParent: Option<int>)
    requires DistinctIds(tree) && dragged.id in IdSet(tree) && TargetExists(tree, over)
    requires Move(dragged.id, newParent) in DropCalls(tree, Some(dragged), over, moveSucceeds)
    ensures IsForest(Parents(tree, None)[dragged.id := newParent])
      <==> !(over.Between? && over.parentId == Some(dragged.id))
  {
    var pm := Parents(tree, None);
    TreeIsForest(tree);
    MoveKeepsForestIff(pm, dragged.id, newParent);
    if newParent.Some? {
      DescendantTestIsExact(tree, dragged.id, newParent.value);
    }
  }

  /** The exception does occur: a group dropped into the gap above its only child is sent as its own parent. */
  lemma OwnParentIsSent(d: int, c: int)
    requires c != d
    ensures var tree := [GroupNode(d, [GroupNode(c, [])])];
      && DistinctIds(tree)
      && Move(d, Some(d)) in DropCalls(tree, Some(Dragged(d, None)), Between(Some(d), 0), true)
      && !IsForest(Parents(tree, None)[d := Some(d)])
  {
    var tree := [GroupNode(d, [GroupNode(c, [])])];
    assert tree[0].children[1..] == [] && tree[1..] == [];
    assert IdSet(tree[0].children) == {c} && IdSet(tree[1..]) == {};
    assert DistinctIds(tree[0].children);
    assert !IsDescendantOf(tree, d, d);
    SentMovesKeepForestIff(tree, Dragged(d, None), Between(Some(d), 0), true, Some(d));
  }

  // ─── The new order ───

  lemma {:induction false} WithoutSplit(a: seq<int>, b: seq<int>, d: int)
    ensures Without(a + b, d) == Without(a, d) + Without(b, d)
  {
    if a == [] {
      assert a + b == b;
    } else {
      WithoutSplit(a[1..], b, d);
      assert (a + b)[1..] == a[1..] + b;
      Assoc(if a[0] == d then [] else [a[0]], Without(a[1..], d), Without(b, d));
    }
  }

  lemma {:induction false} WithoutAbsent(ids: seq<int>, d: int)
    requires d !in ids
    ensures Without(ids, d) == ids
  {
    if ids != [] {
      WithoutAbsent(ids[1..], d);
    }
  }

  lemma {:induction false} WithoutLength(ids: seq<int>, d: int)
    requires NoDuplicates(ids)
    ensures |Without(ids, d)| == |ids| - (if d in ids then 1 else 0)
  {
    if ids != [] {
      WithoutLength(ids[1..], d);
      if ids[0] == d {
        assert d !in ids[1..];
      }
    }
  }

  lemma InsertedOnce(above: seq<int>, below: seq<int>, d: int)
    requires d !in above && d !in below
    ensures multiset(above + [d] + below)[d] == 1
  {
    CountConcat(above + [d], below, d);
    CountConcat(above, [d], d);
    assert multiset(above)[d] == multiset(below)[d] == 0;
  }

  lemma InsertedIsSkipped(above: seq<int>, below: seq<int>, d: int)
    requires d !in above && d !in below
    ensures Without(above + [d] + below, d) == above + below
  {
    WithoutSplit(above + [d], below, d);
    WithoutSplit(above, [d], d);
    WithoutAbsent(above, d);
    WithoutAbsent(below, d);
    assert Without([d], d) == [];
    assert above + [] == above;
  }

  /** The dragged id appears once and the other siblings keep their order. */
  lemma NewOrderKeepsOthers(children: seq<int>, d: int, insertIndex: nat)
    ensures multiset(NewOrder(children, d, insertIndex))[d] == 1
    ensures Without(NewOrder(children, d, insertIndex), d) == Without(children, d)
  {
    var siblings := Without(children, d);
    var at := if insertIndex < |siblings| then insertIndex else |siblings|;
    assert siblings[..at] + siblings[at..] == siblings;
    InsertedOnce(siblings[..at], siblings[at..], d);
    InsertedIsSkipped(siblings[..at], siblings[at..], d);
  }

  /**
   * Where it lands: behind exactly the siblings shown above the gap, unless the dragged group stood
   * above that gap in the same list and the gap is not the last; then it lands one place further down.
   */
  lemma LandsInGapIff(children: seq<int>, d: int, insertIndex: nat)
    requires NoDuplicates(children)
    requires insertIndex <= |children|
    ensures var order := NewOrder(children, d, insertIndex);
      var shown := Without(children[..insertIndex], d);
      && (shown + [d] <= order <==> d !in children[..insertIndex] || insertIndex == |children|)
      && (!(shown + [d] <= order) ==>
            insertIndex < |children| && Without(children[..insertIndex + 1], d) + [d] <= order)
  {
    var before, after := children[..insertIndex], children[insertIndex..];
    var shown, rest := Without(before, d), Without(after, d);
    assert before + after == children;
    WithoutSplit(before, after, d);
    WithoutLength(before, d);
    if d !in before {
      assert |shown| == insertIndex;
      assert (shown + rest)[..insertIndex] == shown;
    } else if insertIndex == |children| {
      assert after == [] && shown + rest == shown;
    } else {
      var next := children[insertIndex];
      assert after[0] == next != d;
      assert children[..insertIndex + 1] == before + [next];
      WithoutSplit(before, [next], d);
      assert Without([next], d) == [next] + Without([], d);
      assert rest == [next] + Without(after[1..], d);
      assert (shown + rest)[..insertIndex] == shown + [next];
      assert NewOrder(children, d, insertIndex)[|shown|] == next;
    }
  }

  /** The first of three siblings, dropped into the gap just below itself, lands below the second. */
  lemma DropBelowItselfMoves(a: int, b: int, c: int)
    requires a != b && a != c && b != c
    ensures NewOrder([a, b, c], a, 1) == [b, a, c]
    ensures !(Without([a, b, c][..1], a) + [a] <= NewOrder([a, b, c], a, 1))
  {
    WithoutAbsent([b, c], a);
    assert [a, b, c][1..] == [b, c];
    assert Without([a, b, c], a) == [b, c];
    assert [a, b, c][..1] == [a] && [a][1..] == [];
    assert Without([a], a) == [];
    assert ([] + [a])[0] == a && NewOrder([a, b, c], a, 1)[0] == b;
  }

  // ─── What an accepted drop achieves ───

  /** The parent relation after the calls were carried out. */
  ghost function AfterCalls(pm: ParentMap, calls: seq<ApiCall>): ParentMap
    decreases |calls|
  {
    if calls == [] then pm
    else AfterCalls(if calls[0].Move? then pm[calls[0].id := calls[0].parentId] else pm, calls[1..])
  }

  lemma {:induction false} WithoutMembers(ids: seq<int>, d: int)
    ensures forall x :: x in Without(ids, d) <==> x in ids && x != d
    ensures NoDuplicates(ids) ==> NoDuplicates(Without(ids, d))
  {
    if ids != [] {
      WithoutMembers(ids[1..], d);
      assert ids == [ids[0]] + ids[1..];
      ConsDistinct(ids[0], ids[1..]);
      ConsDistinct(ids[0], Without(ids[1..], d));
    }
  }

  lemma InsertedDistinct(siblings: seq<int>, d: int, insertIndex: nat)
    requires NoDuplicates(siblings) && d !in siblings
    ensures NoDuplicates(InsertAt(siblings, d, insertIndex))
    ensures forall x :: x in InsertAt(siblings, d, insertIndex) <==> x == d || x in siblings
  {
    var at := if insertIndex < |siblings| then insertIndex else |siblings|;
    assert siblings == siblings[..at] + siblings[at..];
  }

  lemma ParentChildrenIds(tree: Forest, q: Option<int>)
    requires DistinctIds(tree) && (q.Some? ==> q.value in IdSet(tree))
    ensures NoDuplicates(IdsOf(ParentChildren(tree, q)))
    ensures forall x :: x in IdsOf(ParentChildren(tree, q)) <==> HasParent(Parents(tree, None), x, q)
  {
    forall x ensures x in IdsOf(ParentChildren(tree, q)) <==> HasParent(Parents(tree, None), x, q) {
      if q == None {
        TopLevelIds(tree, None, x);
      } else {
        FoundChildren(tree, None, q.value, x);
      }
    }
    if q.Some? {
      NodesAreDistinct(tree, FindNodeById(tree, q.value).value);
      IdsAreDistinct(FindNodeById(tree, q.value).value.children);
    } else {
      IdsAreDistinct(tree);
    }
  }

  lemma {:induction false} NodesAreDistinct(nodes: Forest, v: GroupNode)
    requires DistinctIds(nodes) && v in NodeSet(nodes)
    ensures DistinctIds(v.children)
    decreases nodes
  {
    if v in NodeSet(nodes[0].children) {
      NodesAreDistinct(nodes[0].children, v);
    } else if v in NodeSet(nodes[1..]) {
      NodesAreDistinct(nodes[1..], v);
    }
  }

  lemma AfterDropCalls(pm: ParentMap, oldParent: Option<int>, d: int, q: Option<int>, reorder: ApiCall)
    requires HasParent(pm, d, oldParent) && reorder.Reorder?
    ensures AfterCalls(pm, if oldParent == q then [reorder] else [Move(d, q)] + [reorder]) == pm[d := q]
  {
    assert [reorder][1..] == [] && ([Move(d, q)] + [reorder])[1..] == [reorder];
    assert AfterCalls(pm[d := q], [reorder]) == AfterCalls(pm[d := q], []) == pm[d := q];
    assert AfterCalls(pm, [reorder]) == AfterCalls(pm, []) == pm;
  }

  lemma NewOrderIsNewChildren(
      tree: Forest, pm: ParentMap, d: int, q: Option<int>, insertIndex: nat, order: seq<int>)
    requires DistinctIds(tree) && pm == Parents(tree, None) && d in pm && (q.Some? ==> q.value in IdSet(tree))
    requires order == NewOrder(IdsOf(ParentChildren(tree, q)), d, insertIndex)
    ensures NoDuplicates(order) && forall x :: x in order <==> HasParent(pm[d := q], x, q)
  {
    var children := IdsOf(ParentChildren(tree, q));
    ParentChildrenIds(tree, q);
    WithoutMembers(children, d);
    InsertedDistinct(Without(children, d), d, insertIndex);
  }

  /**
   * An accepted drop into a gap, if the server carries it out, ends with the dragged group under the gap's
   * parent, every other group where it was, and an order that numbers exactly the new children of that parent.
   */
  lemma DropReordersNewChildren(
      tree: Forest, dragged: Dragged, q: Option<int>, insertIndex: nat, calls: seq<ApiCall>)
    requires DistinctIds(tree) && HasParent(Parents(tree, None), dragged.id, dragged.parentId)
    requires TargetExists(tree, Between(q, insertIndex))
    requires calls == DropCalls(tree, Some(dragged), Between(q, insertIndex), true) != []
    ensures AfterCalls(Parents(tree, None), calls) == Parents(tree, None)[dragged.id := q]
    ensures calls[|calls| - 1].Reorder?
    ensures exists order: seq<int> ::
      && calls[|calls| - 1].items == Numbered(order)
      && NoDuplicates(order)
      && forall x :: x in order <==> HasParent(Parents(tree, None)[dragged.id := q], x, q)
  {
    var pm, d := Parents(tree, None), dragged.id;
    var order := NewOrder(IdsOf(ParentChildren(tree, q)), d, insertIndex);
    NewOrderIsNewChildren(tree, pm, d, q, insertIndex, order);
    AfterDropCalls(pm, dragged.parentId, d, q, Reorder(Numbered(order)));
  }

  /** An accepted drop on a group sends one call, which puts the dragged group under it and nothing else elsewhere. */
  lemma GroupDropMoves(tree: Forest, dragged: Dragged, g: int, moveSucceeds: bool, calls: seq<ApiCall>)
    requires calls == DropCalls(tree, Some(dragged), OnGroup(g), moveSucceeds) != []
    ensures |calls| == 1
    ensures AfterCalls(Parents(tree, None), calls) == Parents(tree, None)[dragged.id := Some(g)]
  {
    assert calls[1..] == [];
  }

  /** `nodes` are the groups shown under `q`. */
  ghost predicate AreShownUnder(tree: Forest, q: Option<int>, nodes: Forest) {
    if q == None then nodes == tree
    else exists v :: v in NodeSet(tree) && v.id == q.value && v.children == nodes
  }

  lemma {:induction false} NodesOfOneId(nodes: Forest, v: GroupNode, w: GroupNode)
    requires DistinctIds(nodes) && v in NodeSet(nodes) && w in NodeSet(nodes) && v.id == w.id
    ensures v == w
    decreases nodes
  {
    if v in NodeSet(nodes[0].children) && w in NodeSet(nodes[0].children) {
      NodesOfOneId(nodes[0].children, v, w);
    } else if v in NodeSet(nodes[1..]) && w in NodeSet(nodes[1..]) {
      NodesOfOneId(nodes[1..], v, w);
    }
  }

  lemma ShownAreFound(tree: Forest, q: Option<int>, nodes: Forest)
    requires DistinctIds(tree) && AreShownUnder(tree, q, nodes)
    ensures ParentChildren(tree, q) == nodes
  {
    if q.Some? {
      var v :| v in NodeSet(tree) && v.id == q.value && v.children == nodes;
      NodesOfOneId(tree, v, FindNodeById(tree, q.value).value);
    }
  }

  lemma GapDropShape(
      tree: Forest, dragged: Dragged, q: Option<int>, insertIndex: nat, moveSucceeds: bool, calls: seq<ApiCall>,
      order: seq<int>)
    requires calls == DropCalls(tree, Some(dragged), Between(q, insertIndex), moveSucceeds) != []
    requires order == NewOrder(IdsOf(ParentChildren(tree, q)), dragged.id, insertIndex)
    ensures dragged.parentId != q ==> calls[0] == Move(dragged.id, q) && |calls| == if moveSucceeds then 2 else 1
    ensures dragged.parentId == q ==> |calls| == 1
    ensures dragged.parentId == q || moveSucceeds ==> calls[|calls| - 1] == Reorder(Numbered(order))
  {}

  lemma NumberedParts(order: seq<int>, items: seq<(int, nat)>, ids: seq<int>)
    requires items == Numbered(order) && |ids| == |items| && forall i :: 0 <= i < |ids| ==> ids[i] == items[i].0
    ensures ids == order && forall i :: 0 <= i < |items| ==> items[i].1 == i
  {}

  /**
   * What an accepted drop into a gap sends. If the group comes from elsewhere, first the move, and nothing more if
   * that fails; then the order, numbered from 0, of the groups shown under the gap's parent, in which the dragged
   * group occurs once and stands right behind the groups shown above the gap, or one place too far.
   */
  lemma GapDropSends(
      tree: Forest, dragged: Dragged, q: Option<int>, insertIndex: nat, moveSucceeds: bool, nodes: Forest,
      calls: seq<ApiCall>, items: seq<(int, nat)>, ids: seq<int>)
    requires DistinctIds(tree) && AreShownUnder(tree, q, nodes) && insertIndex <= |nodes|
    requires calls == DropCalls(tree, Some(dragged), Between(q, insertIndex), moveSucceeds) != []
    requires calls[|calls| - 1].Reorder? ==>
      items == calls[|calls| - 1].items && |ids| == |items| && forall i :: 0 <= i < |ids| ==> ids[i] == items[i].0
    ensures dragged.parentId != q ==> calls[0] == Move(dragged.id, q) && |calls| == if moveSucceeds then 2 else 1
    ensures dragged.parentId == q ==> |calls| == 1 && calls[0].Reorder?
    ensures calls[|calls| - 1].Reorder? <==> dragged.parentId == q || moveSucceeds
    ensures calls[|calls| - 1].Reorder? ==>
      && (forall i :: 0 <= i < |items| ==> items[i].1 == i)
      && multiset(ids)[dragged.id] == 1
      && Without(ids, dragged.id) == Without(IdsOf(nodes), dragged.id)
      && (Without(IdsOf(nodes)[..insertIndex], dragged.id) + [dragged.id] <= ids <==>
            dragged.id !in IdsOf(nodes)[..insertIndex] || insertIndex == |nodes|)
      && (!(Without(IdsOf(nodes)[..insertIndex], dragged.id) + [dragged.id] <= ids) ==>
            && insertIndex < |nodes|
            && Without(IdsOf(nodes)[..insertIndex + 1], dragged.id) + [dragged.id] <= ids)
  {
    var d, order := dragged.id, NewOrder(IdsOf(nodes), dragged.id, insertIndex);
    ShownAreFound(tree, q, nodes);
    ShownIdsAreDistinct(tree, q, nodes);
    GapDropShape(tree, dragged, q, insertIndex, moveSucceeds, calls, order);
    if calls[|calls| - 1].Reorder? {
      NumberedParts(order, items, ids);
      NewOrderKeepsOthers(IdsOf(nodes), d, insertIndex);
      LandsInGapIff(IdsOf(nodes), d, insertIndex);
    }
  }

  lemma ShownIdsAreDistinct(tree: Forest, q: Option<int>, nodes: Forest)
    requires DistinctIds(tree) && AreShownUnder(tree, q, nodes)
    ensures NoDuplicates(IdsOf(nodes))
  {
    if q.Some? {
      var v :| v in NodeSet(tree) && v.id == q.value && v.children == nodes;
      NodesAreDistinct(tree, v);
    }
    IdsAreDistinct(nodes);
  }
}
