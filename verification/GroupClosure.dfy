/**
 * The server's group tables: each group's parent, and the closure table with one row for every group and each of
 * its ancestors, itself included.
 */
module GroupClosure {
  import opened Wrappers
  import opened GroupTree
  import opened Ancestry
  import opened GroupDrag

  datatype Row = Row(ancestor: int, descendant: int, depth: nat)

  datatype Db = Db(parents: ParentMap, rows: set<Row>)

  /** `MissingParent`: the foreign key of `parent_id` refuses the update. */
  datatype Reply = Done | NotFound | IntoOwnDescendant | MissingParent

  // ─── The statements ───

  /** `where ancestor_id = id`, descendants selected. */
  function Subtree(rows: set<Row>, id: int): set<int> {
    set r | r in rows && r.ancestor == id :: r.descendant
  }

  predicate Names(rows: set<Row>, a: int, d: int) {
    d in Subtree(rows, a)
  }

  /** Without the rows that lead from outside `inside` into it. */
  function WithoutLinks(rows: set<Row>, inside: set<int>): set<Row> {
    set r | r in rows && (r.descendant in inside ==> r.ancestor in inside)
  }

  /** The cross join of the rows up from the new parent with the rows down from the moved group. */
  function Links(rows: set<Row>, id: int, parent: int): set<Row> {
    set p, s | p in rows && s in rows && p.descendant == parent && s.ancestor == id ::
      Row(p.ancestor, s.descendant, p.depth + s.depth + 1)
  }

  function PathRows(rows: set<Row>, id: int, parent: int): set<Row> {
    set r | r in rows && r.descendant == parent :: Row(r.ancestor, id, r.depth + 1)
  }

  function IsMissing(parents: ParentMap, parentId: Option<int>): bool {
    parentId.Some? && parentId.value !in parents
  }

  // ─── The operations as functions of the tables ───

  function AfterCreate(db: Db, id: int, parentId: Option<int>): Db {
    if IsMissing(db.parents, parentId) then
      db
    else
      var rows := db.rows + {Row(id, id, 0)};
      Db(db.parents[id := parentId], if parentId == None then rows else rows + PathRows(rows, id, parentId.value))
  }

  function MoveReply(db: Db, id: int, newParentId: Option<int>): Reply {
    if id !in db.parents then NotFound
    else if newParentId.Some? && Names(db.rows, id, newParentId.value) then IntoOwnDescendant
    else if IsMissing(db.parents, newParentId) then MissingParent
    else Done
  }

  function MovedRows(rows: set<Row>, id: int, newParentId: Option<int>): set<Row> {
    var kept := WithoutLinks(rows, Subtree(rows, id));
    if newParentId == None then kept else kept + Links(kept, id, newParentId.value)
  }

  /** The statements are not one transaction: when the last one fails, the rows are already rewritten. */
  function AfterMove(db: Db, id: int, newParentId: Option<int>): Db {
    match MoveReply(db, id, newParentId)
    case NotFound | IntoOwnDescendant => db
    case MissingParent => db.(rows := MovedRows(db.rows, id, newParentId))
    case Done => Db(db.parents[id := newParentId], MovedRows(db.rows, id, newParentId))
  }

  /** Deleting a row of the group table: children become roots, and closure rows that name it go too. */
  function AfterDelete(db: Db, id: int): Db {
    Db(map x | x in db.parents && x != id :: if db.parents[x] == Some(id) then None else db.parents[x],
       set r | r in db.rows && r.ancestor != id && r.descendant != id)
  }

  class GroupService {
    var parents: ParentMap
    var rows: set<Row>

    function Now(): Db
      reads this
    {
      Db(parents, rows)
    }

    method Create(id: int, parentId: Option<int>) returns (reply: Reply)
      requires id !in parents
      modifies this
      ensures Now() == AfterCreate(old(Now()), id, parentId)
      ensures reply == if IsMissing(old(parents), parentId) then MissingParent else Done
    {
      if IsMissing(parents, parentId) {
        return MissingParent;
      }
      parents := parents[id := parentId];
      rows := rows + {Row(id, id, 0)};
      if parentId.Some? {
        rows := rows + PathRows(rows, id, parentId.value);
      }
      reply := Done;
    }

    method Move(id: int, newParentId: Option<int>) returns (reply: Reply)
      modifies this
      ensures Now() == AfterMove(old(Now()), id, newParentId)
      ensures reply == MoveReply(old(Now()), id, newParentId)
    {
      if id !in parents {
        return NotFound;
      }
      if newParentId.Some? && Names(rows, id, newParentId.value) {
        return IntoOwnDescendant;
      }
      ghost var before := Now();
      var descIds := Subtree(rows, id);
      rows := WithoutLinks(rows, descIds);
      if newParentId.Some? {
        rows := rows + Links(rows, id, newParentId.value);
      }
      assert rows == MovedRows(before.rows, id, newParentId);
      if IsMissing(parents, newParentId) {
        assert MoveReply(before, id, newParentId) == MissingParent;
        return MissingParent;
      }
      assert MoveReply(before, id, newParentId) == Done;
      parents := parents[id := newParentId];
      reply := Done;
    }

    method Delete(id: int) returns (reply: Reply)
      modifies this
      ensures Now() == AfterDelete(old(Now()), id)
      ensures reply == if id in old(parents) then Done else NotFound
    {
      reply := if id in parents then Done else NotFound;
      parents := map x | x in parents && x != id :: if parents[x] == Some(id) then None else parents[x];
      rows := set r | r in rows && r.ancestor != id && r.descendant != id;
    }
  }

  // ─── What the closure table is for ───

  /** `a` is `k` levels above the group `d`. */
  ghost predicate IsAbove(pm: ParentMap, a: int, d: int, k: nat) {
    d in pm && Up(pm, Some(d), k) == Some(a)
  }

  ghost predicate IsClosure(pm: ParentMap, rows: set<Row>) {
    forall a, d, k: nat :: Row(a, d, k) in rows <==> IsAbove(pm, a, d, k)
  }

  /** The parents form a forest and the closure table says exactly who is above whom, and how far. */
  ghost predicate IsExact(db: Db) {
    IsForest(db.parents) && IsClosure(db.parents, db.rows)
  }

  // ─── Going up in a forest ───

  lemma UpOne(pm: ParentMap, x: Option<int>, n: nat)
    ensures Up(pm, x, n + 1) == Up(pm, ParentOf(pm, x), n)
    ensures Up(pm, x, n + 1) == ParentOf(pm, Up(pm, x, n))
  {
    UpAdd(pm, x, n, 1);
    var y := Up(pm, x, n);
    assert Up(pm, y, 1) == Up(pm, ParentOf(pm, y), 0) == ParentOf(pm, y);
  }

  lemma ParentInside(pm: ParentMap, x: Option<int>)
    requires IsForest(pm) && (x.Some? ==> x.value in pm)
    ensures ParentOf(pm, x).Some? ==> ParentOf(pm, x).value in pm
  {
    if x.Some? {
      var v := x.value;
      assert pm[v].Some? ==> pm[v].value in pm;
    }
  }

  lemma {:induction false} UpStaysInside(pm: ParentMap, x: int, n: nat)
    requires IsForest(pm) && x in pm
    ensures Up(pm, Some(x), n).Some? ==> Up(pm, Some(x), n).value in pm
  {
    if n > 0 {
      UpStaysInside(pm, x, n - 1);
      UpOne(pm, Some(x), n - 1);
      ParentInside(pm, Up(pm, Some(x), n - 1));
    }
  }

  lemma NoCycle(pm: ParentMap, x: int, n: nat)
    requires IsForest(pm) && x in pm && Up(pm, Some(x), n) == Some(x)
    ensures n == 0
  {
    if n > 0 {
      var steps: nat :| Up(pm, Some(x), steps) == None;
      CycleNeverEnds(pm, x, n, steps);
    }
  }

  lemma MetAgain(pm: ParentMap, x: int, a: int, m: nat, n: nat)
    requires IsForest(pm) && x in pm && Up(pm, Some(x), m) == Some(a) == Up(pm, Some(x), n) && m <= n
    ensures m == n
  {
    UpStaysInside(pm, x, m);
    UpAdd(pm, Some(x), m, n - m);
    NoCycle(pm, a, n - m);
  }

  /** A group is met at most once on the way up. */
  lemma MetOnce(pm: ParentMap, x: int, a: int, m: nat, n: nat)
    requires IsForest(pm) && x in pm && Up(pm, Some(x), m) == Some(a) == Up(pm, Some(x), n)
    ensures m == n
  {
    if m <= n {
      MetAgain(pm, x, a, m, n);
    } else {
      MetAgain(pm, x, a, n, m);
    }
  }

  lemma SubtreeIsBelow(db: Db, id: int, d: int)
    requires IsExact(db)
    ensures d in Subtree(db.rows, id) <==> exists k: nat :: IsAbove(db.parents, id, d, k)
  {
    if k: nat :| IsAbove(db.parents, id, d, k) {
      assert Row(id, d, k) in db.rows;
      assert Row(id, d, k).descendant in Subtree(db.rows, id);
    }
    if d in Subtree(db.rows, id) {
      var r :| r in db.rows && r.ancestor == id && r.descendant == d;
      assert Row(id, d, r.depth) in db.rows;
    }
  }

  // ─── Moving ───

  lemma OwnSubtreeIff(db: Db, id: int, q: int)
    requires IsExact(db) && id in db.parents
    ensures q in Subtree(db.rows, id) <==> InOwnSubtree(db.parents, id, Some(q))
  {
    var pm := db.parents;
    SubtreeIsBelow(db, id, q);
    if k: nat :| IsAbove(pm, id, q, k) {
      assert k > 0 || q == id;
    }
    if q == id {
      assert IsAbove(pm, id, q, 0);
    } else if steps: nat :| steps > 0 && Up(pm, Some(q), steps) == Some(id) {
      if q !in pm {
        UpFromNone(pm, steps - 1);
      }
      assert IsAbove(pm, id, q, steps);
    }
  }

  /** The server refuses a move exactly if the new parent is the group itself or below it. */
  lemma MoveRefusedIff(db: Db, id: int, q: Option<int>)
    requires IsExact(db) && id in db.parents
    ensures MoveReply(db, id, q) == IntoOwnDescendant <==> InOwnSubtree(db.parents, id, q)
  {
    if q.Some? {
      OwnSubtreeIff(db, id, q.value);
    }
  }

  lemma AvoidsMoved(pm: ParentMap, id: int, q: Option<int>, n: nat)
    requires id in pm && !InOwnSubtree(pm, id, q)
    ensures Up(pm[id := q], q, n) == Up(pm, q, n)
  {
    if q == None {
      UpFromNone(pm, n);
      UpFromNone(pm[id := q], n);
    } else {
      forall j: nat | j < n ensures Up(pm, q, j) != Some(id) {
        assert j > 0 && Up(pm, q, j) == Some(id) ==> ProperAncestor(pm, id, q.value);
      }
      UpUnaffected(pm, id, q, q, n);
    }
  }

  lemma BelowUnchanged(pm: ParentMap, id: int, q: Option<int>, d: int, m: nat, k: nat)
    requires IsForest(pm) && d in pm && Up(pm, Some(d), m) == Some(id) && k <= m
    ensures Up(pm[id := q], Some(d), k) == Up(pm, Some(d), k)
  {
    forall j: nat | j < k ensures Up(pm, Some(d), j) != Some(id) {
      if Up(pm, Some(d), j) == Some(id) {
        MetOnce(pm, d, id, j, m);
      }
    }
    UpUnaffected(pm, id, q, Some(d), k);
  }

  /** From below the moved group: up to it as before, then on from the new parent. */
  lemma AboveIsNew(pm: ParentMap, id: int, q: Option<int>, d: int, m: nat, k: nat)
    requires IsForest(pm) && id in pm && d in pm && !InOwnSubtree(pm, id, q)
    requires Up(pm, Some(d), m) == Some(id) && k > m
    ensures Up(pm[id := q], Some(d), k) == Up(pm, q, k - m - 1)
  {
    BelowUnchanged(pm, id, q, d, m, m);
    UpAdd(pm[id := q], Some(d), m, k - m);
    UpOne(pm[id := q], Some(id), k - m - 1);
    AvoidsMoved(pm, id, q, k - m - 1);
  }

  lemma UpWithin(pm: ParentMap, d: int, a: int, k: nat, m: nat)
    requires Up(pm, Some(d), k) == Some(a) && k <= m
    ensures Up(pm, Some(a), m - k) == Up(pm, Some(d), m)
  {
    UpAdd(pm, Some(d), k, m - k);
  }

  /** Of the groups above `d`, those in the subtree of `id` are the ones up to `id`. */
  lemma InsideIff(db: Db, id: int, a: int, d: int, m: nat, k: nat)
    requires IsExact(db) && IsAbove(db.parents, id, d, m) && IsAbove(db.parents, a, d, k)
    ensures a in Subtree(db.rows, id) <==> k <= m
  {
    var pm := db.parents;
    SubtreeIsBelow(db, id, a);
    UpStaysInside(pm, d, k);
    if k <= m {
      UpWithin(pm, d, a, k, m);
      assert IsAbove(pm, id, a, m - k);
    } else if j: nat :| IsAbove(pm, id, a, j) {
      UpAdd(pm, Some(d), k, j);
      MetOnce(pm, d, id, m, k + j);
    }
  }

  lemma LinkIsAbove(db: Db, id: int, q: int, a: int, d: int, k: nat)
    returns (m: nat, j: nat)
    requires IsExact(db) && Row(a, d, k) in Links(WithoutLinks(db.rows, Subtree(db.rows, id)), id, q)
    ensures IsAbove(db.parents, id, d, m) && IsAbove(db.parents, a, q, j) && k == j + m + 1
  {
    var p, s :| p in db.rows && s in db.rows && p.descendant == q && s.ancestor == id
      && Row(p.ancestor, s.descendant, p.depth + s.depth + 1) == Row(a, d, k);
    assert p == Row(a, q, p.depth) && s == Row(id, d, s.depth);
    m, j := s.depth, p.depth;
  }

  lemma AboveIsLink(db: Db, id: int, q: int, a: int, d: int, m: nat, j: nat)
    requires IsExact(db) && id in db.parents && !InOwnSubtree(db.parents, id, Some(q))
    requires IsAbove(db.parents, id, d, m) && IsAbove(db.parents, a, q, j)
    ensures Row(a, d, j + m + 1) in Links(WithoutLinks(db.rows, Subtree(db.rows, id)), id, q)
  {
    var kept := WithoutLinks(db.rows, Subtree(db.rows, id));
    OwnSubtreeIff(db, id, q);
    SubtreeIsBelow(db, id, id);
    assert IsAbove(db.parents, id, id, 0);
    var p, s := Row(a, q, j), Row(id, d, m);
    assert p in kept && s in kept;
    assert Row(p.ancestor, s.descendant, p.depth + s.depth + 1) in Links(kept, id, q);
  }

  /** For a group outside the moved subtree nothing changes, neither its rows nor its way up. */
  lemma OutsideRows(db: Db, id: int, q: Option<int>, a: int, d: int, k: nat)
    requires IsExact(db) && id in db.parents && !InOwnSubtree(db.parents, id, q) && d !in Subtree(db.rows, id)
    ensures Row(a, d, k) in MovedRows(db.rows, id, q) <==> Row(a, d, k) in db.rows
    ensures d in db.parents ==> Up(db.parents[id := q], Some(d), k) == Up(db.parents, Some(d), k)
  {
    SubtreeIsBelow(db, id, d);
    if q.Some? && Row(a, d, k) in Links(WithoutLinks(db.rows, Subtree(db.rows, id)), id, q.value) {
      var m, j := LinkIsAbove(db, id, q.value, a, d, k);
    }
    if d in db.parents {
      forall j: nat | j < k ensures Up(db.parents, Some(d), j) != Some(id) {
        assert !IsAbove(db.parents, id, d, j);
      }
      UpUnaffected(db.parents, id, q, Some(d), k);
    }
  }

  lemma KeptRowIff(db: Db, id: int, a: int, d: int, m: nat, k: nat)
    requires IsExact(db) && IsAbove(db.parents, id, d, m)
    ensures Row(a, d, k) in WithoutLinks(db.rows, Subtree(db.rows, id)) <==> k <= m && IsAbove(db.parents, a, d, k)
  {
    SubtreeIsBelow(db, id, d);
    if IsAbove(db.parents, a, d, k) {
      InsideIff(db, id, a, d, m, k);
    }
  }

  lemma LinkRowIff(db: Db, id: int, q: int, a: int, d: int, m: nat, k: nat)
    requires IsExact(db) && id in db.parents && !InOwnSubtree(db.parents, id, Some(q))
    requires IsAbove(db.parents, id, d, m)
    ensures Row(a, d, k) in Links(WithoutLinks(db.rows, Subtree(db.rows, id)), id, q) <==>
      k > m && IsAbove(db.parents, a, q, k - m - 1)
  {
    if Row(a, d, k) in Links(WithoutLinks(db.rows, Subtree(db.rows, id)), id, q) {
      var m', j := LinkIsAbove(db, id, q, a, d, k);
      MetOnce(db.parents, d, id, m', m);
    }
    if k > m && IsAbove(db.parents, a, q, k - m - 1) {
      AboveIsLink(db, id, q, a, d, m, k - m - 1);
    }
  }

  /** For a group inside it, the rows up to the moved group stay and the rows beyond lead on from the new parent. */
  lemma InsideRows(db: Db, id: int, q: Option<int>, a: int, d: int, m: nat, k: nat)
    requires IsExact(db) && id in db.parents && !InOwnSubtree(db.parents, id, q)
    requires IsAbove(db.parents, id, d, m)
    ensures Row(a, d, k) in MovedRows(db.rows, id, q) <==>
      if k <= m then IsAbove(db.parents, a, d, k)
      else q.Some? && IsAbove(db.parents, a, q.value, k - m - 1)
  {
    KeptRowIff(db, id, a, d, m, k);
    if q.Some? {
      LinkRowIff(db, id, q.value, a, d, m, k);
    }
  }

  lemma MovedRowIff(db: Db, id: int, q: Option<int>, a: int, d: int, k: nat)
    requires IsExact(db) && id in db.parents && (q.Some? ==> q.value in db.parents)
    requires !InOwnSubtree(db.parents, id, q)
    ensures Row(a, d, k) in MovedRows(db.rows, id, q) <==> IsAbove(db.parents[id := q], a, d, k)
  {
    var pm := db.parents;
    SubtreeIsBelow(db, id, d);
    if d !in Subtree(db.rows, id) {
      OutsideRows(db, id, q, a, d, k);
    } else {
      var m: nat :| IsAbove(pm, id, d, m);
      InsideRows(db, id, q, a, d, m, k);
      if k <= m {
        BelowUnchanged(pm, id, q, d, m, k);
      } else {
        AboveIsNew(pm, id, q, d, m, k);
        UpFromNone(pm, k - m - 1);
      }
    }
  }

  /** A refused move apart, moving under an existing parent keeps the tables exact. */
  lemma MoveKeepsExact(db: Db, id: int, q: Option<int>)
    requires IsExact(db) && id in db.parents && (q.Some? ==> q.value in db.parents)
    requires !InOwnSubtree(db.parents, id, q)
    ensures IsExact(Db(db.parents[id := q], MovedRows(db.rows, id, q)))
  {
    MoveKeepsForestIff(db.parents, id, q);
    forall a, d, k: nat
      ensures Row(a, d, k) in MovedRows(db.rows, id, q) <==> IsAbove(db.parents[id := q], a, d, k)
    {
      MovedRowIff(db, id, q, a, d, k);
    }
  }

  // ─── A move to a parent that does not exist ───

  lemma NoLinksToMissing(db: Db, id: int, q: int)
    requires IsExact(db) && q !in db.parents
    ensures MovedRows(db.rows, id, Some(q)) == WithoutLinks(db.rows, Subtree(db.rows, id))
  {
    var kept := WithoutLinks(db.rows, Subtree(db.rows, id));
    forall p | p in kept ensures p.descendant != q {
      assert p == Row(p.ancestor, p.descendant, p.depth);
      assert IsAbove(db.parents, p.ancestor, p.descendant, p.depth);
    }
    assert Links(kept, id, q) == {};
  }

  lemma RootHasNoLinks(db: Db, id: int)
    requires IsExact(db) && id in db.parents && db.parents[id] == None
    ensures WithoutLinks(db.rows, Subtree(db.rows, id)) == db.rows
  {
    var pm := db.parents;
    forall r | r in db.rows && r.descendant in Subtree(db.rows, id) ensures r.ancestor in Subtree(db.rows, id) {
      var a, d, k := r.ancestor, r.descendant, r.depth;
      assert r == Row(a, d, k) && IsAbove(pm, a, d, k);
      SubtreeIsBelow(db, id, d);
      var m: nat :| IsAbove(pm, id, d, m);
      if k > m {
        UpAdd(pm, Some(d), m, k - m);
        UpOne(pm, Some(id), k - m - 1);
        UpFromNone(pm, k - m - 1);
      }
      InsideIff(db, id, a, d, m, k);
    }
  }

  lemma ChildLosesLink(db: Db, id: int, p: int)
    requires IsExact(db) && id in db.parents && db.parents[id] == Some(p)
    ensures !IsClosure(db.parents, WithoutLinks(db.rows, Subtree(db.rows, id)))
  {
    var pm := db.parents;
    UpOne(pm, Some(id), 0);
    assert IsAbove(pm, id, id, 0) && IsAbove(pm, p, id, 1);
    InsideIff(db, id, id, id, 0, 0);
    InsideIff(db, id, p, id, 0, 1);
    assert Row(p, id, 1) !in WithoutLinks(db.rows, Subtree(db.rows, id));
  }

  /**
   * A move keeps the tables exact if and only if it is not one of a group with a parent to a parent that does not
   * exist: the rows above the group are then gone, although its parent is still the old one.
   */
  lemma MoveKeepsExactIff(db: Db, id: int, q: Option<int>)
    requires IsExact(db)
    ensures IsExact(AfterMove(db, id, q)) <==>
      !(id in db.parents && db.parents[id].Some? && IsMissing(db.parents, q))
  {
    if id in db.parents {
      MoveRefusedIff(db, id, q);
      match MoveReply(db, id, q)
      case IntoOwnDescendant => if IsMissing(db.parents, q) { MissingIsNotBelow(db, id, q.value); }
      case MissingParent =>
        NoLinksToMissing(db, id, q.value);
        if db.parents[id] == None {
          RootHasNoLinks(db, id);
        } else {
          ChildLosesLink(db, id, db.parents[id].value);
        }
      case Done => MoveKeepsExact(db, id, q);
    }
  }

  lemma MissingIsNotBelow(db: Db, id: int, q: int)
    requires IsExact(db) && q !in db.parents
    ensures !Names(db.rows, id, q)
  {
    SubtreeIsBelow(db, id, q);
  }

  /**
   * What a move does, in all cases: it is refused or ends without a change, or it fails for want of the parent, or
   * it arrives, and then the group is under its new parent, every other group where it was, and the tables exact.
   */
  lemma MoveOutcome(db: Db, id: int, q: Option<int>)
    requires IsExact(db)
    ensures id !in db.parents ==> MoveReply(db, id, q) == NotFound && AfterMove(db, id, q) == db
    ensures id in db.parents && InOwnSubtree(db.parents, id, q) ==>
      MoveReply(db, id, q) == IntoOwnDescendant && AfterMove(db, id, q) == db
    ensures id in db.parents && q.Some? && q.value !in db.parents ==>
      && MoveReply(db, id, q) == MissingParent
      && AfterMove(db, id, q).parents == db.parents
      && forall a, d, k: nat :: Row(a, d, k) in AfterMove(db, id, q).rows <==>
           && IsAbove(db.parents, a, d, k)
           && (InOwnSubtree(db.parents, id, Some(d)) ==> InOwnSubtree(db.parents, id, Some(a)))
    ensures id in db.parents && (q.Some? ==> q.value in db.parents) && !InOwnSubtree(db.parents, id, q) ==>
      && MoveReply(db, id, q) == Done
      && AfterMove(db, id, q).parents == db.parents[id := q]
      && IsExact(AfterMove(db, id, q))
  {
    if id in db.parents {
      MoveRefusedIff(db, id, q);
      if IsMissing(db.parents, q) {
        MissingIsNotBelow(db, id, q.value);
        NoLinksToMissing(db, id, q.value);
        forall a, d, k: nat ensures Row(a, d, k) in AfterMove(db, id, q).rows <==>
          && IsAbove(db.parents, a, d, k)
          && (InOwnSubtree(db.parents, id, Some(d)) ==> InOwnSubtree(db.parents, id, Some(a)))
        {
          OwnSubtreeIff(db, id, d);
          OwnSubtreeIff(db, id, a);
        }
      } else if !InOwnSubtree(db.parents, id, q) {
        MoveKeepsExact(db, id, q);
      }
    }
  }

  // ─── Creating and deleting ───

  lemma UpIsOld(pm: ParentMap, id: int, p: Option<int>, d: int, k: nat)
    requires IsForest(pm) && id !in pm && d in pm
    ensures Up(pm[id := p], Some(d), k) == Up(pm, Some(d), k)
  {
    forall j: nat | j < k ensures Up(pm, Some(d), j) != Some(id) {
      UpStaysInside(pm, d, j);
    }
    UpUnaffected(pm, id, p, Some(d), k);
  }

  /** Going up from a new group: itself, then what is above its parent. */
  lemma UpFromNew(pm: ParentMap, id: int, p: Option<int>, k: nat)
    requires IsForest(pm) && id !in pm && (p.Some? ==> p.value in pm) && k > 0
    ensures Up(pm[id := p], Some(id), k) == Up(pm, p, k - 1)
  {
    UpOne(pm[id := p], Some(id), k - 1);
    if p.Some? {
      UpIsOld(pm, id, p, p.value, k - 1);
    } else {
      UpFromNone(pm, k - 1);
      UpFromNone(pm[id := p], k - 1);
    }
  }

  lemma StepsToRoot(pm: ParentMap, x: int) returns (steps: nat)
    requires IsForest(pm) && x in pm
    ensures Up(pm, Some(x), steps) == None
  {
    steps :| Up(pm, Some(x), steps) == None;
  }

  lemma CreateKeepsForest(pm: ParentMap, id: int, p: Option<int>)
    requires IsForest(pm) && id !in pm && (p.Some? ==> p.value in pm)
    ensures IsForest(pm[id := p])
  {
    var grown := pm[id := p];
    forall x | x in grown ensures exists steps: nat :: Up(grown, Some(x), steps) == None {
      if x == id {
        var steps: nat := 0;
        if p.Some? {
          steps := StepsToRoot(pm, p.value);
        }
        UpFromNew(pm, id, p, steps + 1);
        UpFromNone(pm, steps);
        assert Up(grown, Some(x), steps + 1) == None;
      } else {
        var steps := StepsToRoot(pm, x);
        UpIsOld(pm, id, p, x, steps);
      }
    }
  }

  lemma PathRowIff(rows: set<Row>, id: int, p: int, a: int, d: int, k: nat)
    ensures Row(a, d, k) in PathRows(rows, id, p) <==> d == id && k > 0 && Row(a, p, k - 1) in rows
  {
    if d == id && k > 0 && Row(a, p, k - 1) in rows {
      var up := Row(a, p, k - 1);
      assert Row(up.ancestor, id, up.depth + 1) in PathRows(rows, id, p);
    }
    if Row(a, d, k) in PathRows(rows, id, p) {
      var up :| up in rows && up.descendant == p && Row(up.ancestor, id, up.depth + 1) == Row(a, d, k);
      assert up == Row(a, p, k - 1);
    }
  }

  lemma CreatedRowIff(db: Db, id: int, p: Option<int>, a: int, d: int, k: nat)
    requires IsExact(db) && id !in db.parents && (p.Some? ==> p.value in db.parents)
    ensures Row(a, d, k) in AfterCreate(db, id, p).rows <==> IsAbove(db.parents[id := p], a, d, k)
  {
    var pm := db.parents;
    assert Row(a, d, k) in db.rows <==> IsAbove(pm, a, d, k);
    if p.Some? {
      PathRowIff(db.rows + {Row(id, id, 0)}, id, p.value, a, d, k);
    }
    if d in pm {
      UpIsOld(pm, id, p, d, k);
    } else if d == id && k > 0 {
      UpFromNew(pm, id, p, k);
      UpFromNone(pm, k - 1);
      assert p.Some? ==> (Row(a, p.value, k - 1) in db.rows <==> IsAbove(pm, a, p.value, k - 1));
    }
  }

  /** Creating a group keeps the tables exact. */
  lemma CreateKeepsExact(db: Db, id: int, p: Option<int>)
    requires IsExact(db) && id !in db.parents
    ensures IsExact(AfterCreate(db, id, p))
  {
    if !IsMissing(db.parents, p) {
      CreateKeepsForest(db.parents, id, p);
      forall a, d, k: nat
        ensures Row(a, d, k) in AfterCreate(db, id, p).rows <==> IsAbove(db.parents[id := p], a, d, k)
      {
        CreatedRowIff(db, id, p, a, d, k);
      }
    }
  }

  lemma {:induction false} UpAvoidsDeleted(pm: ParentMap, after: ParentMap, id: int, x: Option<int>, k: nat)
    requires after == AfterDelete(Db(pm, {}), id).parents
    requires forall j: nat :: j <= k ==> Up(pm, x, j) != Some(id)
    ensures Up(after, x, k) == Up(pm, x, k)
    decreases k
  {
    if k > 0 {
      var above := ParentOf(pm, x);
      assert Up(pm, x, 0) == x && Up(pm, x, 1) == Up(pm, above, 0) == above;
      assert ParentOf(after, x) == above;
      forall j: nat | j <= k - 1 ensures Up(pm, above, j) != Some(id) {
        assert Up(pm, x, j + 1) == Up(pm, above, j);
      }
      UpAvoidsDeleted(pm, after, id, above, k - 1);
    }
  }

  /** Below the deleted group the way up now ends before it. */
  lemma UpStopsAtDeleted(pm: ParentMap, after: ParentMap, id: int, d: int, m: nat, k: nat)
    requires IsForest(pm) && after == AfterDelete(Db(pm, {}), id).parents
    requires d in pm && d != id && Up(pm, Some(d), m) == Some(id)
    ensures Up(after, Some(d), k) == if k < m then Up(pm, Some(d), k) else None
  {
    forall j: nat | j < m ensures Up(pm, Some(d), j) != Some(id) {
      if Up(pm, Some(d), j) == Some(id) {
        MetOnce(pm, d, id, j, m);
      }
    }
    assert m > 0;
    if k < m {
      UpAvoidsDeleted(pm, after, id, Some(d), k);
    } else {
      UpAvoidsDeleted(pm, after, id, Some(d), m - 1);
      UpStaysInside(pm, d, m - 1);
      UpOne(pm, Some(d), m - 1);
      var child := Up(pm, Some(d), m - 1);
      UpFromNone(pm, 1);
      assert child.Some? && pm[child.value] == Some(id);
      UpOne(after, Some(d), m - 1);
      NothingBeyond(after, Some(d), m, k);
    }
  }

  ghost predicate Meets(pm: ParentMap, d: int, id: int) {
    exists m: nat :: Up(pm, Some(d), m) == Some(id)
  }

  lemma DeleteKeepsForest(pm: ParentMap, after: ParentMap, id: int)
    requires IsForest(pm) && after == AfterDelete(Db(pm, {}), id).parents
    ensures IsForest(after)
  {
    forall x | x in after ensures after[x].Some? ==> after[x].value in after {
      ParentInside(pm, Some(x));
    }
    forall x | x in after ensures exists steps: nat :: Up(after, Some(x), steps) == None {
      if Meets(pm, x, id) {
        var m: nat :| Up(pm, Some(x), m) == Some(id);
        UpStopsAtDeleted(pm, after, id, x, m, m);
      } else {
        var steps := StepsToRoot(pm, x);
        UpAvoidsDeleted(pm, after, id, Some(x), steps);
      }
    }
  }

  ghost predicate HasChild(pm: ParentMap, id: int) {
    exists c :: HasParent(pm, c, Some(id))
  }

  lemma MetThroughChild(pm: ParentMap, d: int, id: int)
    requires IsForest(pm) && d in pm && d != id && Meets(pm, d, id)
    ensures id in pm && HasChild(pm, id)
  {
    var m: nat :| Up(pm, Some(d), m) == Some(id);
    UpStaysInside(pm, d, m);
    UpStaysInside(pm, d, m - 1);
    UpOne(pm, Some(d), m - 1);
    var c := Up(pm, Some(d), m - 1);
    UpFromNone(pm, 1);
    assert c.Some? && HasParent(pm, c.value, Some(id));
  }

  lemma DeletedRowIff(db: Db, id: int, a: int, d: int, k: nat)
    requires IsExact(db) && (id in db.parents && db.parents[id].Some? ==> !HasChild(db.parents, id))
    ensures Row(a, d, k) in AfterDelete(db, id).rows <==> IsAbove(AfterDelete(db, id).parents, a, d, k)
  {
    var pm, after := db.parents, AfterDelete(db, id).parents;
    assert Row(a, d, k) in db.rows <==> IsAbove(pm, a, d, k);
    if d in pm && d != id {
      if Meets(pm, d, id) {
        MetThroughChild(pm, d, id);
        var m: nat :| Up(pm, Some(d), m) == Some(id);
        UpStopsAtDeleted(pm, after, id, d, m, k);
        if k > m {
          UpAdd(pm, Some(d), m, k - m);
          UpOne(pm, Some(id), k - m - 1);
          UpFromNone(pm, k - m - 1);
        } else if Up(pm, Some(d), k) == Some(id) {
          MetOnce(pm, d, id, k, m);
        }
      } else {
        UpAvoidsDeleted(pm, after, id, Some(d), k);
      }
    }
  }

  lemma MiddleLeavesRows(db: Db, id: int, p: int, c: int)
    requires IsExact(db) && HasParent(db.parents, id, Some(p)) && HasParent(db.parents, c, Some(id))
    ensures Row(p, c, 2) in AfterDelete(db, id).rows && !IsAbove(AfterDelete(db, id).parents, p, c, 2)
  {
    var pm, after := db.parents, AfterDelete(db, id).parents;
    UpOne(pm, Some(c), 0);
    UpOne(pm, Some(c), 1);
    UpOne(pm, Some(id), 0);
    assert Up(pm, Some(c), 2) == Some(p) && Up(pm, Some(c), 1) == Some(id) && Up(pm, Some(id), 1) == Some(p);
    assert IsAbove(pm, p, c, 2);
    if p == id {
      NoCycle(pm, id, 1);
    }
    UpStopsAtDeleted(pm, after, id, c, 1, 2);
  }

  /**
   * A deletion keeps the tables exact if and only if the group deleted has no parent or no children. Otherwise
   * the rows from the groups above it to the groups below it stay behind.
   */
  lemma DeleteKeepsExactIff(db: Db, id: int)
    requires IsExact(db)
    ensures IsExact(AfterDelete(db, id)) <==>
      !(id in db.parents && db.parents[id].Some? && HasChild(db.parents, id))
  {
    var pm := db.parents;
    if id in pm && pm[id].Some? && HasChild(pm, id) {
      var c :| HasParent(pm, c, Some(id));
      MiddleLeavesRows(db, id, pm[id].value, c);
    } else {
      DeleteKeepsForest(pm, AfterDelete(db, id).parents, id);
      forall a, d, k: nat
        ensures Row(a, d, k) in AfterDelete(db, id).rows <==> IsAbove(AfterDelete(db, id).parents, a, d, k)
      {
        DeletedRowIff(db, id, a, d, k);
      }
    }
  }

  /** Creation under an existing parent adds exactly the new group; under a missing one it changes nothing. */
  lemma CreateOutcome(db: Db, id: int, p: Option<int>)
    requires IsExact(db) && id !in db.parents
    ensures (p.Some? ==> p.value in db.parents) ==>
      AfterCreate(db, id, p).parents == db.parents[id := p] && IsExact(AfterCreate(db, id, p))
    ensures p.Some? && p.value !in db.parents ==> AfterCreate(db, id, p) == db
  {
    CreateKeepsExact(db, id, p);
  }

  /** After a deletion the group is gone, its children are roots, all others are where they were, like their rows. */
  lemma DeleteOutcome(db: Db, id: int, x: int, r: Row)
    ensures x in AfterDelete(db, id).parents <==> x in db.parents && x != id
    ensures x in db.parents && x != id ==>
      AfterDelete(db, id).parents[x] == if db.parents[x] == Some(id) then None else db.parents[x]
    ensures r in AfterDelete(db, id).rows <==> r in db.rows && id !in {r.ancestor, r.descendant}
  {}

  // ─── Primary keys ───

  /** In exact tables the distance between two groups is unique: (ancestor, descendant) is a key. */
  lemma KeysAreUnique(db: Db, r: Row, t: Row)
    requires IsExact(db) && r in db.rows && t in db.rows
    requires r.ancestor == t.ancestor && r.descendant == t.descendant
    ensures r == t
  {
    assert r == Row(r.ancestor, r.descendant, r.depth) && t == Row(r.ancestor, r.descendant, t.depth);
    MetOnce(db.parents, r.descendant, r.ancestor, r.depth, t.depth);
  }

  /** What the cross join of a move pairs up. */
  ghost predicate IsLink(rows: set<Row>, id: int, q: int, p: Row, s: Row) {
    p in rows && s in rows && p.descendant == q && s.ancestor == id
  }

  /** The rows that a move inserts repeat no key, neither among themselves nor with a row that stayed. */
  lemma InsertedKeysAreNew(db: Db, id: int, q: int, p: Row, s: Row, t: Row)
    requires IsExact(db) && id in db.parents && !InOwnSubtree(db.parents, id, Some(q))
    requires IsLink(WithoutLinks(db.rows, Subtree(db.rows, id)), id, q, p, s)
    requires t in WithoutLinks(db.rows, Subtree(db.rows, id))
    ensures !(t.ancestor == p.ancestor && t.descendant == s.descendant)
    ensures forall p', s' ::
      (IsLink(WithoutLinks(db.rows, Subtree(db.rows, id)), id, q, p', s')
       && p'.ancestor == p.ancestor && s'.descendant == s.descendant) ==> p' == p && s' == s
  {
    forall p', s' | IsLink(WithoutLinks(db.rows, Subtree(db.rows, id)), id, q, p', s')
      && p'.ancestor == p.ancestor && s'.descendant == s.descendant
      ensures p' == p && s' == s
    {
      KeysAreUnique(db, p', p);
      KeysAreUnique(db, s', s);
    }
    OwnSubtreeIff(db, id, q);
    AncestorsAreOutside(db, id, q, p);
    assert s.descendant in Subtree(db.rows, id);
  }

  lemma AncestorsAreOutside(db: Db, id: int, q: int, p: Row)
    requires IsExact(db) && q !in Subtree(db.rows, id) && p in db.rows && p.descendant == q
    ensures p.ancestor !in Subtree(db.rows, id)
  {
    var pm := db.parents;
    assert p == Row(p.ancestor, q, p.depth);
    SubtreeIsBelow(db, id, p.ancestor);
    if k: nat :| IsAbove(pm, id, p.ancestor, k) {
      UpAdd(pm, Some(q), p.depth, k);
      assert IsAbove(pm, id, q, p.depth + k);
      SubtreeIsBelow(db, id, q);
    }
  }

  // ─── Queries ───

  /** The ancestors the server selects, furthest first, are the path that the client's store finds in the tree. */
  lemma AncestorQueryIsPath(tree: Forest, db: Db, g: int, path: seq<int>)
    requires DistinctIds(tree) && db.parents == Parents(tree, None) && IsExact(db)
    requires FindAncestorIds(tree, g, []) == Some(path)
    ensures forall a, k: nat :: k > 0 ==> (Row(a, g, k) in db.rows <==> k <= |path| && path[|path| - k] == a)
  {
    AncestorIdsAreTheChain(tree, g, path);
    forall a, k: nat | k > 0 ensures Row(a, g, k) in db.rows <==> k <= |path| && path[|path| - k] == a {
      assert Row(a, g, k) in db.rows <==> IsAbove(db.parents, a, g, k);
      if k <= |path| {
        assert Up(db.parents, Some(g), |path| - (|path| - k)) == Some(path[|path| - k]);
      }
    }
  }

  // ─── Whole runs ───

  datatype Op =
    | Create(id: int, parentId: Option<int>)
    | Move(id: int, newParentId: Option<int>)
    | Delete(id: int)

  function Next(db: Db, op: Op): Db {
    match op
    case Create(id, parentId) => AfterCreate(db, id, parentId)
    case Move(id, newParentId) => AfterMove(db, id, newParentId)
    case Delete(id) => AfterDelete(db, id)
  }

  /** New groups get new ids. */
  predicate CanHappen(db: Db, op: Op) {
    op.Create? ==> op.id !in db.parents
  }

  /** Not a deletion between a parent and a child, and not a move from a parent to nowhere. */
  ghost predicate IsSafe(pm: ParentMap, op: Op) {
    match op
    case Create(_, _) => true
    case Move(id, q) => !(id in pm && pm[id].Some? && IsMissing(pm, q))
    case Delete(id) => !(id in pm && pm[id].Some? && HasChild(pm, id))
  }

  lemma StepKeepsExactIff(db: Db, op: Op)
    requires IsExact(db) && CanHappen(db, op)
    ensures IsExact(Next(db, op)) <==> IsSafe(db.parents, op)
  {
    match op
    case Create(id, p) => CreateKeepsExact(db, id, p);
    case Move(id, q) => MoveKeepsExactIff(db, id, q);
    case Delete(id) => DeleteKeepsExactIff(db, id);
  }

  ghost predicate IsRun(db: Db, ops: seq<Op>)
    decreases |ops|
  {
    ops != [] ==> CanHappen(db, ops[0]) && IsRun(Next(db, ops[0]), ops[1..])
  }

  /** The tables are exact before and after every operation of the run. */
  ghost predicate StaysExact(db: Db, ops: seq<Op>)
    decreases |ops|
  {
    IsExact(db) && (ops != [] ==> StaysExact(Next(db, ops[0]), ops[1..]))
  }

  ghost predicate AllSafe(db: Db, ops: seq<Op>)
    decreases |ops|
  {
    ops != [] ==> IsSafe(db.parents, ops[0]) && AllSafe(Next(db, ops[0]), ops[1..])
  }

  /** Over every run: exact tables stay exact if and only if every operation is safe. */
  lemma {:induction false} RunStaysExactIff(db: Db, ops: seq<Op>)
    requires IsExact(db) && IsRun(db, ops)
    ensures StaysExact(db, ops) <==> AllSafe(db, ops)
    decreases |ops|
  {
    if ops != [] {
      StepKeepsExactIff(db, ops[0]);
      if IsSafe(db.parents, ops[0]) {
        RunStaysExactIff(Next(db, ops[0]), ops[1..]);
      }
    }
  }

  const EMPTY := Db(map[], {})

  /** So over every run of a new server. */
  lemma RunFromEmptyIff(ops: seq<Op>)
    requires IsRun(EMPTY, ops)
    ensures StaysExact(EMPTY, ops) <==> AllSafe(EMPTY, ops)
  {
    assert IsExact(EMPTY);
    RunStaysExactIff(EMPTY, ops);
  }

  // ─── The page's moves at the server ───

  lemma SentParentExists(
      tree: Forest, dragged: Dragged, over: DropTarget, moveSucceeds: bool, newParent: Option<int>)
    requires TargetExists(tree, over)
    requires ApiCall.Move(dragged.id, newParent) in DropCalls(tree, Some(dragged), over, moveSucceeds)
    ensures newParent.Some? ==> newParent.value in IdSet(tree)
    ensures over != Nowhere && newParent == if over.OnGroup? then Some(over.groupId) else over.parentId
  {}

  /**
   * The move of an accepted drop arrives at the server: the group is under its new parent and the tables are exact.
   * The one kind of drop that the page should have refused, a group dropped among its own children, is refused
   * there and changes nothing.
   */
  lemma DropsKeepExact(
      tree: Forest, db: Db, dragged: Dragged, over: DropTarget, moveSucceeds: bool, newParent: Option<int>)
    requires DistinctIds(tree) && db.parents == Parents(tree, None) && IsExact(db)
    requires dragged.id in IdSet(tree) && TargetExists(tree, over)
    requires ApiCall.Move(dragged.id, newParent) in DropCalls(tree, Some(dragged), over, moveSucceeds)
    ensures IsExact(AfterMove(db, dragged.id, newParent))
    ensures over.Between? && over.parentId == Some(dragged.id) ==>
      MoveReply(db, dragged.id, newParent) == IntoOwnDescendant && AfterMove(db, dragged.id, newParent) == db
    ensures !(over.Between? && over.parentId == Some(dragged.id)) ==>
      && MoveReply(db, dragged.id, newParent) == Done
      && AfterMove(db, dragged.id, newParent).parents == db.parents[dragged.id := newParent]
      && newParent == if over.OnGroup? then Some(over.groupId) else over.parentId
  {
    SentParentExists(tree, dragged, over, moveSucceeds, newParent);
    MoveOutcome(db, dragged.id, newParent);
    SentMovesKeepForestIff(tree, dragged, over, moveSucceeds, newParent);
    MoveKeepsForestIff(db.parents, dragged.id, newParent);
  }
}
