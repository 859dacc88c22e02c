/** Stable sorting by a comparison, as the language's `sort` does it, and what it needs of the comparison. */
module Sorting {
  import opened Sequences

  /** On the elements of `dom`, any two compare, and the comparison is transitive. */
  ghost predicate IsPreorderOn<T>(dom: set<T>, leq: (T, T) -> bool) {
    && (forall x, y :: x in dom && y in dom ==> leq(x, y) || leq(y, x))
    && (forall x, y, z :: x in dom && y in dom && z in dom && leq(x, y) && leq(y, z) ==> leq(x, z))
  }

  ghost predicate AllIn<T>(s: seq<T>, dom: set<T>) {
    forall x :: x in s ==> x in dom
  }

  function Insert<T>(x: T, sorted: seq<T>, leq: (T, T) -> bool): seq<T> {
    if sorted == [] || leq(x, sorted[0]) then [x] + sorted
    else [sorted[0]] + Insert(x, sorted[1..], leq)
  }

  function StableSort<T>(s: seq<T>, leq: (T, T) -> bool): seq<T> {
    if s == [] then [] else Insert(s[0], StableSort(s[1..], leq), leq)
  }

  /** Ascending, every element compared with the ones after it. */
  ghost predicate Ascending<T>(s: seq<T>, leq: (T, T) -> bool) {
    s != [] ==> (forall x :: x in s ==> leq(s[0], x)) && Ascending(s[1..], leq)
  }

  predicate Tied<T>(x: T, y: T, leq: (T, T) -> bool) {
    leq(x, y) && leq(y, x)
  }

  ghost function Tie<T>(x: T, v: T, leq: (T, T) -> bool): seq<T> {
    if Tied(x, v, leq) then [x] else []
  }

  /** The elements that compare as equal to `v`, in their order. */
  ghost function Ties<T>(s: seq<T>, v: T, leq: (T, T) -> bool): seq<T> {
    if s == [] then [] else Tie(s[0], v, leq) + Ties(s[1..], v, leq)
  }

  // ─── The sort is a stable, ascending permutation ───

  lemma {:induction false} InsertSpec<T>(x: T, s: seq<T>, leq: (T, T) -> bool)
    ensures multiset(Insert(x, s, leq)) == multiset([x]) + multiset(s)
    ensures forall y :: y in Insert(x, s, leq) <==> y == x || y in s
  {
    if s != [] && !leq(x, s[0]) {
      InsertSpec(x, s[1..], leq);
      assert s == [s[0]] + s[1..];
    }
  }

  lemma AscendingCons<T>(x: T, rest: seq<T>, leq: (T, T) -> bool)
    requires Ascending(rest, leq) && leq(x, x) && forall y :: y in rest ==> leq(x, y)
    ensures Ascending([x] + rest, leq)
  {
    assert ([x] + rest)[1..] == rest;
  }

  lemma {:induction false} InsertAscends<T>(x: T, s: seq<T>, leq: (T, T) -> bool, dom: set<T>)
    requires IsPreorderOn(dom, leq) && x in dom && AllIn(s, dom) && Ascending(s, leq)
    ensures Ascending(Insert(x, s, leq), leq)
  {
    assert leq(x, x);
    if s == [] {
      AscendingCons(x, [], leq);
    } else if leq(x, s[0]) {
      forall y | y in s ensures leq(x, y) {
        assert s[0] in s && leq(s[0], y);
      }
      AscendingCons(x, s, leq);
    } else {
      assert s[0] in s && leq(s[0], x);
      InsertAscends(x, s[1..], leq, dom);
      InsertSpec(x, s[1..], leq);
      assert s[0] in s;
      assert s == [s[0]] + s[1..];
      forall y | y in Insert(x, s[1..], leq) ensures leq(s[0], y) {
        assert y in multiset(Insert(x, s[1..], leq)) && (y == x || y in multiset(s[1..]));
      }
      AscendingCons(s[0], Insert(x, s[1..], leq), leq);
    }
  }

  lemma TiesOfCons<T>(x: T, s: seq<T>, v: T, leq: (T, T) -> bool)
    ensures Ties([x] + s, v, leq) == Tie(x, v, leq) + Ties(s, v, leq)
  {
    assert ([x] + s)[1..] == s;
  }

  lemma {:induction false} InsertKeepsTies<T>(x: T, s: seq<T>, v: T, leq: (T, T) -> bool, dom: set<T>)
    requires IsPreorderOn(dom, leq) && x in dom && v in dom && AllIn(s, dom)
    ensures Ties(Insert(x, s, leq), v, leq) == Tie(x, v, leq) + Ties(s, v, leq)
  {
    if s != [] && !leq(x, s[0]) {
      assert s[0] in s;
      InsertKeepsTies(x, s[1..], v, leq, dom);
      TiesOfCons(s[0], Insert(x, s[1..], leq), v, leq);
      // `x` and `s[0]` are not tied: at most one of the two is tied with `v`.
      assert Tie(s[0], v, leq) == [] || Tie(x, v, leq) == [];
    } else {
      TiesOfCons(x, s, v, leq);
    }
  }

  lemma SortStaysIn<T>(s: seq<T>, leq: (T, T) -> bool, dom: set<T>)
    requires s != [] && AllIn(s, dom)
    ensures s[0] in dom && AllIn(s[1..], dom) && AllIn(StableSort(s[1..], leq), dom)
  {
    SortIsPermutation(s[1..], leq);
    assert s == [s[0]] + s[1..];
    forall x | x in StableSort(s[1..], leq) ensures x in dom {
      assert x in multiset(StableSort(s[1..], leq)) && x in multiset(s[1..]);
      assert x in s;
    }
  }

  lemma {:induction false} SortIsPermutation<T>(s: seq<T>, leq: (T, T) -> bool)
    ensures multiset(StableSort(s, leq)) == multiset(s)
    ensures forall x :: x in StableSort(s, leq) <==> x in s
  {
    if s != [] {
      SortIsPermutation(s[1..], leq);
      InsertSpec(s[0], StableSort(s[1..], leq), leq);
      assert s == [s[0]] + s[1..];
    }
  }

  lemma {:induction false} SortAscends<T>(s: seq<T>, leq: (T, T) -> bool, dom: set<T>)
    requires IsPreorderOn(dom, leq) && AllIn(s, dom)
    ensures Ascending(StableSort(s, leq), leq)
  {
    if s != [] {
      SortStaysIn(s, leq, dom);
      SortAscends(s[1..], leq, dom);
      InsertAscends(s[0], StableSort(s[1..], leq), leq, dom);
    }
  }

  lemma {:induction false} SortKeepsTies<T>(s: seq<T>, v: T, leq: (T, T) -> bool, dom: set<T>)
    requires IsPreorderOn(dom, leq) && v in dom && AllIn(s, dom)
    ensures Ties(StableSort(s, leq), v, leq) == Ties(s, v, leq)
  {
    if s != [] {
      SortStaysIn(s, leq, dom);
      SortKeepsTies(s[1..], v, leq, dom);
      InsertKeepsTies(s[0], StableSort(s[1..], leq), v, leq, dom);
    }
  }

  /** For a total preorder the sort is a permutation, ascending, and keeps the order of tied elements. */
  lemma SortSpec<T>(s: seq<T>, v: T, leq: (T, T) -> bool, dom: set<T>)
    requires IsPreorderOn(dom, leq) && AllIn(s, dom) && v in dom
    ensures multiset(StableSort(s, leq)) == multiset(s)
    ensures Ascending(StableSort(s, leq), leq)
    ensures Ties(StableSort(s, leq), v, leq) == Ties(s, v, leq)
  {
    SortIsPermutation(s, leq);
    SortAscends(s, leq, dom);
    SortKeepsTies(s, v, leq, dom);
  }

  lemma {:induction false} AscendingPair<T>(s: seq<T>, leq: (T, T) -> bool, i: nat, j: nat)
    requires Ascending(s, leq) && i < j < |s|
    ensures leq(s[i], s[j])
  {
    if i == 0 {
      assert s[j] in s;
    } else {
      AscendingPair(s[1..], leq, i - 1, j - 1);
    }
  }

  // ─── There is only one ───

  lemma {:induction false} TiesMembers<T>(s: seq<T>, v: T, leq: (T, T) -> bool)
    ensures forall x :: x in Ties(s, v, leq) <==> x in s && Tied(x, v, leq)
  {
    if s != [] {
      TiesMembers(s[1..], v, leq);
      assert forall x :: x in s <==> x == s[0] || x in s[1..];
    }
  }

  ghost predicate SameTies<T>(s: seq<T>, t: seq<T>, leq: (T, T) -> bool, dom: set<T>) {
    forall v :: v in dom ==> Ties(s, v, leq) == Ties(t, v, leq)
  }

  lemma TiedMember<T>(s: seq<T>, t: seq<T>, x: T, leq: (T, T) -> bool, dom: set<T>)
    requires IsPreorderOn(dom, leq) && AllIn(s, dom) && SameTies(s, t, leq, dom) && x in s
    ensures x in t
  {
    TiesMembers(s, x, leq);
    TiesMembers(t, x, leq);
    assert Tied(x, x, leq);
    assert x in Ties(s, x, leq);
  }

  lemma SameLeast<T>(s: seq<T>, t: seq<T>, leq: (T, T) -> bool, dom: set<T>)
    requires IsPreorderOn(dom, leq) && AllIn(s, dom) && AllIn(t, dom)
    requires Ascending(s, leq) && Ascending(t, leq) && SameTies(s, t, leq, dom) && s != []
    ensures t != [] && s[0] == t[0]
  {
    assert s[0] in s;
    TiedMember(s, t, s[0], leq, dom);
    assert t[0] in t;
    TiedMember(t, s, t[0], leq, dom);
    assert Tied(s[0], s[0], leq) && Tied(t[0], s[0], leq);
    assert Ties(s, s[0], leq)[0] == s[0] && Ties(t, s[0], leq)[0] == t[0];
  }

  lemma {:induction false} TiesDetermineAscending<T>(s: seq<T>, t: seq<T>, leq: (T, T) -> bool, dom: set<T>)
    requires IsPreorderOn(dom, leq) && AllIn(s, dom) && AllIn(t, dom)
    requires Ascending(s, leq) && Ascending(t, leq) && SameTies(s, t, leq, dom)
    ensures s == t
  {
    if s != [] {
      SameLeast(s, t, leq, dom);
      forall v | v in dom ensures Ties(s[1..], v, leq) == Ties(t[1..], v, leq) {
        assert Ties(s, v, leq) == Ties(t, v, leq);
        SamePrefix(Tie(s[0], v, leq), Ties(s[1..], v, leq), Ties(t[1..], v, leq));
      }
      TiesDetermineAscending(s[1..], t[1..], leq, dom);
      assert s == [s[0]] + s[1..] && t == [t[0]] + t[1..];
    } else if t != [] {
      SameLeast(t, s, leq, dom);
    }
  }

  lemma SortHasSameTies<T>(s: seq<T>, t: seq<T>, leq: (T, T) -> bool, dom: set<T>)
    requires IsPreorderOn(dom, leq) && AllIn(s, dom) && SameTies(s, t, leq, dom)
    ensures SameTies(t, StableSort(s, leq), leq, dom)
  {
    forall v | v in dom ensures Ties(t, v, leq) == Ties(StableSort(s, leq), v, leq) {
      SortKeepsTies(s, v, leq, dom);
      assert Ties(s, v, leq) == Ties(t, v, leq);
    }
  }

  /** There is only one stable sort: an ascending list with the same ties in the same order is the one computed. */
  lemma StableSortIsUnique<T>(s: seq<T>, t: seq<T>, sorted: seq<T>, leq: (T, T) -> bool, dom: set<T>)
    requires IsPreorderOn(dom, leq) && AllIn(s, dom) && AllIn(t, dom)
    requires Ascending(t, leq) && SameTies(s, t, leq, dom) && sorted == StableSort(s, leq)
    ensures t == sorted
  {
    SortIsPermutation(s, leq);
    SortAscends(s, leq, dom);
    SortHasSameTies(s, t, leq, dom);
    TiesDetermineAscending(t, sorted, leq, dom);
  }

  lemma {:induction false} SortOfAscending<T>(s: seq<T>, leq: (T, T) -> bool)
    requires Ascending(s, leq)
    ensures StableSort(s, leq) == s
  {
    if s != [] {
      SortOfAscending(s[1..], leq);
      assert s == [s[0]] + s[1..];
      assert s[1..] != [] ==> s[1] in s;
    }
  }
}
