/** Facts about sequences that the proofs call by name. */
module Sequences {
  import opened Wrappers

  lemma Assoc<T>(a: seq<T>, b: seq<T>, c: seq<T>)
    ensures (a + b) + c == a + (b + c)
  {}

  lemma AssocFour<T>(a: seq<T>, b: seq<T>, c: seq<T>, d: seq<T>)
    ensures ((a + b) + c) + d == a + ((b + c) + d)
  {}

  /** The pieces `f(lo)`, `f(lo + 1)`, ... up to `hi`, one after the other. */
  ghost function Joined<T>(f: nat -> seq<T>, lo: nat, hi: nat): seq<T>
    requires lo <= hi
    decreases hi - lo
  {
    if lo == hi then [] else f(lo) + Joined(f, lo + 1, hi)
  }

  lemma {:induction false} JoinedSplit<T>(f: nat -> seq<T>, lo: nat, mid: nat, hi: nat)
    requires lo <= mid <= hi
    ensures Joined(f, lo, hi) == Joined(f, lo, mid) + Joined(f, mid, hi)
    decreases mid - lo
  {
    if lo < mid {
      JoinedSplit(f, lo + 1, mid, hi);
      Assoc(f(lo), Joined(f, lo + 1, mid), Joined(f, mid, hi));
    }
  }

  lemma SliceOfSlice<T>(s: seq<T>, lo: nat, hi: nat, a: nat, b: nat)
    requires a <= b && lo + b <= hi <= |s|
    ensures s[lo..hi][a..b] == s[lo + a..lo + b]
  {
    forall k | 0 <= k < b - a ensures s[lo..hi][a..b][k] == s[lo + a..lo + b][k] {}
  }

  lemma SamePrefix<T>(p: seq<T>, a: seq<T>, b: seq<T>)
    ensures p + a == p + b <==> a == b
  {
    assert (p + a)[|p|..] == a && (p + b)[|p|..] == b;
  }

  lemma CountConcat<T>(a: seq<T>, b: seq<T>, z: T)
    ensures multiset(a + b)[z] == multiset(a)[z] + multiset(b)[z]
  {}

  ghost predicate NoDuplicates<T>(s: seq<T>) {
    forall i, j :: 0 <= i < j < |s| ==> s[i] != s[j]
  }

  lemma ConsDistinct<T>(x: T, s: seq<T>)
    ensures NoDuplicates([x] + s) <==> x !in s && NoDuplicates(s)
  {
    var t := [x] + s;
    assert forall i :: 0 <= i < |s| ==> s[i] == t[i + 1];
    assert x == t[0];
  }

  function AsList<T>(x: Option<T>): seq<T> {
    if x.Some? then [x.value] else []
  }

  /** What `f` makes of the elements, as far as it makes something of them. */
  function Collect<S, T>(s: seq<S>, f: S -> Option<T>): seq<T> {
    if s == [] then [] else AsList(f(s[0])) + Collect(s[1..], f)
  }

  lemma CollectCons<S, T>(x: S, s: seq<S>, f: S -> Option<T>)
    ensures Collect([x] + s, f) == AsList(f(x)) + Collect(s, f)
  {
    assert ([x] + s)[1..] == s;
  }

  lemma {:induction false} CollectOfOneMore<S, T>(s: seq<S>, x: S, f: S -> Option<T>)
    ensures Collect(s + [x], f) == Collect(s, f) + AsList(f(x))
  {
    if s == [] {
      assert [] + [x] == [x] + [];
      CollectCons(x, [], f);
    } else {
      CollectOfOneMore(s[1..], x, f);
      assert s + [x] == [s[0]] + (s[1..] + [x]);
      CollectCons(s[0], s[1..] + [x], f);
      Assoc(AsList(f(s[0])), Collect(s[1..], f), AsList(f(x)));
    }
  }

  /** First occurrences only, leaving out what was `seen` before. */
  function FirstOccurrences<T(==)>(s: seq<T>, seen: set<T>): seq<T> {
    if s == [] then []
    else if s[0] in seen then FirstOccurrences(s[1..], seen)
    else [s[0]] + FirstOccurrences(s[1..], seen + {s[0]})
  }

  lemma {:induction false} OneMoreCandidate<T>(a: seq<T>, x: T, seen: set<T>)
    ensures FirstOccurrences(a + [x], seen)
         == FirstOccurrences(a, seen) + if x in a || x in seen then [] else [x]
  {
    if a == [] {
      assert [x][1..] == [];
    } else {
      assert (a + [x])[1..] == a[1..] + [x];
      OneMoreCandidate(a[1..], x, if a[0] in seen then seen else seen + {a[0]});
    }
  }

  /** Deduplication loses no element and keeps none twice. */
  lemma {:induction false} FirstOccurrencesAreDistinct<T>(s: seq<T>, seen: set<T>)
    ensures NoDuplicates(FirstOccurrences(s, seen))
    ensures forall x :: x in FirstOccurrences(s, seen) <==> x in s && x !in seen
    decreases |s|
  {
    if s != [] {
      FirstOccurrencesAreDistinct(s[1..], seen);
      FirstOccurrencesAreDistinct(s[1..], seen + {s[0]});
      assert forall x :: x in s <==> x == s[0] || x in s[1..];
    }
  }

  lemma {:induction false} OccursOnce<T>(s: seq<T>, x: T)
    requires NoDuplicates(s)
    ensures multiset(s)[x] == if x in s then 1 else 0
  {
    if s != [] {
      assert s == [s[0]] + s[1..];
      CountConcat([s[0]], s[1..], x);
      OccursOnce(s[1..], x);
    }
  }

  lemma {:induction false} CountsMakeDistinct<T>(s: seq<T>)
    requires forall x :: x in s ==> multiset(s)[x] <= 1
    ensures NoDuplicates(s)
  {
    if s != [] {
      assert s == [s[0]] + s[1..];
      forall x | x in s[1..] ensures multiset(s[1..])[x] <= 1 && x != s[0] {
        CountConcat([s[0]], s[1..], x);
        assert x in s;
        assert multiset(s[1..])[x] >= 1;
        assert multiset([s[0]])[s[0]] == 1;
      }
      CountsMakeDistinct(s[1..]);
      var t := s[1..];
      forall i, j | 0 <= i < j < |s| ensures s[i] != s[j] {
        assert s[j] == t[j - 1] && t[j - 1] in t;
        if i > 0 {
          assert s[i] == t[i - 1];
        }
      }
    }
  }
}
