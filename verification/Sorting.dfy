/** Sorting by a total preorder, and the fact that a strictly ascending list is determined by its elements. */
module Sorting {
  ghost predicate TotalPreorder<T(!new)>(leq: (T, T) -> bool) {
    && (forall a, b :: leq(a, b) || leq(b, a))
    && (forall a, b, c :: leq(a, b) && leq(b, c) ==> leq(a, c))
  }

  ghost predicate Ordered<T>(s: seq<T>, leq: (T, T) -> bool) {
    forall i, j :: 0 <= i < j < |s| ==> leq(s[i], s[j])
  }

  function Insert<T>(x: T, s: seq<T>, leq: (T, T) -> bool): seq<T> {
    if s == [] || leq(x, s[0]) then [x] + s else [s[0]] + Insert(x, s[1..], leq)
  }

  function Sort<T>(s: seq<T>, leq: (T, T) -> bool): seq<T> {
    if s == [] then [] else Insert(s[0], Sort(s[1..], leq), leq)
  }

  lemma {:induction false} InsertPermutes<T>(x: T, s: seq<T>, leq: (T, T) -> bool)
    ensures multiset(Insert(x, s, leq)) == multiset{x} + multiset(s)
  {
    if !(s == [] || leq(x, s[0])) {
      InsertPermutes(x, s[1..], leq);
      assert s == [s[0]] + s[1..];
    }
  }

  lemma {:induction false} SortPermutes<T>(s: seq<T>, leq: (T, T) -> bool)
    ensures multiset(Sort(s, leq)) == multiset(s)
  {
    if s != [] {
      SortPermutes(s[1..], leq);
      InsertPermutes(s[0], Sort(s[1..], leq), leq);
      assert s == [s[0]] + s[1..];
    }
  }

  lemma SameElements<T>(s: seq<T>, t: seq<T>)
    requires multiset(s) == multiset(t)
    ensures |s| == |t|
    ensures forall x :: x in s <==> x in t
  {
    assert |s| == |multiset(s)| && |t| == |multiset(t)|;
    assert forall x :: x in s <==> x in multiset(s);
    assert forall x :: x in t <==> x in multiset(t);
  }

  lemma {:induction false} InsertOrders<T(!new)>(x: T, s: seq<T>, leq: (T, T) -> bool)
    requires TotalPreorder(leq) && Ordered(s, leq)
    ensures Ordered(Insert(x, s, leq), leq)
  {
    if !(s == [] || leq(x, s[0])) {
      var rest := Insert(x, s[1..], leq);
      InsertOrders(x, s[1..], leq);
      InsertPermutes(x, s[1..], leq);
      forall y | y in rest
        ensures leq(s[0], y)
      {
        assert y in multiset(rest);
        assert y == x || y in s[1..];
      }
    }
  }

  lemma {:induction false} SortOrders<T(!new)>(s: seq<T>, leq: (T, T) -> bool)
    requires TotalPreorder(leq)
    ensures Ordered(Sort(s, leq), leq)
  {
    if s != [] {
      SortOrders(s[1..], leq);
      InsertOrders(s[0], Sort(s[1..], leq), leq);
    }
  }

  ghost predicate Distinct<T>(s: seq<T>) {
    forall i, j :: 0 <= i < j < |s| ==> s[i] != s[j]
  }

  lemma {:induction false} DistinctCounts<T>(s: seq<T>)
    ensures Distinct(s) <==> forall x :: x in s ==> multiset(s)[x] == 1
  {
    if s != [] {
      DistinctCounts(s[1..]);
      assert s == [s[0]] + s[1..];
      assert forall x :: multiset(s)[x] == multiset(s[1..])[x] + if x == s[0] then 1 else 0;
      if Distinct(s) {
        assert Distinct(s[1..]);
        assert s[0] !in s[1..];
      }
      if forall x :: x in s ==> multiset(s)[x] == 1 {
        assert multiset(s)[s[0]] == 1;
        assert s[0] !in s[1..];
        assert forall x :: x in s[1..] ==> x in s;
        assert Distinct(s[1..]);
        forall i, j | 0 <= i < j < |s|
          ensures s[i] != s[j]
        {
          assert s[j] == s[1..][j - 1];
          if i > 0 {
            assert s[i] == s[1..][i - 1];
          }
        }
      }
    }
  }

  lemma PermutationKeepsDistinct<T>(s: seq<T>, t: seq<T>)
    requires multiset(s) == multiset(t) && Distinct(s)
    ensures Distinct(t)
  {
    DistinctCounts(s);
    DistinctCounts(t);
    SameElements(s, t);
  }

  /** Keys in ascending order. */
  function SortKeys(s: seq<nat>): seq<nat> {
    Sort(s, (a: nat, b: nat) => a <= b)
  }

  ghost predicate Ascending(s: seq<nat>) {
    forall i, j :: 0 <= i < j < |s| ==> s[i] < s[j]
  }

  lemma AscendingCons(x: nat, s: seq<nat>)
    requires Ascending(s) && forall y :: y in s ==> x < y
    ensures Ascending([x] + s)
  {
    var t := [x] + s;
    forall i, j | 0 <= i < j < |t|
      ensures t[i] < t[j]
    {
      assert t[j] == s[j - 1] && s[j - 1] in s;
    }
  }

  lemma SortKeysAscending(s: seq<nat>)
    requires Distinct(s)
    ensures Ascending(SortKeys(s))
    ensures |SortKeys(s)| == |s|
    ensures forall x :: x in SortKeys(s) <==> x in s
  {
    var leq := (a: nat, b: nat) => a <= b;
    SortOrders(s, leq);
    SortPermutes(s, leq);
    SameElements(SortKeys(s), s);
    PermutationKeepsDistinct(s, SortKeys(s));
  }

  /** A strictly ascending list is determined by the set of its elements. */
  lemma {:induction false} AscendingUnique(s: seq<nat>, t: seq<nat>)
    requires Ascending(s) && Ascending(t)
    requires forall x :: x in s <==> x in t
    ensures s == t
  {
    if t == [] {
      assert forall i :: 0 <= i < |s| ==> s[i] in t;
    } else {
      assert t[0] in s && s[0] in t;
      assert s[0] == t[0];
      forall x
        ensures x in s[1..] <==> x in t[1..]
      {
        assert x in s <==> x == s[0] || x in s[1..];
        assert x in t <==> x == t[0] || x in t[1..];
      }
      AscendingUnique(s[1..], t[1..]);
      assert s == [s[0]] + s[1..] && t == [t[0]] + t[1..];
    }
  }

  ghost predicate IsLeast(m: nat, s: set<nat>) {
    m in s && forall x :: x in s ==> m <= x
  }

  lemma {:induction false} LeastExists(s: set<nat>)
    requires s != {}
    ensures exists m :: IsLeast(m, s)
    decreases |s|
  {
    var x :| x in s;
    if s == {x} {
      assert IsLeast(x, s);
    } else {
      LeastExists(s - {x});
      var m :| IsLeast(m, s - {x});
      assert forall y :: y in s ==> y == x || y in s - {x};
      assert IsLeast(if x < m then x else m, s);
    }
  }

  /** The elements of a set in ascending order. */
  ghost function AscendingList(s: set<nat>): (list: seq<nat>)
    ensures Ascending(list) && |list| == |s|
    ensures forall x :: x in list <==> x in s
  {
    if s == {} then []
    else
      LeastExists(s);
      var m: nat :| IsLeast(m, s);
      AscendingCons(m, AscendingList(s - {m}));
      [m] + AscendingList(s - {m})
  }

  lemma {:induction false} AscendingListIs(list: seq<nat>, s: set<nat>)
    requires Ascending(list) && forall x :: x in list <==> x in s
    ensures list == AscendingList(s)
  {
    AscendingUnique(list, AscendingList(s));
  }

  lemma AscendingSize(list: seq<nat>, s: set<nat>)
    requires Ascending(list) && forall x :: x in list <==> x in s
    ensures |list| == |s|
  {
    AscendingListIs(list, s);
  }

  /** Read a set out in ascending order, whatever order its elements come in. */
  method ListInOrder(s: set<nat>) returns (list: seq<nat>)
    ensures list == AscendingList(s)
  {
    list := [];
    var remaining := s;
    while remaining != {}
      invariant remaining <= s && Distinct(list)
      invariant forall x :: x in list <==> x in s && x !in remaining
      decreases remaining
    {
      var x: nat :| x in remaining;
      list := list + [x];
      remaining := remaining - {x};
    }
    SortKeysAscending(list);
    list := SortKeys(list);
    AscendingListIs(list, s);
  }

  /** Lexicographic comparison of key lists. */
  predicate LexLeq(a: seq<nat>, b: seq<nat>) {
    a == [] || (b != [] && (a[0] < b[0] || (a[0] == b[0] && LexLeq(a[1..], b[1..]))))
  }

  lemma {:induction false} LexTotal(a: seq<nat>, b: seq<nat>)
    ensures LexLeq(a, b) || LexLeq(b, a)
  {
    if a != [] && b != [] && a[0] == b[0] {
      LexTotal(a[1..], b[1..]);
    }
  }

  lemma {:induction false} LexTransitive(a: seq<nat>, b: seq<nat>, c: seq<nat>)
    requires LexLeq(a, b) && LexLeq(b, c)
    ensures LexLeq(a, c)
  {
    if a != [] && b[0] == a[0] && c[0] == a[0] {
      LexTransitive(a[1..], b[1..], c[1..]);
    }
  }

  lemma LexPreorder()
    ensures TotalPreorder((a: seq<nat>, b: seq<nat>) => LexLeq(a, b))
  {
    forall a: seq<nat>, b: seq<nat>
      ensures LexLeq(a, b) || LexLeq(b, a)
    {
      LexTotal(a, b);
    }
    forall a: seq<nat>, b: seq<nat>, c: seq<nat> | LexLeq(a, b) && LexLeq(b, c)
      ensures LexLeq(a, c)
    {
      LexTransitive(a, b, c);
    }
  }

  /** Key lists in lexicographic order. */
  function SortLists(lists: seq<seq<nat>>): seq<seq<nat>> {
    Sort(lists, (a: seq<nat>, b: seq<nat>) => LexLeq(a, b))
  }

  lemma SortListsOrders(lists: seq<seq<nat>>)
    ensures multiset(SortLists(lists)) == multiset(lists)
    ensures forall i, j :: 0 <= i < j < |SortLists(lists)| ==> LexLeq(SortLists(lists)[i], SortLists(lists)[j])
  {
    var leq := (a: seq<nat>, b: seq<nat>) => LexLeq(a, b);
    LexPreorder();
    SortOrders(lists, leq);
    SortPermutes(lists, leq);
  }

  /** Sorting leaves an already ordered list alone. */
  lemma {:induction false} SortOrdered<T>(s: seq<T>, leq: (T, T) -> bool)
    requires Ordered(s, leq)
    ensures Sort(s, leq) == s
  {
    if s != [] {
      SortOrdered(s[1..], leq);
      assert s == [s[0]] + s[1..];
    }
  }
}
