/** Lists of classes of a partition, the canonical form in which every grouping route reports its result. */
module Components {
  import opened Sorting
  import opened Connectivity

  /** Each node with the class it belongs to. */
  type Classes = map<nat, set<nat>>

  ghost predicate Partition(classes: Classes) {
    && (forall x :: x in classes ==> x in classes[x])
    && (forall x, y :: x in classes && y in classes[x] ==> y in classes && classes[y] == classes[x])
  }

  /** `list` is one class, in ascending order and at least `minimum` long. */
  ghost predicate IsClass(list: seq<nat>, classes: Classes, minimum: nat) {
    && list != [] && minimum <= |list|
    && Ascending(list)
    && list[0] in classes
    && (forall x :: x in list <==> x in classes[list[0]])
  }

  /** `lists` holds every class of at least `minimum` nodes exactly once, ordered by smallest member. */
  ghost predicate ClassList(lists: seq<seq<nat>>, classes: Classes, minimum: nat) {
    && (forall i :: 0 <= i < |lists| ==> IsClass(lists[i], classes, minimum))
    && HeadsAscend(lists)
    && (forall x :: x in classes && minimum <= |classes[x]| ==> Listed(lists, x))
  }

  ghost predicate HeadsAscend(lists: seq<seq<nat>>) {
    forall i, j :: 0 <= i < j < |lists| ==>
      lists[i] != [] && lists[j] != [] && lists[i][0] < lists[j][0]
  }

  ghost predicate Listed(lists: seq<seq<nat>>, x: nat) {
    exists i :: 0 <= i < |lists| && x in lists[i]
  }

  ghost function Heads(lists: seq<seq<nat>>): (heads: seq<nat>)
    requires forall i :: 0 <= i < |lists| ==> lists[i] != []
    ensures |heads| == |lists| && forall i :: 0 <= i < |lists| ==> heads[i] == lists[i][0]
  {
    seq(|lists|, i requires 0 <= i < |lists| => lists[i][0])
  }

  lemma SameClass(left: seq<nat>, right: seq<nat>, classes: Classes, minimum: nat)
    requires Partition(classes) && IsClass(left, classes, minimum) && IsClass(right, classes, minimum)
    requires left[0] in right
    ensures left == right
  {
    AscendingUnique(left, right);
  }

  lemma HeadIsListed(left: seq<seq<nat>>, right: seq<seq<nat>>, classes: Classes, minimum: nat, i: nat)
    requires Partition(classes) && ClassList(left, classes, minimum) && ClassList(right, classes, minimum)
    requires i < |left|
    ensures left[i] in right
  {
    AscendingListIs(left[i], classes[left[i][0]]);
    assert Listed(right, left[i][0]);
    var j :| 0 <= j < |right| && left[i][0] in right[j];
    SameClass(left[i], right[j], classes, minimum);
  }

  /** A partition has only one class list per minimum size, so routes that build one all agree. */
  lemma ClassListUnique(left: seq<seq<nat>>, right: seq<seq<nat>>, classes: Classes, minimum: nat)
    requires Partition(classes)
    requires ClassList(left, classes, minimum) && ClassList(right, classes, minimum)
    ensures left == right
  {
    forall i | 0 <= i < |left|
      ensures left[i] in right && left[i][0] in Heads(right)
    {
      HeadIsListed(left, right, classes, minimum, i);
      var j :| 0 <= j < |right| && right[j] == left[i];
      assert Heads(right)[j] == left[i][0];
    }
    forall i | 0 <= i < |right|
      ensures right[i] in left && right[i][0] in Heads(left)
    {
      HeadIsListed(right, left, classes, minimum, i);
      var j :| 0 <= j < |left| && left[j] == right[i];
      assert Heads(left)[j] == right[i][0];
    }
    AscendingUnique(Heads(left), Heads(right));
    forall i | 0 <= i < |left|
      ensures left[i] == right[i]
    {
      assert Heads(left)[i] == Heads(right)[i];
      SameClass(left[i], right[i], classes, minimum);
    }
  }

  /** No class is empty, so a minimum of one asks for nothing more than a minimum of zero. */
  lemma ClassListOfNonempty(lists: seq<seq<nat>>, classes: Classes, minimum: nat)
    requires Partition(classes)
    requires ClassList(lists, classes, if minimum < 1 then 1 else minimum)
    ensures ClassList(lists, classes, minimum)
  {
    forall x | x in classes && minimum <= |classes[x]|
      ensures Listed(lists, x)
    {
      assert x in classes[x];
      assert classes[x] != {};
    }
  }

  /** The nodes that share a label. */
  ghost function Fiber(labels: map<nat, nat>, name: nat): set<nat> {
    set y | y in labels && labels[y] == name
  }

  ghost function Fibers(labels: map<nat, nat>): Classes {
    map x | x in labels :: Fiber(labels, labels[x])
  }

  lemma FibersPartition(labels: map<nat, nat>)
    ensures Partition(Fibers(labels))
  {
  }

  /** Each node with its connected component. */
  ghost function ComponentsOf(nodes: set<nat>, edges: Edges): Classes {
    map x | x in nodes :: Component(nodes, edges, x)
  }

  /**
   * Labels that agree along every edge, and only where the edges connect, have
   * the connected components as their fibers.
   */
  lemma LabelsSeparate(labels: map<nat, nat>, edges: Edges)
    requires forall x, y :: x in labels && y in labels && labels[x] == labels[y] ==> Connected(edges, x, y)
    requires forall e :: e in edges ==> e.0 in labels && e.1 in labels && labels[e.0] == labels[e.1]
    ensures Fibers(labels) == ComponentsOf(labels.Keys, edges)
  {
    forall x | x in labels
      ensures Fiber(labels, labels[x]) == Component(labels.Keys, edges, x)
    {
      forall y | y in labels && Connected(edges, x, y)
        ensures y in Fiber(labels, labels[x])
      {
        ConnectedStays(edges, x, y, Fiber(labels, labels[x]));
      }
    }
  }

  lemma ComponentsPartition(nodes: set<nat>, edges: Edges)
    ensures Partition(ComponentsOf(nodes, edges))
  {
    forall x | x in nodes
      ensures x in Component(nodes, edges, x)
    {
      Reflexive(edges, x);
    }
    forall x, y | x in nodes && y in Component(nodes, edges, x)
      ensures Component(nodes, edges, y) == Component(nodes, edges, x)
    {
      SameComponent(nodes, edges, x, y);
    }
  }

  lemma SameComponent(nodes: set<nat>, edges: Edges, x: nat, y: nat)
    requires Connected(edges, x, y)
    ensures Component(nodes, edges, y) == Component(nodes, edges, x)
  {
    Symmetric(edges, x, y);
    forall z: nat
      ensures Connected(edges, x, z) <==> Connected(edges, y, z)
    {
      if Connected(edges, x, z) {
        Transitive(edges, y, x, z);
      }
      if Connected(edges, y, z) {
        Transitive(edges, x, y, z);
      }
    }
  }

  /** All classes of at least `minimum` nodes, each once, in any order. */
  ghost predicate Gathered(lists: seq<seq<nat>>, classes: Classes, minimum: nat) {
    && (forall list :: list in lists ==> IsClass(list, classes, minimum))
    && Distinct(lists)
    && (forall x :: x in classes && minimum <= |classes[x]| ==> exists list :: list in lists && x in list)
  }

  lemma OrderedHeadsAscend(lists: seq<seq<nat>>, classes: Classes, minimum: nat)
    requires Partition(classes) && Distinct(lists)
    requires forall i :: 0 <= i < |lists| ==> IsClass(lists[i], classes, minimum)
    requires forall i, j :: 0 <= i < j < |lists| ==> LexLeq(lists[i], lists[j])
    ensures HeadsAscend(lists)
  {
    forall i, j | 0 <= i < j < |lists|
      ensures lists[i] != [] && lists[j] != [] && lists[i][0] < lists[j][0]
    {
      assert lists[i] != lists[j];
      if lists[i][0] == lists[j][0] {
        SameClass(lists[i], lists[j], classes, minimum);
      }
      assert LexLeq(lists[i], lists[j]);
    }
  }

  /** Gathered classes become the class list by a lexicographic sort. */
  lemma SortedClasses(lists: seq<seq<nat>>, classes: Classes, minimum: nat)
    requires Partition(classes) && Gathered(lists, classes, minimum)
    ensures ClassList(SortLists(lists), classes, minimum)
  {
    var sorted := SortLists(lists);
    SortListsOrders(lists);
    SameElements(sorted, lists);
    PermutationKeepsDistinct(lists, sorted);
    assert forall i :: 0 <= i < |sorted| ==> sorted[i] in lists;
    OrderedHeadsAscend(sorted, classes, minimum);
    forall x | x in classes && minimum <= |classes[x]|
      ensures Listed(sorted, x)
    {
      var list :| list in lists && x in list;
      assert list in sorted;
    }
  }
}
