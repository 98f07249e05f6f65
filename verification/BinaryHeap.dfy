/** The binary heap whose nodes are told their positions. */
module BinaryHeaps {

  /** A node: what is compared, and the position it was last told. */
  datatype Node<+T> = Node(value: T, index: int)

  function Parent(i: int): int {
    (i - 1) / 2
  }

  /**
   * What the heap needs of its comparator: it decides a total preorder, and may say either thing of
   * equivalent values.
   */
  ghost predicate Decides<T(!new)>(before: (T, T) -> bool, leq: (T, T) -> bool) {
    && (forall a, b :: before(a, b) ==> leq(a, b))
    && (forall a, b :: !before(a, b) ==> leq(b, a))
    && (forall a :: leq(a, a))
    && (forall a, b, c :: leq(a, b) && leq(b, c) ==> leq(a, c))
  }

  // ----- Heap order of values -----

  predicate EdgeOk<T>(leq: (T, T) -> bool, v: seq<T>, j: int)
    requires 1 <= j < |v|
  {
    leq(v[Parent(j)], v[j])
  }

  /** Heap order below the positions from `lo` on. */
  ghost predicate HeapFrom<T>(leq: (T, T) -> bool, v: seq<T>, lo: int) {
    forall j :: 1 <= j < |v| && Parent(j) >= lo ==> EdgeOk(leq, v, j)
  }

  /** Heap order below `lo`, but for the value in `i`, which may be too great for its place. */
  ghost predicate SinkingFrom<T>(leq: (T, T) -> bool, v: seq<T>, lo: int, i: int) {
    && (forall j :: 1 <= j < |v| && Parent(j) >= lo && Parent(j) != i ==> EdgeOk(leq, v, j))
    && (forall j :: 1 <= j < |v| && Parent(j) == i && 0 < i < |v| && Parent(i) >= lo ==> leq(v[Parent(i)], v[j]))
  }

  /** Heap order, but for the value in `i`, which may be too small for its place. */
  ghost predicate Rising<T>(leq: (T, T) -> bool, v: seq<T>, i: int) {
    && (forall j :: 1 <= j < |v| && j != i ==> EdgeOk(leq, v, j))
    && (forall j :: 1 <= j < |v| && Parent(j) == i && 0 < i < |v| ==> leq(v[Parent(i)], v[j]))
  }

  function Swapped<T>(v: seq<T>, i: int, j: int): (r: seq<T>)
    requires 0 <= i < |v| && 0 <= j < |v|
    ensures |r| == |v|
  {
    v[i := v[j]][j := v[i]]
  }

  lemma SwappedPermutes<T>(v: seq<T>, i: int, j: int)
    requires 0 <= i < |v| && 0 <= j < |v|
    ensures multiset(Swapped(v, i, j)) == multiset(v)
  {
  }

  lemma RisingStep<T(!new)>(before: (T, T) -> bool, leq: (T, T) -> bool, v: seq<T>, i: int)
    requires Decides(before, leq) && Rising(leq, v, i) && 0 < i < |v| && leq(v[i], v[Parent(i)])
    ensures Rising(leq, Swapped(v, i, Parent(i)), Parent(i))
  {
    var p, w := Parent(i), Swapped(v, i, Parent(i));
    forall j | 1 <= j < |w| && j != p
      ensures EdgeOk(leq, w, j)
    {
      assert j != i ==> EdgeOk(leq, v, j);
      assert p > 0 ==> EdgeOk(leq, v, p);
    }
    forall j | 1 <= j < |w| && Parent(j) == p && 0 < p
      ensures leq(w[Parent(p)], w[j])
    {
      assert EdgeOk(leq, v, p);
      assert j != i ==> EdgeOk(leq, v, j);
    }
  }

  lemma RisingEnds<T(!new)>(before: (T, T) -> bool, leq: (T, T) -> bool, v: seq<T>, i: int)
    requires Rising(leq, v, i) && 0 <= i < |v| && (i == 0 || leq(v[Parent(i)], v[i]))
    ensures HeapFrom(leq, v, 0)
  {
  }

  lemma SinkingStep<T(!new)>(before: (T, T) -> bool, leq: (T, T) -> bool, v: seq<T>, lo: int, i: int, c: int)
    requires Decides(before, leq) && SinkingFrom(leq, v, lo, i) && lo <= i && 0 <= i < c < |v| && Parent(c) == i
    requires leq(v[c], v[i]) && forall j :: 1 <= j < |v| && Parent(j) == i ==> leq(v[c], v[j])
    ensures SinkingFrom(leq, Swapped(v, i, c), lo, c)
  {
    var w := Swapped(v, i, c);
    forall j | 1 <= j < |w| && Parent(j) >= lo && Parent(j) != c
      ensures EdgeOk(leq, w, j)
    {
      if Parent(j) != i {
        assert EdgeOk(leq, v, j);
      }
    }
    forall j | 1 <= j < |w| && Parent(j) == c
      ensures leq(w[Parent(c)], w[j])
    {
      assert EdgeOk(leq, v, j);
    }
  }

  lemma SinkingEnds<T(!new)>(before: (T, T) -> bool, leq: (T, T) -> bool, v: seq<T>, lo: int, i: int)
    requires SinkingFrom(leq, v, lo, i) && forall j :: 1 <= j < |v| && Parent(j) == i ==> leq(v[i], v[j])
    ensures HeapFrom(leq, v, lo)
  {
  }

  /** The root of a heap is least. */
  lemma {:induction false} RootIsLeast<T(!new)>(before: (T, T) -> bool, leq: (T, T) -> bool, v: seq<T>, j: int)
    requires Decides(before, leq) && HeapFrom(leq, v, 0) && 0 <= j < |v|
    ensures leq(v[0], v[j])
    decreases j
  {
    if j > 0 {
      RootIsLeast(before, leq, v, Parent(j));
      assert EdgeOk(leq, v, j);
    }
  }

  // ----- Taking a value from the middle -----

  /**
   * Heap order, but for the value in `i`, which is on its way up from somewhere below: everything
   * below `i` is ordered and not less than the parent of `i`.
   */
  ghost predicate Lifting<T>(leq: (T, T) -> bool, v: seq<T>, i: int) {
    && (forall j :: 1 <= j < |v| && j != i && Parent(j) != i ==> EdgeOk(leq, v, j))
    && (forall j :: 1 <= j < |v| && Parent(j) == i && 0 < i < |v| ==> leq(v[Parent(i)], v[j]))
  }

  lemma LiftingStarts<T(!new)>(before: (T, T) -> bool, leq: (T, T) -> bool, v: seq<T>, i: int)
    requires Decides(before, leq) && HeapFrom(leq, v, 0) && 0 <= i < |v|
    ensures Lifting(leq, v, i)
  {
    forall j | 1 <= j < |v| && Parent(j) == i && 0 < i
      ensures leq(v[Parent(i)], v[j])
    {
      assert EdgeOk(leq, v, j) && EdgeOk(leq, v, i);
    }
  }

  lemma LiftingStep<T(!new)>(before: (T, T) -> bool, leq: (T, T) -> bool, v: seq<T>, i: int)
    requires Decides(before, leq) && Lifting(leq, v, i) && 0 < i < |v|
    ensures Lifting(leq, Swapped(v, i, Parent(i)), Parent(i))
  {
    var p, w := Parent(i), Swapped(v, i, Parent(i));
    forall j | 1 <= j < |w| && j != p && Parent(j) != p
      ensures EdgeOk(leq, w, j)
    {
      if Parent(j) != i {
        assert EdgeOk(leq, v, j);
      }
    }
    forall j | 1 <= j < |w| && Parent(j) == p && 0 < p
      ensures leq(w[Parent(p)], w[j])
    {
      assert EdgeOk(leq, v, p);
      assert j != i ==> EdgeOk(leq, v, j);
    }
  }

  /** Once the value is at the root it can be replaced by the last one, which then sinks. */
  lemma LiftedOut<T(!new)>(leq: (T, T) -> bool, v: seq<T>)
    requires Lifting(leq, v, 0) && |v| > 0
    ensures var w := Swapped(v, 0, |v| - 1);
            w[|v| - 1] == v[0] && SinkingFrom(leq, w[..|v| - 1], 0, 0) &&
              multiset(w[..|v| - 1]) == multiset(v) - multiset{v[0]}
  {
    var n := |v| - 1;
    var w := Swapped(v, 0, n);
    var u := w[..n];
    forall j | 1 <= j < |u| && Parent(j) != 0
      ensures EdgeOk(leq, u, j)
    {
      assert EdgeOk(leq, v, j);
    }
    SwappedPermutes(v, 0, n);
    assert w == u + [v[0]];
  }

  /** A position without children is a heap. */
  lemma LeavesAreHeaps<T>(leq: (T, T) -> bool, v: seq<T>)
    ensures HeapFrom(leq, v, |v| / 2)
  {
  }

  lemma OneMoreSinks<T>(leq: (T, T) -> bool, v: seq<T>, i: int)
    requires 0 <= i && HeapFrom(leq, v, i + 1)
    ensures SinkingFrom(leq, v, i, i)
  {
  }

  function ValuesOf<T>(nodes: seq<Node<T>>): (v: seq<T>)
    ensures |v| == |nodes|
  {
    seq(|nodes|, i requires 0 <= i < |nodes| => nodes[i].value)
  }

  // ----- The heap -----

  /** Every node that is not where it was has been told its position. */
  ghost predicate Told<T(!new)>(was: seq<Node<T>>, now: seq<Node<T>>) {
    |was| == |now| && forall i :: 0 <= i < |now| ==> now[i] == was[i] || now[i].index == i
  }

  class IntrusiveBinaryHeap<T(!new)> {
    const before: (T, T) -> bool
    /** The order the comparator decides. */
    ghost const leq: (T, T) -> bool
    var nodes: seq<Node<T>>

    ghost function Values(): (v: seq<T>)
      reads this
      ensures |v| == |nodes|
    {
      ValuesOf(nodes)
    }

    ghost predicate Valid()
      reads this
    {
      Decides(before, leq) && HeapFrom(leq, Values(), 0)
    }

    /** Every node knows where it is. */
    ghost predicate Indexed()
      reads this
    {
      forall i :: 0 <= i < |nodes| ==> nodes[i].index == i
    }

    constructor (before: (T, T) -> bool, ghost leq: (T, T) -> bool)
      requires Decides(before, leq)
      ensures Valid() && nodes == [] && Indexed() && this.before == before && this.leq == leq
    {
      this.before, this.leq, nodes := before, leq, [];
    }

    /** The heap of many nodes at once: from the last parent to the root, each sinks into the heaps below it. */
    constructor FromNodes(before: (T, T) -> bool, ghost leq: (T, T) -> bool, nodes: seq<Node<T>>)
      requires Decides(before, leq)
      ensures Valid() && multiset(Values()) == multiset(ValuesOf(nodes)) && this.before == before && this.leq == leq
      ensures Told(nodes, this.nodes) && (|nodes| <= 1 ==> this.nodes == nodes)
      ensures Indexed() <==> forall i :: 0 <= i < |nodes| && this.nodes[i] == nodes[i] ==> nodes[i].index == i
      ensures (forall i :: 0 <= i < |nodes| ==> nodes[i].index == i) ==> Indexed()
    {
      this.before, this.leq, this.nodes := before, leq, nodes;
      new;
      assert Values() == ValuesOf(nodes);
      LeavesAreHeaps(this.leq, Values());
      var i := |nodes| / 2;
      while i > 0
        invariant 0 <= i <= |nodes| / 2 && |this.nodes| == |nodes| && HeapFrom(this.leq, Values(), i)
        invariant multiset(Values()) == multiset(ValuesOf(nodes))
        invariant Told(nodes, this.nodes) && (|nodes| <= 1 ==> this.nodes == nodes)
      {
        i := i - 1;
        OneMoreSinks(this.leq, Values(), i);
        HeapifyDown(i, i);
      }
    }

    method SwapIndices(i: nat, j: nat)
      requires i < |nodes| && j < |nodes|
      modifies this
      ensures |nodes| == |old(nodes)| && Values() == Swapped(old(Values()), i, j) && (old(Indexed()) ==> Indexed())
      ensures Told(old(nodes), nodes)
    {
      nodes := nodes[i := nodes[j]][j := nodes[i]];
      nodes := nodes[i := nodes[i].(index := i)];
      nodes := nodes[j := nodes[j].(index := j)];
    }

    /** heapify_up */
    method HeapifyUp(start: nat)
      requires start < |nodes| && Decides(before, leq) && Rising(leq, Values(), start)
      modifies this
      ensures Valid() && multiset(Values()) == multiset(old(Values())) && (old(Indexed()) ==> Indexed())
    {
      hide Rising, HeapFrom, Decides, Swapped;
      var i := start;
      while i != 0
        invariant 0 <= i < |nodes| && Rising(leq, Values(), i)
        invariant multiset(Values()) == multiset(old(Values())) && (old(Indexed()) ==> Indexed())
        decreases i
      {
        var parent := (i - 1) / 2;
        ComparatorDecides(before, leq, nodes[parent].value, nodes[i].value);
        if before(nodes[parent].value, nodes[i].value) {
          break;
        }
        RisingStep(before, leq, Values(), i);
        SwappedPermutes(Values(), i, parent);
        SwapIndices(i, parent);
        i := parent;
      }
      RisingEnds(before, leq, Values(), i);
    }

    /** heapify_down */
    method HeapifyDown(start: nat, ghost lo: int)
      requires Decides(before, leq) && 0 <= lo <= start && SinkingFrom(leq, Values(), lo, start)
      modifies this
      ensures Decides(before, leq) && HeapFrom(leq, Values(), lo) && Told(old(nodes), nodes)
      ensures multiset(Values()) == multiset(old(Values())) && (old(Indexed()) ==> Indexed())
    {
      hide SinkingFrom, HeapFrom, Decides, Swapped;
      var i := start;
      while i * 2 + 1 < |nodes|
        invariant start <= i && SinkingFrom(leq, Values(), lo, i) && Told(old(nodes), nodes)
        invariant multiset(Values()) == multiset(old(Values())) && (old(Indexed()) ==> Indexed())
        decreases |nodes| - i
      {
        var minChild := LesserChild(i);
        ComparatorDecides(before, leq, nodes[i].value, nodes[minChild].value);
        if before(nodes[i].value, nodes[minChild].value) {
          LeastOfThree(before, leq, Values(), i, minChild);
          SinkingEnds(before, leq, Values(), lo, i);
          return;
        }
        SinkingStep(before, leq, Values(), lo, i, minChild);
        SwappedPermutes(Values(), i, minChild);
        SwapIndices(i, minChild);
        i := minChild;
      }
      SinkingEnds(before, leq, Values(), lo, i);
    }

    method LesserChild(i: nat) returns (minChild: nat)
      requires i * 2 + 1 < |nodes| && Decides(before, leq)
      ensures minChild < |nodes| && Parent(minChild) == i && i < minChild
      ensures forall j :: 1 <= j < |nodes| && Parent(j) == i ==> leq(Values()[minChild], Values()[j])
    {
      minChild := i * 2 + 1;
      var otherChild := i * 2 + 2;
      if otherChild < |nodes| && before(nodes[otherChild].value, nodes[minChild].value) {
        minChild := otherChild;
      }
      assert forall j :: 1 <= j < |nodes| && Parent(j) == i ==> j == i * 2 + 1 || j == i * 2 + 2;
    }

    /** insert */
    method Insert(value: T)
      requires Valid()
      modifies this
      ensures Valid() && multiset(Values()) == multiset(old(Values())) + multiset{value} &&
              (old(Indexed()) ==> Indexed())
    {
      ghost var v := Values();
      nodes := nodes + [Node(value, -1)];
      nodes := nodes[|nodes| - 1 := nodes[|nodes| - 1].(index := |nodes| - 1)];
      assert Values() == v + [value];
      AppendedRises(leq, v, value);
      HeapifyUp(|nodes| - 1);
    }

    /** pop: takes the node from any position. */
    method Pop(position: nat) returns (value: T)
      requires Valid() && position < |nodes|
      modifies this
      ensures Valid() && value == old(nodes)[position].value && (old(Indexed()) ==> Indexed())
      ensures multiset(Values()) == multiset(old(Values())) - multiset{value}
      ensures |nodes| == |old(nodes)| - 1
    {
      hide Lifting, HeapFrom, Decides, Swapped, SinkingFrom;
      var i := position;
      LiftingStarts(before, leq, Values(), i);
      while i != 0
        invariant 0 <= i < |nodes| && |nodes| == |old(nodes)| && Lifting(leq, Values(), i) &&
                  Values()[i] == old(Values())[position]
        invariant multiset(Values()) == multiset(old(Values())) && (old(Indexed()) ==> Indexed())
        decreases i
      {
        LiftingStep(before, leq, Values(), i);
        SwappedPermutes(Values(), i, (i - 1) / 2);
        SwappedAt(Values(), i, (i - 1) / 2);
        SwapIndices(i, (i - 1) / 2);
        i := (i - 1) / 2;
      }
      LiftedOut(leq, Values());
      SwapIndices(0, |nodes| - 1);
      ghost var v := Values();
      value := nodes[|nodes| - 1].value;
      nodes := nodes[..|nodes| - 1];
      assert Values() == v[..|nodes|];
      HeapifyDown(0, 0);
    }

    /** pop_min */
    method PopMin() returns (value: T)
      requires Valid() && nodes != []
      modifies this
      ensures Valid() && multiset(Values()) == multiset(old(Values())) - multiset{value} &&
              value in multiset(old(Values()))
      ensures |nodes| == |old(nodes)| - 1 && (old(Indexed()) ==> Indexed())
      ensures forall j :: 0 <= j < |old(nodes)| ==> leq(value, old(Values())[j])
    {
      hide HeapFrom, Decides;
      forall j | 0 <= j < |nodes|
        ensures leq(Values()[0], Values()[j])
      {
        RootIsLeast(before, leq, Values(), j);
      }
      assert Values()[0] == nodes[0].value;
      value := Pop(0);
    }
  }

  // ----- Sorting -----

  ghost predicate Sorted<T>(leq: (T, T) -> bool, s: seq<T>) {
    forall i, j :: 0 <= i < j < |s| ==> leq(s[i], s[j])
  }

  /** Everything in `s` comes before everything in `v`. */
  ghost predicate AllBefore<T>(leq: (T, T) -> bool, s: seq<T>, v: seq<T>) {
    forall i, j :: 0 <= i < |s| && 0 <= j < |v| ==> leq(s[i], v[j])
  }

  lemma NextInOrder<T>(leq: (T, T) -> bool, s: seq<T>, v: seq<T>, value: T, v': seq<T>)
    requires Sorted(leq, s) && AllBefore(leq, s, v) && value in v && forall j :: 0 <= j < |v| ==> leq(value, v[j])
    requires multiset(v') == multiset(v) - multiset{value}
    ensures Sorted(leq, s + [value]) && AllBefore(leq, s + [value], v')
    ensures multiset(s + [value]) + multiset(v') == multiset(s) + multiset(v)
  {
    forall j | 0 <= j < |v'|
      ensures v'[j] in v
    {
      assert v'[j] in multiset(v') && v'[j] in multiset(v);
    }
  }

  /** A heap made from values at once, emptied one least value after the other, gives them in order. */
  method PopAll<T(!new)>(before: (T, T) -> bool, ghost leq: (T, T) -> bool, values: seq<T>) returns (sorted: seq<T>)
    requires Decides(before, leq)
    ensures multiset(sorted) == multiset(values) && Sorted(leq, sorted)
  {
    hide Decides, HeapFrom, Sorted, AllBefore;
    var nodes := seq(|values|, i requires 0 <= i < |values| => Node(values[i], -1));
    var heap := new IntrusiveBinaryHeap<T>.FromNodes(before, leq, nodes);
    sorted := [];
    SameValues(nodes, values);
    NothingSorted(leq, heap.Values());
    while heap.nodes != []
      invariant heap.Valid() && fresh(heap) && heap.leq == leq
      invariant multiset(sorted) + multiset(heap.Values()) == multiset(values)
      invariant Sorted(leq, sorted) && AllBefore(leq, sorted, heap.Values())
      decreases |heap.nodes|
    {
      ghost var v := heap.Values();
      var value := heap.PopMin();
      NextInOrder(leq, sorted, v, value, heap.Values());
      sorted := sorted + [value];
    }
    assert heap.Values() == [];
  }

  lemma NothingSorted<T>(leq: (T, T) -> bool, v: seq<T>)
    ensures Sorted(leq, []) && AllBefore(leq, [], v)
  {
  }

  lemma SameValues<T>(nodes: seq<Node<T>>, values: seq<T>)
    requires |nodes| == |values| && forall i :: 0 <= i < |values| ==> nodes[i].value == values[i]
    ensures ValuesOf(nodes) == values
  {
  }

  lemma SwappedAt<T>(v: seq<T>, i: int, j: int)
    requires 0 <= i < |v| && 0 <= j < |v|
    ensures Swapped(v, i, j)[j] == v[i]
  {
  }

  lemma ComparatorDecides<T(!new)>(before: (T, T) -> bool, leq: (T, T) -> bool, a: T, b: T)
    requires Decides(before, leq)
    ensures if before(a, b) then leq(a, b) else leq(b, a)
  {
  }

  lemma LeastOfThree<T(!new)>(before: (T, T) -> bool, leq: (T, T) -> bool, v: seq<T>, i: int, c: int)
    requires Decides(before, leq) && 0 <= i < |v| && 0 <= c < |v| && leq(v[i], v[c])
    requires forall j :: 1 <= j < |v| && Parent(j) == i ==> leq(v[c], v[j])
    ensures forall j :: 1 <= j < |v| && Parent(j) == i ==> leq(v[i], v[j])
  {
  }

  lemma AppendedRises<T>(leq: (T, T) -> bool, v: seq<T>, value: T)
    requires HeapFrom(leq, v, 0)
    ensures Rising(leq, v + [value], |v|)
  {
    var w := v + [value];
    forall j | 1 <= j < |w| && j != |v|
      ensures EdgeOk(leq, w, j)
    {
      assert EdgeOk(leq, v, j);
    }
  }

  /** A single node is never moved, and so keeps a wrong index. */
  method LoneNodeExample() returns (heap: IntrusiveBinaryHeap<int>)
    ensures |heap.nodes| == 1 && !heap.Indexed()
  {
    heap := new IntrusiveBinaryHeap<int>.FromNodes((a, b) => a < b, (a, b) => a <= b, [Node(0, 1)]);
    assert heap.nodes[0].index == 1;
  }
}
