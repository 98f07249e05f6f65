/** The ordered Robin Hood hash table. */
module HashTables {
  import opened BucketList
  import opened Common
  import opened RobinHood
  import opened Sequences

  /**
   * OrderedBucket. State 0 is Free, 255 is CalculateLength, and any other state is the probe length
   * plus one. The slot of a free bucket is storage without meaning.
   */
  datatype Bucket<+T> = Bucket(state: nat, slot: T, previous: int, next: int)

  // ----- Buckets as nodes of the list and as entries of the table -----
  //
  // Nodes are the buckets followed by one more: the bucket that an insertion holds in its hand.

  function LinksOf<T>(nodes: seq<Bucket<T>>, head: int, tail: int): (l: Links)
    ensures |l.previous| == |nodes| && |l.next| == |nodes|
  {
    Links(seq(|nodes|, i requires 0 <= i < |nodes| => nodes[i].previous),
          seq(|nodes|, i requires 0 <= i < |nodes| => nodes[i].next), head, tail)
  }

  lemma LinksOfUpdate<T>(nodes: seq<Bucket<T>>, head: int, tail: int, i: int, b: Bucket<T>)
    requires 0 <= i < |nodes|
    ensures LinksOf(nodes[i := b], head, tail)
            == LinksOf(nodes, head, tail).SetPrevious(i, b.previous).SetNext(i, b.next)
  {
  }

  /** States and slots are the same. */
  ghost predicate SamePayload<T>(nodes: seq<Bucket<T>>, other: seq<Bucket<T>>) {
    |nodes| == |other| &&
    forall i :: 0 <= i < |nodes| ==> nodes[i].state == other[i].state && nodes[i].slot == other[i].slot
  }

  function IdealOf<T>(hash: T -> nat, b: Bucket<T>, capacity: nat): int
    requires capacity > 0
  {
    if b.state == 0 then FREE else hash(b.slot) % capacity
  }

  /** The ideal positions of the first `capacity` nodes. */
  function Ideals<T>(hash: T -> nat, nodes: seq<Bucket<T>>, capacity: nat): (t: seq<int>)
    requires capacity <= |nodes|
    ensures |t| == capacity
  {
    seq(capacity, i requires 0 <= i < capacity => IdealOf(hash, nodes[i], capacity))
  }

  lemma IdealsUpdate<T>(hash: T -> nat, nodes: seq<Bucket<T>>, capacity: nat, i: int, b: Bucket<T>)
    requires 0 <= i < capacity <= |nodes|
    ensures Ideals(hash, nodes[i := b], capacity) == Ideals(hash, nodes, capacity)[i := IdealOf(hash, b, capacity)]
  {
  }

  lemma IdealsSame<T>(hash: T -> nat, nodes: seq<Bucket<T>>, other: seq<Bucket<T>>, capacity: nat)
    requires capacity <= |nodes| && SamePayload(nodes, other)
    ensures Ideals(hash, nodes, capacity) == Ideals(hash, other, capacity)
  {
  }

  function ProbeOf<T>(hash: T -> nat, b: Bucket<T>, capacity: nat, i: int): int
    requires 0 <= i < capacity
  {
    if b.state == 0 then -1 else Distance(hash(b.slot) % capacity, i, capacity)
  }

  /** The state byte of bucket `i` tells its probe length, exactly or by asking for a calculation. */
  predicate StateOk<T>(hash: T -> nat, b: Bucket<T>, capacity: nat, i: int)
    requires 0 <= i < capacity
  {
    b.state == StateFor(ProbeOf(hash, b, capacity, i))
  }

  ghost predicate TableOk<T>(hash: T -> nat, nodes: seq<Bucket<T>>, capacity: nat)
    requires capacity <= |nodes|
  {
    Ordered(Ideals(hash, nodes, capacity)) && forall i :: 0 <= i < capacity ==> StateOk(hash, nodes[i], capacity, i)
  }

  predicate InRange(order: seq<int>, n: nat) {
    forall k :: 0 <= k < |order| ==> 0 <= order[k] < n
  }

  /** The values in list order. */
  function Elements<T>(nodes: seq<Bucket<T>>, order: seq<int>): (r: seq<T>)
    requires InRange(order, |nodes|)
    ensures |r| == |order|
  {
    seq(|order|, k requires 0 <= k < |order| => nodes[order[k]].slot)
  }

  /**
   * The links thread `order` through exactly the used buckets (and possibly the one in hand), and
   * free buckets have no links. A bucket being filled or emptied may be exempt as `hole`.
   */
  ghost predicate Threaded<T>(nodes: seq<Bucket<T>>, capacity: nat, order: seq<int>, head: int, tail: int, hole: int) {
    && |nodes| == capacity + 1
    && LinksOf(nodes, head, tail).List(order)
    && InRange(order, |nodes|)
    && hole !in order
    && (forall i :: 0 <= i < capacity && i != hole ==> (i in order <==> nodes[i].state != 0))
    && (forall i :: 0 <= i < capacity && i != hole && nodes[i].state == 0 ==>
        nodes[i].previous == NULL && nodes[i].next == NULL)
  }

  /** The table is in Robin Hood order with exact states, and the list is threaded through it. */
  ghost predicate Represents<T>(hash: T -> nat, nodes: seq<Bucket<T>>, capacity: nat, order: seq<int>, head: int,
                                tail: int)
  {
    Threaded(nodes, capacity, order, head, tail, NULL) && TableOk(hash, nodes, capacity)
  }

  /** A value with this probe length may be placed in bucket `i`. */
  predicate MayPlace<T>(hash: T -> nat, nodes: seq<Bucket<T>>, capacity: nat, value: T, i: int)
    requires 0 <= i < capacity <= |nodes|
  {
    var t, probe := Ideals(hash, nodes, capacity), Distance(hash(value) % capacity, i, capacity);
    Probe(t, i) < probe <= Probe(t, Previous(i, capacity)) + 1
  }

  /** The table after a value was placed in bucket `i`. */
  lemma TablePlaced<T>(hash: T -> nat, nodes: seq<Bucket<T>>, capacity: nat, value: T, i: int, nodes': seq<Bucket<T>>)
    requires 0 <= i < capacity <= |nodes| == |nodes'| && TableOk(hash, nodes, capacity) &&
             MayPlace(hash, nodes, capacity, value, i)
    requires nodes'[i].slot == value && nodes'[i].state == StateFor(Distance(hash(value) % capacity, i, capacity))
    requires forall j :: 0 <= j < capacity && j != i ==>
               nodes'[j].state == nodes[j].state && nodes'[j].slot == nodes[j].slot
    ensures TableOk(hash, nodes', capacity)
  {
    var t, ideal := Ideals(hash, nodes, capacity), hash(value) % capacity;
    PlaceKeepsOrder(t, i, ideal);
    assert Ideals(hash, nodes', capacity) == t[i := ideal];
    forall j | 0 <= j < capacity
      ensures StateOk(hash, nodes'[j], capacity, j)
    {
      assert StateOk(hash, nodes[j], capacity, j);
    }
  }

  /** Links that changed only inside `changed` leave the free buckets without links. */
  lemma FreeStayUnlinked<T>(nodes: seq<Bucket<T>>, capacity: nat, changed: seq<int>, l: Links, head: int, tail: int,
                            hole: int)
    requires |nodes| == capacity + 1 && LinksOf(nodes, head, tail).SameOutside(l, changed)
    requires forall i :: 0 <= i < capacity && i != hole && nodes[i].state == 0 ==>
               i !in changed && l.previous[i] == NULL && l.next[i] == NULL
    ensures forall i :: 0 <= i < capacity && i != hole && nodes[i].state == 0 ==>
              nodes[i].previous == NULL && nodes[i].next == NULL
  {
    forall i | 0 <= i < capacity && i != hole && nodes[i].state == 0
      ensures nodes[i].previous == NULL && nodes[i].next == NULL
    {
      var l' := LinksOf(nodes, head, tail);
      assert l'.Has(i) && l'.previous[i] == nodes[i].previous && l'.next[i] == nodes[i].next;
    }
  }

  /** A new value in a free or vacated bucket goes to the end of the list. */
  lemma AppendThreaded<T>(nodes: seq<Bucket<T>>, capacity: nat, order: seq<int>, head: int, tail: int, hole: int,
                          i: int, b: Bucket<T>, nodes': seq<Bucket<T>>, head': int, tail': int)
    requires Threaded(nodes, capacity, order, head, tail, hole) && 0 <= i < capacity && i !in order &&
             (hole == i || hole == NULL)
    requires b.state != 0 && b.next == NULL && (order == [] ==> b.previous == NULL)
    requires head != NULL ==> 0 <= tail < |nodes|
    requires SamePayload(nodes', nodes[i := b]) &&
             LinksOf(nodes', head', tail') == Append(LinksOf(nodes[i := b], head, tail), i)
    ensures Threaded(nodes', capacity, order + [i], head', tail', NULL)
    ensures Elements(nodes', order + [i]) == Elements(nodes, order) + [b.slot]
  {
    var placed := nodes[i := b];
    var was, l, l' := LinksOf(nodes, head, tail), LinksOf(placed, head, tail), LinksOf(nodes', head', tail');
    LinksOfUpdate(nodes, head, tail, i, b);
    OutsideStaysList(was, l, order, i);
    AppendList(l, order, i);
    hide Links.List;
    FreeStayUnlinked(nodes', capacity, order + [i], l, head', tail', NULL);
  }

  /** Changing the links of a node outside the list does not change the list. */
  lemma OutsideStaysList(was: Links, l: Links, order: seq<int>, i: int)
    requires was.List(order) && i !in order && |l.previous| == |was.previous| && |l.next| == |was.next|
    requires l.head == was.head && l.tail == was.tail
    requires forall j :: was.Has(j) && j != i ==> l.previous[j] == was.previous[j] && l.next[j] == was.next[j]
    ensures l.List(order)
  {
    forall k: nat | k < |order|
      ensures l.Linked(order, k)
    {
      assert was.Linked(order, k) && order[k] in order;
    }
  }

  /** A value that moved from node order[k] to node `right` keeps its place in the list. */
  lemma MovedThreaded<T>(nodes: seq<Bucket<T>>, capacity: nat, order: seq<int>, head: int, tail: int, hole: int,
                         k: nat, right: int, moved: Links, nodes': seq<Bucket<T>>, head': int, tail': int, hole': int)
    requires Threaded(nodes, capacity, order, head, tail, hole) && k < |order| && right !in order &&
             0 <= right <= capacity
    requires hole == NULL || hole == right
    requires hole' == if order[k] < capacity then order[k] else NULL
    requires |nodes'| == |nodes| && nodes'[right].slot == nodes[order[k]].slot &&
             (right < capacity ==> nodes'[right].state != 0)
    requires forall i :: 0 <= i <= capacity && i != order[k] && i != right ==>
                           nodes'[i].state == nodes[i].state && nodes'[i].slot == nodes[i].slot
    requires Copied(LinksOf(nodes, head, tail), moved, order[k], right)
    requires var l' := LinksOf(nodes', head', tail');
             l'.List(order[k := right]) && l'.SameOutside(moved, Without(order, k) + [right])
    ensures Threaded(nodes', capacity, order[k := right], head', tail', hole')
    ensures Elements(nodes', order[k := right]) == Elements(nodes, order)
  {
    DistinctWithout(order, k);
    RenamedMembers(order, k, right);
    MovedElements(nodes, nodes', order, k, right);
    hide Links.List, Distinct, Elements;
    MovedUnlinked(nodes, capacity, order, head, tail, hole, k, right, moved, nodes', hole');
    hide LinksOf;
    FreeStayUnlinked(nodes', capacity, Without(order, k) + [right], moved, head', tail', hole');
    assert forall j :: 0 <= j < |order| ==> order[j] in order;
  }

  lemma MovedElements<T>(nodes: seq<Bucket<T>>, nodes': seq<Bucket<T>>, order: seq<int>, k: nat, right: int)
    requires InRange(order, |nodes|) && Distinct(order) && k < |order| && right !in order &&
             0 <= right < |nodes'| == |nodes|
    requires nodes'[right].slot == nodes[order[k]].slot
    requires forall i :: 0 <= i < |nodes| && i != order[k] && i != right ==> nodes'[i].slot == nodes[i].slot
    ensures InRange(order[k := right], |nodes'|) && Elements(nodes', order[k := right]) == Elements(nodes, order)
  {
    assert forall j :: 0 <= j < |order| ==> order[j] in order;
  }

  lemma MovedUnlinked<T>(nodes: seq<Bucket<T>>, capacity: nat, order: seq<int>, head: int, tail: int, hole: int,
                         k: nat, right: int, moved: Links, nodes': seq<Bucket<T>>, hole': int)
    requires Threaded(nodes, capacity, order, head, tail, hole) && k < |order| && 0 <= right <= capacity
    requires order[k] !in Without(order, k) && (hole == NULL || hole == right)
    requires hole' == if order[k] < capacity then order[k] else NULL
    requires |nodes'| == |nodes| && (right < capacity ==> nodes'[right].state != 0)
    requires forall i :: 0 <= i <= capacity && i != order[k] && i != right ==> nodes'[i].state == nodes[i].state
    requires Copied(LinksOf(nodes, head, tail), moved, order[k], right)
    ensures forall i :: 0 <= i < capacity && i != hole' && nodes'[i].state == 0 ==>
                          i !in Without(order, k) + [right] && moved.previous[i] == NULL && moved.next[i] == NULL
  {
    hide Links.List;
    var l := LinksOf(nodes, head, tail);
    RenamedMembers(order, k, right);
    forall i | 0 <= i < capacity && i != hole' && nodes'[i].state == 0
      ensures i !in Without(order, k) + [right] && moved.previous[i] == NULL && moved.next[i] == NULL
    {
      assert moved.Has(i) && i != right && i != order[k];
      assert l.previous[i] == nodes[i].previous && l.next[i] == nodes[i].next;
    }
  }

  lemma RenamedMembers(order: seq<int>, k: nat, right: int)
    requires k < |order| && order[k] !in Without(order, k)
    ensures forall i :: i in order[k := right] <==> i == right || (i in order && i != order[k])
    ensures forall i :: i in Without(order, k) ==> i in order
  {
    forall i | i in order && i != order[k]
      ensures i in order[k := right]
    {
      var j :| 0 <= j < |order| && order[j] == i;
      assert order[k := right][j] == i;
    }
    assert order[k := right][k] == right;
    forall i | i in order[k := right] && i != right
      ensures i in order && i != order[k]
    {
      var j :| 0 <= j < |order| && order[k := right][j] == i;
      assert order[j] == i && Without(order, k)[if j < k then j else j - 1] == i;
    }
  }

  /** Exchanging the value in hand with that of bucket order[k] leaves both in their places in the list. */
  lemma ExchangedThreaded<T>(nodes: seq<Bucket<T>>, capacity: nat, order: seq<int>, head: int, tail: int,
                             j: nat, k: nat, l: Links, nodes': seq<Bucket<T>>, head': int, tail': int)
    requires Threaded(nodes, capacity, order, head, tail, NULL) && j < |order| && k < |order| &&
             order[j] == capacity && j != k
    requires |nodes'| == |nodes| && nodes'[capacity].slot == nodes[order[k]].slot &&
             nodes'[order[k]].slot == nodes[capacity].slot
    requires nodes'[order[k]].state != 0
    requires forall i :: 0 <= i < capacity && i != order[k] ==>
               nodes'[i].state == nodes[i].state && nodes'[i].slot == nodes[i].slot
    requires Exchanged(LinksOf(nodes, head, tail), l, capacity, order[k])
    requires Swapped(l, LinksOf(nodes', head', tail'), capacity, order[k])
    requires LinksOf(nodes', head', tail').List(order[j := order[k]][k := capacity])
    ensures Threaded(nodes', capacity, order[j := order[k]][k := capacity], head', tail', NULL)
    ensures Elements(nodes', order[j := order[k]][k := capacity]) == Elements(nodes, order)
  {
    var order' := order[j := order[k]][k := capacity];
    SwappedMembers(order, j, k);
    ExchangedElements(nodes, nodes', order, j, k);
    ExchangedUnlinked(nodes, capacity, order, head, tail, j, k, l, nodes', head', tail');
    hide Links.List, Elements, LinksOf;
    assert InRange(order', |nodes'|);
  }

  lemma SwappedMembers(order: seq<int>, j: nat, k: nat)
    requires j < |order| && k < |order| && j != k
    ensures forall i :: i in order[j := order[k]][k := order[j]] <==> i in order
  {
    var order' := order[j := order[k]][k := order[j]];
    forall i | i in order
      ensures i in order'
    {
      var m :| 0 <= m < |order| && order[m] == i;
      assert order'[if m == j then k else if m == k then j else m] == i;
    }
  }

  lemma ExchangedElements<T>(nodes: seq<Bucket<T>>, nodes': seq<Bucket<T>>, order: seq<int>, j: nat, k: nat)
    requires InRange(order, |nodes|) && Distinct(order) && j < |order| && k < |order| && j != k && |nodes'| == |nodes|
    requires nodes'[order[j]].slot == nodes[order[k]].slot && nodes'[order[k]].slot == nodes[order[j]].slot
    requires forall i :: 0 <= i < |nodes| && i != order[j] && i != order[k] ==> nodes'[i].slot == nodes[i].slot
    ensures InRange(order[j := order[k]][k := order[j]], |nodes'|)
    ensures Elements(nodes', order[j := order[k]][k := order[j]]) == Elements(nodes, order)
  {
  }

  lemma ExchangedUnlinked<T>(nodes: seq<Bucket<T>>, capacity: nat, order: seq<int>, head: int, tail: int,
                             j: nat, k: nat, l: Links, nodes': seq<Bucket<T>>, head': int, tail': int)
    requires Threaded(nodes, capacity, order, head, tail, NULL) && j < |order| && k < |order| &&
             order[j] == capacity && j != k
    requires |nodes'| == |nodes| && nodes'[order[k]].state != 0
    requires forall i :: 0 <= i < capacity && i != order[k] ==> nodes'[i].state == nodes[i].state
    requires Exchanged(LinksOf(nodes, head, tail), l, capacity, order[k])
    requires Swapped(l, LinksOf(nodes', head', tail'), capacity, order[k])
    ensures forall i :: 0 <= i < capacity && nodes'[i].state == 0 ==>
              nodes'[i].previous == NULL && nodes'[i].next == NULL
  {
    var was, l' := LinksOf(nodes, head, tail), LinksOf(nodes', head', tail');
    Neighbours(was, order, j, k);
    Neighbours(was, order, k, j);
    hide Links.List;
    forall i | 0 <= i < capacity && nodes'[i].state == 0
      ensures nodes'[i].previous == NULL && nodes'[i].next == NULL
    {
      assert i !in order;
      assert was.Has(i) && was.previous[i] == nodes[i].previous && was.next[i] == nodes[i].next;
      assert l'.previous[i] == nodes'[i].previous && l'.next[i] == nodes'[i].next;
    }
  }

  /** Unlinking a bucket takes its value out of the list. */
  lemma DetachThreaded<T>(nodes: seq<Bucket<T>>, capacity: nat, order: seq<int>, head: int, tail: int,
                          k: nat, nodes': seq<Bucket<T>>, head': int, tail': int)
    requires Threaded(nodes, capacity, order, head, tail, NULL) && k < |order| && order[k] < capacity
    requires var l := LinksOf(nodes, head, tail);
             l.HasOrNull(l.previous[order[k]]) && l.HasOrNull(l.next[order[k]]) &&
               LinksOf(nodes', head', tail') == Detach(l, order[k])
    requires SamePayload(nodes', nodes)
    ensures Threaded(nodes', capacity, Without(order, k), head', tail', order[k])
    ensures nodes'[order[k]].previous == NULL && nodes'[order[k]].next == NULL
    ensures Elements(nodes', Without(order, k)) == Without(Elements(nodes, order), k)
  {
    hide Links.List, Distinct, Detach, Elements;
    var l, l', b := LinksOf(nodes, head, tail), LinksOf(nodes', head', tail'), order[k];
    DetachList(l, order, k);
    DistinctList(l, order);
    DistinctWithout(order, k);
    WithoutMembers(order, k);
    WithoutElements(nodes, nodes', order, k);
    assert l'.previous[b] == nodes'[b].previous && l'.next[b] == nodes'[b].next;
    FreeStayUnlinked(nodes', capacity, order, l, head', tail', b);
  }

  lemma DistinctList(l: Links, order: seq<int>)
    requires l.List(order)
    ensures Distinct(order)
  {
  }

  lemma WithoutElements<T>(nodes: seq<Bucket<T>>, nodes': seq<Bucket<T>>, order: seq<int>, k: nat)
    requires InRange(order, |nodes|) && SamePayload(nodes', nodes) && k < |order|
    ensures InRange(Without(order, k), |nodes'|) &&
            Elements(nodes', Without(order, k)) == Without(Elements(nodes, order), k)
  {
  }

  lemma WithoutMembers(order: seq<int>, k: nat)
    requires k < |order| && order[k] !in Without(order, k)
    ensures forall i :: i in Without(order, k) <==> i in order && i != order[k]
  {
    forall i | i in order && i != order[k]
      ensures i in Without(order, k)
    {
      var j :| 0 <= j < |order| && order[j] == i;
      assert Without(order, k)[if j < k then j else j - 1] == i;
    }
  }

  /** Marking an unlinked hole as free completes the threading. */
  lemma ClosedThreaded<T>(nodes: seq<Bucket<T>>, capacity: nat, order: seq<int>, head: int, tail: int, hole: int)
    requires Threaded(nodes, capacity, order, head, tail, hole) && 0 <= hole < capacity
    requires nodes[hole].previous == NULL && nodes[hole].next == NULL
    ensures Threaded(nodes[hole := nodes[hole].(state := 0)], capacity, order, head, tail, NULL)
    ensures Elements(nodes[hole := nodes[hole].(state := 0)], order) == Elements(nodes, order)
  {
    LinksOfUpdate(nodes, head, tail, hole, nodes[hole].(state := 0));
    var l := LinksOf(nodes, head, tail);
    assert l.SetPrevious(hole, NULL).SetNext(hole, NULL) == l;
    hide Links.List;
    assert forall j :: 0 <= j < |order| ==> order[j] in order;
  }

  // ----- A free bucket always exists -----

  lemma {:induction false} Pigeonhole(order: seq<int>, n: nat)
    requires forall i :: 0 <= i < n ==> i in order
    ensures |order| >= n
  {
    if n > 0 {
      assert n - 1 in order;
      var k :| 0 <= k < |order| && order[k] == n - 1;
      var rest := Without(order, k);
      forall i | 0 <= i < n - 1
        ensures i in rest
      {
        assert i in order;
        var j :| 0 <= j < |order| && order[j] == i;
        assert rest[if j < k then j else j - 1] == i;
      }
      Pigeonhole(rest, n - 1);
    }
  }

  lemma FreeBucketExists<T>(nodes: seq<Bucket<T>>, capacity: nat, order: seq<int>, head: int, tail: int)
    returns (f: int)
    requires Threaded(nodes, capacity, order, head, tail, NULL)
    requires |order| < capacity || (capacity in order && |order| == capacity)
    ensures 0 <= f < capacity && nodes[f].state == 0
  {
    if forall i :: 0 <= i < capacity ==> nodes[i].state != 0 {
      Pigeonhole(order, if capacity in order then capacity + 1 else capacity);
      assert false;
    }
    f :| 0 <= f < capacity && nodes[f].state == 0;
  }

  // ----- The table -----

  datatype SetResult = InsertedNewEntry | ReplacedExistingEntry | KeptExistingEntry
  datatype ExistingEntryBehavior = Keep | Replace

  /** Equality is an equivalence, and equal values have equal hashes. */
  ghost predicate LawfulTraits<T(!new)>(hash: T -> nat, equals: (T, T) -> bool) {
    && (forall x :: equals(x, x))
    && (forall x, y :: equals(x, y) ==> equals(y, x) && hash(x) == hash(y))
    && (forall x, y, z :: equals(x, y) && equals(y, z) ==> equals(x, z))
  }

  ghost predicate NoDuplicates<T>(equals: (T, T) -> bool, s: seq<T>) {
    forall j, k :: 0 <= j < k < |s| ==> !equals(s[j], s[k])
  }

  /** No value of `s` equals `value`. */
  ghost predicate Missing<T>(equals: (T, T) -> bool, s: seq<T>, value: T) {
    forall k :: 0 <= k < |s| ==> !equals(s[k], value)
  }

  /** A table between operations: nothing in hand, no value stored twice. */
  ghost predicate Settled<T>(hash: T -> nat, equals: (T, T) -> bool, nodes: seq<Bucket<T>>, capacity: nat,
                             order: seq<int>, head: int, tail: int)
  {
    && Represents(hash, nodes, capacity, order, head, tail)
    && capacity !in order
    && NoDuplicates(equals, Elements(nodes, order))
  }

  /** A table in the middle of an insertion: one displaced value is in hand. */
  ghost predicate Carrying<T>(hash: T -> nat, equals: (T, T) -> bool, nodes: seq<Bucket<T>>, capacity: nat,
                              order: seq<int>, head: int, tail: int)
  {
    && Represents(hash, nodes, capacity, order, head, tail)
    && capacity in order
    && NoDuplicates(equals, Elements(nodes, order))
  }

  // ----- Specification: what the operations mean for the contents in insertion order -----

  /** Where in `s` a value equal to `value` is. */
  ghost function IndexOf<T>(equals: (T, T) -> bool, s: seq<T>, value: T): (k: nat)
    requires !Missing(equals, s, value)
    ensures k < |s| && equals(s[k], value)
  {
    var k :| 0 <= k < |s| && equals(s[k], value);
    k
  }

  lemma IndexOfUnique<T(!new)>(hash: T -> nat, equals: (T, T) -> bool, s: seq<T>, value: T, k: nat)
    requires LawfulTraits(hash, equals) && NoDuplicates(equals, s) && k < |s| && equals(s[k], value)
    ensures !Missing(equals, s, value) && IndexOf(equals, s, value) == k
  {
    assert !Missing(equals, s, value);
    var j := IndexOf(equals, s, value);
    assert equals(s[j], s[k]) && equals(s[k], s[j]);
  }

  /** A new value goes to the end; an equal one is replaced where it stands, or kept. */
  ghost function AfterSet<T>(equals: (T, T) -> bool, s: seq<T>, value: T, behavior: ExistingEntryBehavior): seq<T> {
    if Missing(equals, s, value) then s + [value] else if behavior.Keep? then s
      else s[IndexOf(equals, s, value) := value]
  }

  ghost function OutcomeOfSet<T>(equals: (T, T) -> bool, s: seq<T>, value: T,
                                 behavior: ExistingEntryBehavior): SetResult
  {
    if Missing(equals, s, value) then InsertedNewEntry else if behavior.Keep? then KeptExistingEntry
      else ReplacedExistingEntry
  }

  ghost function AfterRemove<T>(equals: (T, T) -> bool, s: seq<T>, value: T): seq<T> {
    if Missing(equals, s, value) then s else Without(s, IndexOf(equals, s, value))
  }

  /** The values that do not match, in order. */
  function NotMatching<T>(matches: T -> bool, s: seq<T>): seq<T> {
    if s == [] then [] else (if matches(s[0]) then [] else [s[0]]) + NotMatching(matches, s[1..])
  }

  lemma {:induction false} NotMatchingConcat<T>(matches: T -> bool, a: seq<T>, b: seq<T>)
    ensures NotMatching(matches, a + b) == NotMatching(matches, a) + NotMatching(matches, b)
  {
    hide NotMatching;
    if a == [] {
      NotMatchingNone(matches);
      assert a + b == b;
    } else {
      NotMatchingConcat(matches, a[1..], b);
      ConcatRest(a, b);
      NotMatchingStep(matches, a);
      NotMatchingStep(matches, a + b);
      Associative(if matches(a[0]) then [] else [a[0]], NotMatching(matches, a[1..]), NotMatching(matches, b));
    }
  }

  lemma NotMatchingNone<T>(matches: T -> bool)
    ensures NotMatching(matches, []) == []
  {
  }

  lemma NotMatchingStep<T>(matches: T -> bool, s: seq<T>)
    requires s != []
    ensures NotMatching(matches, s) == (if matches(s[0]) then [] else [s[0]]) + NotMatching(matches, s[1..])
  {
  }

  lemma NotMatchingWithout<T>(matches: T -> bool, s: seq<T>, k: nat)
    requires k < |s| && matches(s[k])
    ensures NotMatching(matches, Without(s, k)) == NotMatching(matches, s)
  {
    var rest := s[k..];
    assert s == s[..k] + rest && rest[1..] == s[k + 1..];
    NotMatchingConcat(matches, s[..k], rest);
    NotMatchingConcat(matches, s[..k], s[k + 1..]);
  }

  lemma {:induction false} NotMatchingAll<T>(matches: T -> bool, s: seq<T>)
    requires forall k :: 0 <= k < |s| ==> !matches(s[k])
    ensures NotMatching(matches, s) == s
  {
    if s != [] {
      NotMatchingAll(matches, s[1..]);
    }
  }

  /** The public operations, with what the allocator adds to each request for memory and whether it has any. */
  datatype Operation<!T> =
    | Set(value: T, behavior: ExistingEntryBehavior, slack: nat, outOfMemory: bool)
    | Contains(value: T)
    | Remove(value: T)
    | RemoveAllMatching(matches: T -> bool)
    | EnsureCapacity(capacity: nat, slack: nat, outOfMemory: bool)
    | TakeFirst
    | TakeLast

  datatype Response<+T> = Stored(result: SetResult) | NoMemory | Said(yes: bool) | Took(value: T) | Nothing

  const GROW_CAPACITY_AT_LEAST: nat := 8
  const GROW_AT_LOAD_FACTOR_PERCENT: nat := 80
  const GROW_CAPACITY_INCREASE_PERCENT: nat := 60

  /** The number of buckets after a rehash. */
  function GrownCapacity(capacity: nat, requested: nat, slack: nat): nat {
    Max(requested, capacity + GROW_CAPACITY_AT_LEAST) + slack
  }

  /** One value more would reach the load factor. */
  predicate Crowded(size: nat, capacity: nat) {
    (size + 1) * 100 >= capacity * GROW_AT_LOAD_FACTOR_PERCENT
  }

  /** What a user knows of a table: its values in insertion order, and the number of its buckets. */
  datatype Model<T> = Model(contents: seq<T>, capacity: nat)

  /** What an operation does, and what it responds. */
  ghost function After<T>(equals: (T, T) -> bool, m: Model<T>, op: Operation<T>): (Model<T>, Response<T>) {
    var s, capacity := m.contents, m.capacity;
    match op
    case Set(value, behavior, slack, outOfMemory) =>
      if Crowded(|s|, capacity) && outOfMemory then (m, NoMemory) else
      var grown := GrownCapacity(capacity, capacity * (100 + GROW_CAPACITY_INCREASE_PERCENT) / 100, slack);
      (Model(AfterSet(equals, s, value, behavior), if Crowded(|s|, capacity) then grown else capacity),
       Stored(OutcomeOfSet(equals, s, value, behavior)))
    case Contains(value) => (m, Said(!Missing(equals, s, value)))
    case Remove(value) => (Model(AfterRemove(equals, s, value), capacity), Said(!Missing(equals, s, value)))
    case RemoveAllMatching(matches) =>
      var rest := NotMatching(matches, s); (Model(rest, capacity), Said(|rest| < |s|))
    case EnsureCapacity(values, slack, outOfMemory) =>
      var required := values * 100 / GROW_AT_LOAD_FACTOR_PERCENT + 1;
      if required <= capacity then (m, Said(true)) else if outOfMemory then (m, NoMemory) else
      (Model(s, GrownCapacity(capacity, required, slack)), Said(true))
    case TakeFirst => if s == [] then (m, Nothing) else (Model(s[1..], capacity), Took(s[0]))
    case TakeLast => if s == [] then (m, Nothing) else (Model(s[..|s| - 1], capacity), Took(s[|s| - 1]))
  }

  ghost function AfterAll<T>(equals: (T, T) -> bool, ops: seq<Operation<T>>): (Model<T>, seq<Response<T>>) {
    if ops == [] then (Model([], 0), []) else
    var (before, responses) := AfterAll(equals, ops[..|ops| - 1]);
    var (after, response) := After(equals, before, ops[|ops| - 1]);
    (after, responses + [response])
  }

  datatype ErrorOr<+R> = Success(value: R) | OutOfMemory

  class HashTable<T(0, !new)> {
    const hash: T -> nat
    const equals: (T, T) -> bool
    var buckets: array<Bucket<T>>
    var size: nat
    var head: int
    var tail: int
    /** bucket_to_move: the bucket an insertion has displaced; its node index is the capacity. */
    var hand: Bucket<T>
    ghost var order: seq<int>

    function Nodes(): (nodes: seq<Bucket<T>>)
      reads this, buckets
      ensures |nodes| == buckets.Length + 1
    {
      buckets[..] + [hand]
    }

    function AllLinks(): (l: Links)
      reads this, buckets
      ensures |l.previous| == |l.next| == buckets.Length + 1 && l.head == head && l.tail == tail
    {
      LinksOf(Nodes(), head, tail)
    }

    // ----- Links -----

    method SetNext(i: int, x: int)
      requires 0 <= i <= buckets.Length
      modifies this`hand, buckets
      ensures AllLinks() == old(AllLinks()).SetNext(i, x) && SamePayload(Nodes(), old(Nodes()))
    {
      ghost var was := Nodes();
      if i == buckets.Length {
        hand := hand.(next := x);
      } else {
        buckets[i] := buckets[i].(next := x);
      }
      assert Nodes() == was[i := was[i].(next := x)];
      LinksOfUpdate(was, head, tail, i, was[i].(next := x));
      assert LinksOf(was, head, tail).SetPrevious(i, was[i].previous) == LinksOf(was, head, tail);
    }

    method SetPrevious(i: int, x: int)
      requires 0 <= i <= buckets.Length
      modifies this`hand, buckets
      ensures AllLinks() == old(AllLinks()).SetPrevious(i, x) && SamePayload(Nodes(), old(Nodes()))
    {
      ghost var was := Nodes();
      if i == buckets.Length {
        hand := hand.(previous := x);
      } else {
        buckets[i] := buckets[i].(previous := x);
      }
      assert Nodes() == was[i := was[i].(previous := x)];
      LinksOfUpdate(was, head, tail, i, was[i].(previous := x));
      var l := LinksOf(was, head, tail).SetPrevious(i, x);
      assert l.SetNext(i, was[i].next) == l;
    }

    function Node(i: int): (b: Bucket<T>)
      requires 0 <= i <= buckets.Length
      reads this, buckets
      ensures b == Nodes()[i] && b.previous == AllLinks().previous[i] && b.next == AllLinks().next[i]
    {
      if i == buckets.Length then hand else buckets[i]
    }

    method UpdateCollectionForNewBucket(b: int)
      requires 0 <= b < buckets.Length && (head != NULL ==> AllLinks().Has(tail))
      modifies this`head, this`tail, this`hand, buckets
      ensures AllLinks() == Append(old(AllLinks()), b) && SamePayload(Nodes(), old(Nodes()))
    {
      if head == NULL {
        head := b;
      } else {
        SetPrevious(b, tail);
        SetNext(tail, b);
      }
      tail := b;
    }

    /** The neighbour before `left` points at it; a link to itself means the other node. */
    method LinkLeftBackward(left: int, right: int)
      requires 0 <= left <= buckets.Length && 0 <= right <= buckets.Length &&
               AllLinks().HasOrNull(AllLinks().previous[left])
      modifies this`hand, buckets
      ensures AllLinks() == PointBackAtLeft(old(AllLinks()), left, right) && SamePayload(Nodes(), old(Nodes()))
    {
      hide LinksOf;
      if Node(left).previous != NULL {
        if Node(left).previous == left {
          SetPrevious(left, right);
        }
        SetNext(Node(left).previous, left);
      }
    }

    method LinkLeftForward(left: int, right: int)
      requires 0 <= left <= buckets.Length && 0 <= right <= buckets.Length &&
               AllLinks().HasOrNull(AllLinks().next[left])
      modifies this`hand, buckets
      ensures AllLinks() == PointForwardAtLeft(old(AllLinks()), left, right) && SamePayload(Nodes(), old(Nodes()))
    {
      hide LinksOf;
      if Node(left).next != NULL {
        if Node(left).next == left {
          SetNext(left, right);
        }
        SetPrevious(Node(left).next, left);
      }
    }

    method LinkRight(left: int, right: int)
      requires 0 <= left <= buckets.Length && 0 <= right <= buckets.Length
      requires AllLinks().HasOrNull(AllLinks().previous[right]) && AllLinks().HasOrNull(AllLinks().next[right])
      modifies this`hand, buckets
      ensures AllLinks() == PointAtRight(old(AllLinks()), left, right) && SamePayload(Nodes(), old(Nodes()))
    {
      hide LinksOf;
      if Node(right).previous != NULL && Node(right).previous != left {
        SetNext(Node(right).previous, right);
      }
      if Node(right).next != NULL && Node(right).next != left {
        SetPrevious(Node(right).next, right);
      }
    }

    method UpdateCollectionForSwappedBuckets(left: int, right: int)
      requires 0 <= left <= buckets.Length && 0 <= right <= buckets.Length
      requires var l := AllLinks();
               && l.HasOrNull(l.previous[left]) && l.HasOrNull(l.next[left])
               && l.HasOrNull(l.previous[right]) && l.HasOrNull(l.next[right])
      modifies this`head, this`tail, this`hand, buckets
      ensures AllLinks() == SwapLinks(old(AllLinks()), left, right) && SamePayload(Nodes(), old(Nodes()))
    {
      hide LinksOf, PointBackAtLeft, PointForwardAtLeft, PointAtRight, Exchange;
      ghost var l := AllLinks();
      SetHead(Exchange(head, left, right));
      SetTail(Exchange(tail, left, right));
      ghost var l0 := l.(head := Exchange(l.head, left, right), tail := Exchange(l.tail, left, right));
      assert AllLinks() == l0;
      LinkLeftBackward(left, right);
      BackKeepsLinks(l0, left, right);
      LinkLeftForward(left, right);
      ForwardKeepsLinks(PointBackAtLeft(l0, left, right), left, right);
      LinkRight(left, right);
    }
  
    // ----- State -----

    /** Everything but the load factor: what an insertion needs and keeps. */
    ghost predicate Shape()
      reads this, buckets
    {
      size == |order| && InRange(order, buckets.Length + 1) &&
        Settled(hash, equals, Nodes(), buckets.Length, order, head, tail)
    }

    /** The stored values in first-insertion order. */
    ghost function Contents(): seq<T>
      requires Shape()
      reads this, buckets
    {
      Elements(Nodes(), order)
    }

    function Table(): (t: seq<int>)
      reads this, buckets
      ensures |t| == buckets.Length
    {
      Ideals(hash, Nodes(), buckets.Length)
    }

    /** used_bucket_probe_length: read from the state byte, or calculated once the byte is saturated. */
    method UsedBucketProbeLength(i: int) returns (probe: nat)
      requires 0 <= i < buckets.Length && buckets[i].state != 0 && StateOk(hash, buckets[i], buckets.Length, i)
      ensures probe == Probe(Table(), i) == ProbeOf(hash, buckets[i], buckets.Length, i)
    {
      assert Nodes()[i] == buckets[i];
      if buckets[i].state == CALCULATE_LENGTH {
        var ideal := hash(buckets[i].slot) % buckets.Length;
        if i < ideal {
          return buckets.Length + i - ideal;
        }
        return i - ideal;
      }
      return buckets[i].state - 1;
    }

    /** lookup_with_hash: the bucket holding a value equal to `value`, or NULL. */
    method Find(value: T) returns (r: int)
      requires Shape() && LawfulTraits(hash, equals) && (size == 0 || size < buckets.Length)
      ensures r == NULL <==> Missing(equals, Contents(), value)
      ensures r != NULL ==> 0 <= r < buckets.Length && buckets[r].state != 0 && equals(buckets[r].slot, value)
    {
      if size == 0 {
        return NULL;
      }
      hide Settled, Elements, Missing, LawfulTraits, Passed;
      ghost var nodes, capacity := Nodes(), buckets.Length;
      ghost var f := SettledFree(hash, equals, nodes, capacity, order, head, tail);
      var ideal := hash(value) % buckets.Length;
      var i := ideal;
      ghost var probe := 0;
      PassedNone(equals, nodes, capacity, ideal, value);
      while true
        invariant 0 <= i < capacity && probe == Distance(ideal, i, capacity) &&
                  Passed(equals, nodes, capacity, ideal, value, probe)
        decreases capacity - probe
      {
        if buckets[i].state == 0 {
          AbsentBeyond(hash, equals, nodes, capacity, order, head, tail, value, i);
          return NULL;
        }
        if equals(buckets[i].slot, value) {
          Present(hash, equals, nodes, capacity, order, head, tail, value, i);
          return i;
        }
        PassedStep(equals, nodes, capacity, ideal, value, i, f);
        i := i + 1;
        if i == buckets.Length {
          i := 0;
        }
        probe := probe + 1;
      }
    }

    // ----- Insertion -----

    /** Probes for `value`: the bucket that holds an equal one, or the first one that may take it. */
    method FindPlace(value: T) returns (i: int, probe: nat, same: bool)
      requires Shape() && LawfulTraits(hash, equals) && size < buckets.Length
      ensures 0 <= i < buckets.Length
      ensures same ==> buckets[i].state != 0 && equals(buckets[i].slot, value)
      ensures !same ==> Missing(equals, Contents(), value) && MayPlace(hash, Nodes(), buckets.Length, value, i)
      ensures !same ==> probe == Distance(hash(value) % buckets.Length, i, buckets.Length)
    {
      hide Settled, Elements, Missing, LawfulTraits, Passed, Ideals, Distance;
      ghost var nodes, capacity := Nodes(), buckets.Length;
      ghost var f := SettledFree(hash, equals, nodes, capacity, order, head, tail);
      ghost var t := Table();
      var ideal := hash(value) % buckets.Length;
      i, probe := ideal, 0;
      PassedNone(equals, nodes, capacity, ideal, value);
      while true
        invariant 0 <= i < capacity && probe == Distance(ideal, i, capacity) &&
                  Passed(equals, nodes, capacity, ideal, value, probe)
        invariant probe == 0 || Probe(t, Previous(i, capacity)) >= probe - 1
        decreases capacity - probe
      {
        SettledAt(hash, equals, nodes, capacity, order, head, tail, i);
        if buckets[i].state == 0 {
          AbsentBeyond(hash, equals, nodes, capacity, order, head, tail, value, i);
          return i, probe, false;
        }
        if equals(buckets[i].slot, value) {
          return i, probe, true;
        }
        var target := UsedBucketProbeLength(i);
        if probe > target {
          AbsentBeyond(hash, equals, nodes, capacity, order, head, tail, value, i);
          return i, probe, false;
        }
        PassedStep(equals, nodes, capacity, ideal, value, i, f);
        i := i + 1;
        if i == buckets.Length {
          i := 0;
        }
        probe := probe + 1;
      }
    }

    /** The first free bucket on the way takes the new value. */
    method InsertIntoFree(value: T, i: int, probe: nat)
      requires Shape() && 0 <= i < buckets.Length && buckets[i].state == 0
      requires probe == Distance(hash(value) % buckets.Length, i, buckets.Length) &&
               MayPlace(hash, Nodes(), buckets.Length, value, i)
      requires Missing(equals, Contents(), value)
      modifies this, buckets
      ensures Shape() && buckets == old(buckets) && Contents() == old(Contents()) + [value]
    {
      hide Settled, MayPlace, Elements, LinksOf, Missing;
      ghost var was, capacity := Nodes(), buckets.Length;
      EndsExist(hash, equals, was, capacity, order, head, tail);
      ghost var b := buckets[i].(slot := value, state := StateFor(probe));
      buckets[i] := buckets[i].(slot := value, state := StateFor(probe));
      assert Nodes() == was[i := b];
      UpdateCollectionForNewBucket(i);
      size := size + 1;
      order := order + [i];
      Inserted(hash, equals, was, capacity, old(order), old(head), old(tail), value, i, b, Nodes(), head, tail);
    }

    /** A value in hand, displaced by the insertion in progress. */
    ghost predicate InHand()
      reads this, buckets
    {
      size == |order| && InRange(order, buckets.Length + 1) &&
        Carrying(hash, equals, Nodes(), buckets.Length, order, head, tail)
    }

    /** Copies a bucket into the hand, which takes its place in the list. */
    method Lift(i: int, ghost k: nat)
      requires 0 <= i < buckets.Length && k < |order| && order[k] == i && buckets.Length !in order
      requires Threaded(Nodes(), buckets.Length, order, head, tail, NULL)
      modifies this, buckets
      ensures buckets == old(buckets) && size == old(size) && order == old(order)[k := buckets.Length]
      ensures Threaded(Nodes(), buckets.Length, order, head, tail, i)
      ensures Elements(Nodes(), order) == Elements(old(Nodes()), old(order))
      ensures SamePayload(Nodes(), old(Nodes())[buckets.Length := old(buckets[i])])
    {
      hide Threaded, Elements, LinksOf, SwapLinks;
      ghost var was, capacity := Nodes(), buckets.Length;
      LiftedLinks(was, capacity, order, head, tail, k);
      hand := buckets[i];
      assert Nodes() == was[capacity := was[i]];
      UpdateCollectionForSwappedBuckets(i, buckets.Length);
      LiftedThreaded(was, capacity, order, old(head), old(tail), k, Nodes(), head, tail);
      order := order[k := capacity];
    }

    /** Takes the bucket's value into the hand and puts the new value there. */
    method Steal(value: T, i: int, probe: nat)
      requires Shape() && 0 <= i < buckets.Length && buckets[i].state != 0
      requires probe == Distance(hash(value) % buckets.Length, i, buckets.Length) &&
               MayPlace(hash, Nodes(), buckets.Length, value, i)
      requires Missing(equals, Contents(), value)
      modifies this, buckets
      ensures InHand() && buckets == old(buckets) && Elements(Nodes(), order) == old(Contents()) + [value]
      ensures |order| == old(|order|) + 1
      ensures Table() == old(Table())[i := hash(value) % buckets.Length] &&
              Nodes()[buckets.Length].slot == old(Nodes())[i].slot
    {
      ghost var was, order0, head0, tail0 := Nodes(), order, head, tail;
      ghost var k := Listed(hash, equals, was, buckets.Length, order, head, tail, i);
      assert InRange(order0, |was|) && Threaded(was, buckets.Length, order, head, tail, NULL) &&
             buckets.Length !in order;
      hide Settled, Threaded, MayPlace, Elements, LinksOf, Missing, Carrying, Ideals, InRange;
      Lift(i, k);
      Fill(value, i, probe, was, order0, head0, tail0, k);
    }

    /** Puts a new value into a bucket whose old value was lifted out. */
    method Fill(value: T, i: int, probe: nat, ghost was: seq<Bucket<T>>, ghost order0: seq<int>, ghost head0: int,
                ghost tail0: int, ghost k: nat)
      requires Settled(hash, equals, was, buckets.Length, order0, head0, tail0) && InRange(order0, |was|) &&
               |was| == buckets.Length + 1
      requires k < |order0| && order0[k] == i && 0 <= i < buckets.Length && order == order0[k := buckets.Length] &&
               size == |order|
      requires Threaded(Nodes(), buckets.Length, order, head, tail, i) &&
               Elements(Nodes(), order) == Elements(was, order0)
      requires SamePayload(Nodes(), was[buckets.Length := was[i]])
      requires probe == Distance(hash(value) % buckets.Length, i, buckets.Length) &&
               MayPlace(hash, was, buckets.Length, value, i)
      requires Missing(equals, Elements(was, order0), value)
      modifies this, buckets
      ensures InHand() && buckets == old(buckets) && order == old(order) + [i]
      ensures Elements(Nodes(), order) == Elements(was, order0) + [value]
      ensures Table() == Ideals(hash, was, buckets.Length)[i := hash(value) % buckets.Length]
      ensures Nodes()[buckets.Length].slot == was[i].slot
    {
      hide Settled, Threaded, MayPlace, Elements, LinksOf, Missing, Carrying, Ideals, InRange;
      ghost var capacity := buckets.Length;
      ghost var nodes1, head1, tail1 := Nodes(), head, tail;
      ghost var b := nodes1[i].(slot := value, state := StateFor(probe), next := NULL);
      buckets[i] := buckets[i].(slot := value, state := StateFor(probe), next := NULL);
      assert Nodes() == nodes1[i := b];
      EndsExistBut(nodes1, capacity, order, head1, tail1, i);
      UpdateCollectionForNewBucket(i);
      Stolen(hash, equals, was, capacity, order0, head0, tail0, value, k, nodes1, head1, tail1, b, Nodes(), head, tail);
      TableChanged(hash, was, capacity, i, value, Nodes());
      size := size + 1;
      order := order + [i];
    }

    /** Puts the value in hand into a free bucket. */
    method Drop(i: int, probe: nat)
      requires InHand() && 0 <= i < buckets.Length && buckets[i].state == 0
      requires MayPlace(hash, Nodes(), buckets.Length, hand.slot, i) &&
               probe == Distance(hash(hand.slot) % buckets.Length, i, buckets.Length)
      modifies this, buckets
      ensures Shape() && buckets == old(buckets) && Contents() == old(Elements(Nodes(), order))
    {
      hide Settled, Carrying, MayPlace, Elements, LinksOf, SwapLinks, InRange;
      ghost var was, capacity, head0, tail0 := Nodes(), buckets.Length, head, tail;
      ghost var b := hand.(state := StateFor(probe));
      ghost var k := ReadyToDrop(hash, equals, was, capacity, order, head, tail, i, b.state);
      buckets[i] := hand;
      buckets[i] := buckets[i].(state := StateFor(probe));
      assert Nodes() == was[i := b];
      UpdateCollectionForSwappedBuckets(buckets.Length, i);
      Dropped(hash, equals, was, capacity, order, head0, tail0, k, i, b, Nodes(), head, tail);
      order := order[k := i];
    }

    /** Exchanges the value in hand with that of a richer bucket. */
    method Trade(i: int, probe: nat)
      requires InHand() && 0 <= i < buckets.Length && buckets[i].state != 0
      requires MayPlace(hash, Nodes(), buckets.Length, hand.slot, i) &&
               probe == Distance(hash(hand.slot) % buckets.Length, i, buckets.Length)
      modifies this, buckets
      ensures InHand() && buckets == old(buckets) && Elements(Nodes(), order) == old(Elements(Nodes(), order)) &&
              |order| == old(|order|)
      ensures Table() == old(Table())[i := hash(old(hand.slot)) % buckets.Length] &&
              Nodes()[buckets.Length].slot == old(Nodes())[i].slot
    {
      hide Carrying, MayPlace, Elements, LinksOf, SwapLinks, Ideals, InRange;
      ghost var was, capacity, head0, tail0 := Nodes(), buckets.Length, head, tail;
      ghost var b := hand.(state := StateFor(probe));
      ghost var j, k := ReadyToTrade(hash, equals, was, capacity, order, head, tail, i, b.state);
      hand, buckets[i] := buckets[i], hand;
      buckets[i] := buckets[i].(state := StateFor(probe));
      assert Nodes() == was[capacity := was[i]][i := b];
      UpdateCollectionForSwappedBuckets(buckets.Length, i);
      Traded(hash, equals, was, capacity, order, head0, tail0, j, k, b, Nodes(), head, tail);
      TableChanged(hash, was, capacity, i, was[capacity].slot, Nodes());
      order := order[j := i][k := capacity];
    }

    /** Walks on with the value in hand, trading with richer buckets, until a free bucket takes it. */
    method Resettle(start: int, startProbe: nat)
      requires InHand() && |order| <= buckets.Length && 0 <= start < buckets.Length
      requires startProbe == Distance(hash(hand.slot) % buckets.Length, start, buckets.Length) <= Probe(Table(), start)
      modifies this, buckets
      ensures Shape() && buckets == old(buckets) && Contents() == old(Elements(Nodes(), order))
    {
      hide Carrying, Elements, Ideals, MayPlace, InRange;
      ghost var all, capacity := Elements(Nodes(), order), buckets.Length;
      ghost var f := CarryingFree(hash, equals, Nodes(), capacity, order, head, tail);
      var i, probe := start, startProbe;
      while true
        invariant InHand() && buckets == old(buckets) && Elements(Nodes(), order) == all && |order| <= capacity
        invariant 0 <= i < capacity && 0 <= f < capacity && Table()[f] == FREE
        invariant probe == Distance(hash(hand.slot) % capacity, i, capacity) <= Probe(Table(), i)
        decreases Distance(i, f, capacity)
      {
        HandMovesOn(hash, equals, Nodes(), capacity, order, head, tail, i, f);
        i := i + 1;
        if i == buckets.Length {
          i := 0;
        }
        probe := probe + 1;
        NodeAt(hash, Nodes(), capacity, i);
        if buckets[i].state == 0 {
          Drop(i, probe);
          return;
        }
        var target := UsedBucketProbeLength(i);
        if probe > target {
          Trade(i, probe);
          probe := target;
        }
      }
    }

    /** Overwrites a stored value by an equal one. */
    method Overwrite(value: T, i: int) returns (ghost k: nat)
      requires Shape() && LawfulTraits(hash, equals) && 0 <= i < buckets.Length && buckets[i].state != 0 &&
               equals(buckets[i].slot, value)
      modifies buckets
      ensures Shape() && k < |old(Contents())| && equals(old(Contents())[k], value) &&
              Contents() == old(Contents())[k := value]
    {
      hide Settled, Elements, LawfulTraits;
      ghost var was := Nodes();
      buckets[i] := buckets[i].(slot := value);
      assert Nodes() == was[i := was[i].(slot := value)];
      k := Overwritten(hash, equals, was, buckets.Length, order, head, tail, value, i);
    }

    /** What a set operation does to the contents: replace or keep an equal value, or append the new one. */
    ghost predicate SetTo(was: seq<T>, value: T, behavior: ExistingEntryBehavior, result: SetResult)
      requires Shape()
      reads this, buckets
    {
      match result
      case InsertedNewEntry => Missing(equals, was, value) && Contents() == was + [value]
      case KeptExistingEntry => behavior.Keep? && !Missing(equals, was, value) && Contents() == was
      case ReplacedExistingEntry =>
        behavior.Replace? && exists k :: 0 <= k < |was| && equals(was[k], value) && Contents() == was[k := value]
    }

    method WriteValue(value: T, behavior: ExistingEntryBehavior) returns (result: SetResult)
      requires Shape() && LawfulTraits(hash, equals) && size < buckets.Length
      modifies this, buckets
      ensures Shape() && buckets == old(buckets) && SetTo(old(Contents()), value, behavior, result)
    {
      hide Settled, Elements, LawfulTraits, MayPlace, Carrying, Missing, Ideals;
      var i, probe, same := FindPlace(value);
      if same {
        Present(hash, equals, Nodes(), buckets.Length, order, head, tail, value, i);
        if behavior.Replace? {
          ghost var k := Overwrite(value, i);
          return ReplacedExistingEntry;
        }
        return KeptExistingEntry;
      }
      SettledAt(hash, equals, Nodes(), buckets.Length, order, head, tail, i);
      if buckets[i].state == 0 {
        InsertIntoFree(value, i, probe);
      } else {
        var target := UsedBucketProbeLength(i);
        MayPlaceMeans(hash, Nodes(), buckets.Length, value, i);
        Steal(value, i, probe);
        Resettle(i, target);
      }
      return InsertedNewEntry;
    }

    // ----- Deletion -----

    /** Takes a bucket out of the list. */
    method Unlink(i: int)
      requires 0 <= i < buckets.Length && AllLinks().HasOrNull(AllLinks().previous[i]) &&
               AllLinks().HasOrNull(AllLinks().next[i])
      modifies this`head, this`tail, this`hand, buckets
      ensures AllLinks() == Detach(old(AllLinks()), i) && SamePayload(Nodes(), old(Nodes()))
    {
      hide LinksOf;
      var previous, next := Node(i).previous, Node(i).next;
      if previous != NULL {
        SetNext(previous, next);
      } else {
        SetHead(next);
      }
      if next != NULL {
        SetPrevious(next, previous);
      } else {
        SetTail(previous);
      }
      SetPrevious(i, NULL);
      SetNext(i, NULL);
    }

    method SetHead(x: int)
      modifies this`head
      ensures AllLinks() == old(AllLinks()).(head := x) && Nodes() == old(Nodes())
    {
      head := x;
    }

    method SetTail(x: int)
      modifies this`tail
      ensures AllLinks() == old(AllLinks()).(tail := x) && Nodes() == old(Nodes())
    {
      tail := x;
    }

    method UpdateBucketNeighbors(i: int)
      requires 0 <= i < buckets.Length && AllLinks().HasOrNull(AllLinks().previous[i]) &&
               AllLinks().HasOrNull(AllLinks().next[i])
      modifies this`head, this`tail, this`hand, buckets
      ensures AllLinks() == Adopt(old(AllLinks()), i) && SamePayload(Nodes(), old(Nodes()))
    {
      hide LinksOf;
      var previous, next := Node(i).previous, Node(i).next;
      if previous != NULL {
        SetNext(previous, i);
      } else {
        SetHead(i);
      }
      if next != NULL {
        SetPrevious(next, i);
      } else {
        SetTail(i);
      }
    }

    /** A bucket was emptied and the shift that closes the gap has come as far as `hole`. */
    ghost predicate Open(hole: int)
      reads this, buckets
    {
      size == |order| && InRange(order, buckets.Length + 1) &&
        Gap(hash, Nodes(), buckets.Length, order, head, tail, hole)
    }

    /** Unlinks a bucket, which becomes the gap. */
    method OpenGap(i: int) returns (ghost k: nat)
      requires Shape() && 0 <= i < buckets.Length && buckets[i].state != 0
      modifies this, buckets
      ensures Open(i) && buckets == old(buckets) && SamePayload(Nodes(), old(Nodes()))
      ensures k < |old(Contents())| && old(Contents())[k] == old(buckets[i].slot)
      ensures Elements(Nodes(), order) == Without(old(Contents()), k)
    {
      hide Settled, Gap, Elements, LinksOf, Detach, InRange;
      ghost var was, capacity, head0, tail0 := Nodes(), buckets.Length, head, tail;
      k := ReadyToDetach(hash, equals, was, capacity, order, head, tail, i);
      Unlink(i);
      GapOpened(hash, equals, was, capacity, order, head0, tail0, k, Nodes(), head, tail);
      size := size - 1;
      order := Without(order, k);
    }

    /** Moves the bucket after the gap into it. */
    method ShiftBack(hole: int, from: int, probe: nat, ghost f: int)
      requires Open(hole) && 0 <= hole < buckets.Length && 0 <= f < buckets.Length && f != hole && Nodes()[f].state == 0
      requires from == Next(hole, buckets.Length) && buckets[from].state != 0 && probe == Probe(Table(), from) >= 1
      modifies this, buckets
      ensures Open(from) && buckets == old(buckets) && Elements(Nodes(), order) == old(Elements(Nodes(), order))
      ensures SamePayload(Nodes(), ShiftedBack(old(Nodes()), hole, from, StateFor(probe - 1)))
    {
      hide Gap, Elements, LinksOf, Adopt, InRange, Ideals;
      ghost var was, capacity, head0, tail0 := Nodes(), buckets.Length, head, tail;
      ghost var k := ReadyToShift(hash, was, capacity, order, head, tail, hole, StateFor(probe - 1));
      buckets[hole] := buckets[from];
      buckets[from] := buckets[from].(previous := NULL, next := NULL);
      buckets[hole] := buckets[hole].(state := StateFor(probe - 1));
      assert Nodes() == ShiftedBack(was, hole, from, StateFor(probe - 1));
      UpdateBucketNeighbors(hole);
      GapShifted(hash, was, capacity, order, head0, tail0, hole, f, k, StateFor(probe - 1), Nodes(), head, tail);
      order := order[k := hole];
    }

    /** Marks the gap as free. */
    method CloseGap(hole: int)
      requires Open(hole) && 0 <= hole < buckets.Length && Probe(Table(), Next(hole, buckets.Length)) <= 0
      requires NoDuplicates(equals, Elements(Nodes(), order))
      modifies buckets
      ensures Shape() && Contents() == old(Elements(Nodes(), order))
      ensures Nodes() == old(Nodes()[hole := Nodes()[hole].(state := 0)])
    {
      hide Gap, Settled, Elements, InRange, Ideals;
      ghost var was := Nodes();
      buckets[hole] := buckets[hole].(state := 0);
      assert Nodes() == was[hole := was[hole].(state := 0)];
      GapClosed(hash, equals, was, buckets.Length, order, head, tail, hole);
    }

    method DeleteBucket(i: int) returns (ghost k: nat)
      requires Shape() && 0 <= i < buckets.Length && buckets[i].state != 0 && size < buckets.Length
      modifies this, buckets
      ensures Shape() && buckets == old(buckets)
      ensures k < |old(Contents())| && old(Contents())[k] == old(buckets[i].slot) &&
              Contents() == Without(old(Contents()), k)
      ensures MovedBack(old(Nodes()), Nodes(), buckets.Length, i)
    {
      hide Settled, Gap, Elements, InRange, Ideals, MovedBack, MovedUpTo;
      ghost var was, capacity := Nodes(), buckets.Length;
      ghost var f := SettledFree(hash, equals, was, capacity, order, head, tail);
      WithoutNoDuplicates(hash, equals, was, capacity, order, head, tail);
      k := OpenGap(i);
      ghost var rest := Elements(Nodes(), order);
      MovedNone(was, Nodes(), capacity, i);
      var hole := i;
      while true
        invariant Open(hole) && buckets == old(buckets) && Elements(Nodes(), order) == rest
        invariant 0 <= hole < capacity && Distance(i, hole, capacity) < Distance(i, f, capacity)
        invariant MovedUpTo(was, Nodes(), capacity, i, hole)
        decreases capacity - Distance(i, hole, capacity)
      {
        var from := hole + 1;
        if from == buckets.Length {
          from := 0;
        }
        GapNext(hash, was, Nodes(), capacity, order, head, tail, i, hole, f);
        if buckets[from].state == 0 {
          break;
        }
        var probe := UsedBucketProbeLength(from);
        if probe == 0 {
          break;
        }
        ghost var nodes := Nodes();
        ShiftBack(hole, from, probe, f);
        MovedFurther(was, nodes, Nodes(), capacity, i, hole, f, StateFor(probe - 1));
        hole := from;
      }
      ghost var nodes := Nodes();
      CloseGap(hole);
      MovedAll(was, nodes, Nodes(), capacity, i, hole, f);
    }

    // ----- Public operations -----

    /** The state between public operations: the load factor leaves at least one bucket free. */
    ghost predicate Valid()
      reads this, buckets
    {
      Shape() && LawfulTraits(hash, equals) && (size == 0 || size * 100 < buckets.Length * GROW_AT_LOAD_FACTOR_PERCENT)
    }

    constructor (hash: T -> nat, equals: (T, T) -> bool)
      requires LawfulTraits(hash, equals)
      ensures Valid() && Contents() == [] && fresh(buckets) && buckets.Length == 0
      ensures this.hash == hash && this.equals == equals
    {
      var unset: T := *;
      this.hash, this.equals := hash, equals;
      buckets := new Bucket<T>[0];
      hand := Bucket(0, unset, NULL, NULL);
      size, head, tail, order := 0, NULL, NULL, [];
      new;
      EmptySettled(this.hash, this.equals, Nodes(), 0);
    }

    predicate ShouldGrow()
      reads this
    {
      Crowded(size, buckets.Length)
    }

    /** A zeroed allocation: all buckets free and unlinked. */
    method Allocate(capacity: nat)
      modifies this
      ensures fresh(buckets) && buckets.Length == capacity && Shape() && Contents() == []
    {
      hide Settled;
      var unset: T := *;
      buckets := new Bucket<T>[capacity](_ => Bucket(0, unset, NULL, NULL));
      size, head, tail, order := 0, NULL, NULL, [];
      EmptySettled(hash, equals, Nodes(), capacity);
    }

    /**
     * try_rehash: moves every value into a larger array, walking the old list. The allocator decides
     * whether there is memory, and by how many buckets it rounds the request up.
     */
    method TryRehash(requested: nat, slack: nat, outOfMemory: bool) returns (ok: bool)
      requires Valid()
      modifies this, buckets
      ensures Valid() && Contents() == old(Contents()) && ok == !outOfMemory
      ensures ok ==> fresh(buckets) && buckets.Length == GrownCapacity(old(buckets.Length), requested, slack)
      ensures !ok ==> unchanged(this) && unchanged(buckets)
    {
      if outOfMemory {
        return false;
      }
      hide Settled, Elements, LawfulTraits, InRange;
      var capacity := Max(requested, buckets.Length + GROW_CAPACITY_AT_LEAST);
      var oldBuckets, it := buckets, head;
      ghost var was, order0, tail0 := Nodes(), order, tail;
      Allocate(capacity + slack);
      Refill(oldBuckets, it, was, order0, tail0);
      return true;
    }

    /** Inserts every value of another array of buckets in the order of its list. */
    method Refill(from: array<Bucket<T>>, start: int, ghost was: seq<Bucket<T>>, ghost order0: seq<int>,
                  ghost tail0: int)
      requires Shape() && LawfulTraits(hash, equals) && Contents() == [] && from != buckets && |order0| < buckets.Length
      requires Settled(hash, equals, was, from.Length, order0, start, tail0) && InRange(order0, |was|)
      requires |was| == from.Length + 1 && from[..] == was[..from.Length]
      modifies this, buckets
      ensures Shape() && buckets == old(buckets) && Contents() == Elements(was, order0)
    {
      hide Settled, Elements, LawfulTraits, At, NoDuplicates, InRange;
      ghost var all := Elements(was, order0);
      SettledNoDuplicates(hash, equals, was, from.Length, order0, start, tail0);
      WalkEnds(hash, equals, was, from.Length, order0, start, tail0);
      var it := start;
      ghost var p := 0;
      while it != NULL
        invariant 0 <= p <= |order0| && it == At(order0, p) && (it == NULL <==> p == |order0|)
        invariant Shape() && buckets == old(buckets) && Contents() == all[..p]
        invariant from[..] == was[..from.Length]
        decreases |order0| - p
      {
        WalkStep(hash, equals, was, from.Length, order0, start, tail0, p);
        assert from[it] == from[..][it];
        Reinsert(from[it].slot, all, p);
        it := from[it].next;
        p := p + 1;
      }
      assert all[..p] == all;
    }

    /** Carries one value over during a rehash; it cannot be there yet. */
    method Reinsert(value: T, ghost all: seq<T>, ghost p: nat)
      requires Shape() && LawfulTraits(hash, equals) && size < buckets.Length
      requires NoDuplicates(equals, all) && p < |all| && Contents() == all[..p] && value == all[p]
      modifies this, buckets
      ensures Shape() && buckets == old(buckets) && Contents() == all[..p + 1]
    {
      hide Settled, Elements, LawfulTraits;
      assert Missing(equals, all[..p], all[p]);
      var _ := WriteValue(value, Keep);
      assert all[..p] + [all[p]] == all[..p + 1];
    }

    /** try_set */
    method TrySet(value: T, behavior: ExistingEntryBehavior, slack: nat, outOfMemory: bool)
      returns (result: ErrorOr<SetResult>)
      requires Valid()
      modifies this, buckets
      ensures Valid() && (buckets == old(buckets) || fresh(buckets))
      ensures result.OutOfMemory? <==> outOfMemory && old(ShouldGrow())
      ensures result.OutOfMemory? ==> Contents() == old(Contents())
      ensures result.Success? ==> Contents() == AfterSet(equals, old(Contents()), value, behavior)
      ensures result.Success? ==> result.value == OutcomeOfSet(equals, old(Contents()), value, behavior)
      ensures !old(ShouldGrow()) || result.OutOfMemory? ==> buckets.Length == old(buckets.Length)
      ensures old(ShouldGrow()) && result.Success? ==>
                var requested := old(buckets.Length) * (100 + GROW_CAPACITY_INCREASE_PERCENT) / 100;
                buckets.Length == GrownCapacity(old(buckets.Length), requested, slack)
    {
      hide Settled, Elements, LawfulTraits, Missing;
      if ShouldGrow() {
        var ok := TryRehash(buckets.Length * (100 + GROW_CAPACITY_INCREASE_PERCENT) / 100, slack, outOfMemory);
        if !ok {
          return OutOfMemory;
        }
      }
      ghost var was := Contents();
      SettledNoDuplicates(hash, equals, Nodes(), buckets.Length, order, head, tail);
      var outcome := WriteValue(value, behavior);
      SetToMeans(was, value, behavior, outcome);
      return Success(outcome);
    }

    lemma SetToMeans(was: seq<T>, value: T, behavior: ExistingEntryBehavior, result: SetResult)
      requires Shape() && LawfulTraits(hash, equals) && NoDuplicates(equals, was) && SetTo(was, value, behavior, result)
      ensures Contents() == AfterSet(equals, was, value, behavior) &&
              result == OutcomeOfSet(equals, was, value, behavior)
      ensures result.InsertedNewEntry? <==> |Contents()| == |was| + 1
      ensures !result.InsertedNewEntry? ==> |Contents()| == |was|
    {
      if result.ReplacedExistingEntry? {
        var k :| 0 <= k < |was| && equals(was[k], value) && Contents() == was[k := value];
        IndexOfUnique(hash, equals, was, value, k);
      }
    }

    /** try_ensure_capacity: room for this many values without another allocation. */
    method TryEnsureCapacity(capacity: nat, slack: nat, outOfMemory: bool) returns (ok: bool)
      requires Valid()
      modifies this, buckets
      ensures Valid() && (buckets == old(buckets) || fresh(buckets)) && Contents() == old(Contents())
      ensures ok ==> capacity * 100 < buckets.Length * GROW_AT_LOAD_FACTOR_PERCENT
      ensures !ok ==> outOfMemory && buckets == old(buckets)
      ensures capacity * 100 < old(buckets.Length) * GROW_AT_LOAD_FACTOR_PERCENT ==> ok && buckets == old(buckets)
      ensures ok <==> !outOfMemory || capacity * 100 < old(buckets.Length) * GROW_AT_LOAD_FACTOR_PERCENT
      ensures ok && capacity * 100 >= old(buckets.Length) * GROW_AT_LOAD_FACTOR_PERCENT ==>
                buckets.Length == GrownCapacity(old(buckets.Length), capacity * 100 / GROW_AT_LOAD_FACTOR_PERCENT + 1,
                                                slack)
    {
      var required := capacity * 100 / GROW_AT_LOAD_FACTOR_PERCENT + 1;
      if required <= buckets.Length {
        return true;
      }
      ok := TryRehash(required, slack, outOfMemory);
    }

    /** contains */
    method Contains(value: T) returns (found: bool)
      requires Valid()
      ensures found <==> exists k :: 0 <= k < |Contents()| && equals(Contents()[k], value)
    {
      var r := Find(value);
      return r != NULL;
    }

    /** remove */
    method Remove(value: T) returns (found: bool)
      requires Valid()
      modifies this, buckets
      ensures Valid() && buckets == old(buckets)
      ensures found <==> !Missing(equals, old(Contents()), value)
      ensures Contents() == AfterRemove(equals, old(Contents()), value) && Missing(equals, Contents(), value)
    {
      hide Settled, Elements, LawfulTraits, Missing, NoDuplicates;
      var r := Find(value);
      if r == NULL {
        return false;
      }
      ghost var was := Contents();
      SettledNoDuplicates(hash, equals, Nodes(), buckets.Length, order, head, tail);
      ghost var k := DeleteBucket(r);
      IndexOfUnique(hash, equals, was, value, k);
      RemovedIsMissing(hash, equals, was, value, k);
      return true;
    }

    /** remove_all_matching */
    method RemoveAllMatching(matches: T -> bool) returns (removed: bool)
      requires Valid()
      modifies this, buckets
      ensures Valid() && buckets == old(buckets)
      ensures Contents() == NotMatching(matches, old(Contents()))
      ensures removed <==> |Contents()| < |old(Contents())|
    {
      assert NoneMatchBefore(matches, Nodes(), buckets.Length, 0);
      hide Settled, Elements, LawfulTraits, NoneMatchBefore, NotMatching, InRange;
      ghost var all := Contents();
      removed := false;
      var i := 0;
      while i < buckets.Length
        invariant 0 <= i <= buckets.Length && Valid() && buckets == old(buckets)
        invariant NotMatching(matches, Contents()) == NotMatching(matches, all)
        invariant size <= |all| && (removed <==> size < |all|)
        invariant NoneMatchBefore(matches, Nodes(), buckets.Length, i)
        decreases size, buckets.Length - i
      {
        if buckets[i].state == 0 || !matches(buckets[i].slot) {
          i := NextUnmatched(matches, i);
          continue;
        }
        DeleteMatch(matches, i);
        removed := true;
        // A bucket that was shifted back into this place is looked at again.
        if buckets[i].state == 0 {
          i := NextUnmatched(matches, i);
        }
      }
      NoneMatchAtAll(hash, equals, matches, Nodes(), buckets.Length, order, head, tail);
      NotMatchingAll(matches, Contents());
    }

    method DeleteMatch(ghost matches: T -> bool, i: int)
      requires Valid() && 0 <= i < buckets.Length && NoneMatchBefore(matches, Nodes(), buckets.Length, i)
      requires buckets[i].state != 0 && matches(buckets[i].slot)
      modifies this, buckets
      ensures Valid() && buckets == old(buckets) && size == old(size) - 1 &&
              NoneMatchBefore(matches, Nodes(), buckets.Length, i)
      ensures NotMatching(matches, Contents()) == NotMatching(matches, old(Contents()))
    {
      assert size != 0 by {
        ghost var k := Listed(hash, equals, Nodes(), buckets.Length, order, head, tail, i);
      }
      hide Settled, Elements, LawfulTraits, MovedBack, NoneMatchBefore, NotMatching, InRange;
      ghost var was, before := Nodes(), Contents();
      ghost var k := DeleteBucket(i);
      NotMatchingWithout(matches, before, k);
      NoneMatchAfterDelete(matches, was, Nodes(), buckets.Length, i);
    }

    method NextUnmatched(ghost matches: T -> bool, i: int) returns (next: int)
      requires 0 <= i < buckets.Length && NoneMatchBefore(matches, Nodes(), buckets.Length, i)
      requires buckets[i].state == 0 || !matches(buckets[i].slot)
      ensures next == i + 1 && NoneMatchBefore(matches, Nodes(), buckets.Length, next)
    {
      assert Nodes()[i] == buckets[i];
      return i + 1;
    }

    /** values, and iteration in general: following next from the head. */
    method Values() returns (values: seq<T>)
      requires Valid()
      ensures values == Contents() && NoDuplicates(equals, values)
    {
      hide Settled, Elements, LawfulTraits, At, InRange, NoDuplicates;
      ghost var all := Contents();
      SettledNoDuplicates(hash, equals, Nodes(), buckets.Length, order, head, tail);
      WalkEnds(hash, equals, Nodes(), buckets.Length, order, head, tail);
      values := [];
      var it := head;
      while it != NULL
        invariant |values| <= |order| && it == At(order, |values|) && (it == NULL <==> |values| == |order|) &&
                  values == all[..|values|]
        decreases |order| - |values|
      {
        WalkStep(hash, equals, Nodes(), buckets.Length, order, head, tail, |values|);
        assert buckets[it] == Nodes()[it];
        values := values + [buckets[it].slot];
        it := buckets[it].next;
      }
    }

    /** Reverse iteration: following previous from the tail. */
    method ValuesInReverse() returns (values: seq<T>)
      requires Valid()
      ensures |values| == |Contents()| && forall k :: 0 <= k < |values| ==> values[k] == Contents()[|values| - 1 - k]
    {
      hide Settled, Elements, LawfulTraits, At, InRange;
      ghost var all := Contents();
      WalkEnds(hash, equals, Nodes(), buckets.Length, order, head, tail);
      values := [];
      var it := tail;
      while it != NULL
        invariant |values| <= |order| && it == At(order, |order| - 1 - |values|) &&
                  (it == NULL <==> |values| == |order|)
        invariant forall k :: 0 <= k < |values| ==> values[k] == all[|order| - 1 - k]
        decreases |order| - |values|
      {
        WalkStep(hash, equals, Nodes(), buckets.Length, order, head, tail, |order| - 1 - |values|);
        assert buckets[it] == Nodes()[it];
        values := values + [buckets[it].slot];
        it := buckets[it].previous;
      }
    }

    /** Removes the value in place `k` of the list, which is in bucket `i`. */
    method Take(i: int, ghost k: nat) returns (value: T)
      requires Valid() && k < size && i == At(order, k)
      modifies this, buckets
      ensures Valid() && buckets == old(buckets) && value == old(Contents())[k] &&
              Contents() == Without(old(Contents()), k)
    {
      hide Settled, Elements, LawfulTraits, At, InRange, NoDuplicates;
      ghost var all := Contents();
      WalkStep(hash, equals, Nodes(), buckets.Length, order, head, tail, k);
      SettledNoDuplicates(hash, equals, Nodes(), buckets.Length, order, head, tail);
      assert buckets[i] == Nodes()[i];
      value := buckets[i].slot;
      ghost var j := DeleteBucket(i);
      SameIndex(hash, equals, all, j, k);
    }

    method TakeFirst() returns (value: T)
      requires Valid() && size != 0
      modifies this, buckets
      ensures Valid() && buckets == old(buckets)
      ensures [value] + Contents() == old(Contents())
    {
      hide Settled, Elements, LawfulTraits, At, InRange;
      WalkEnds(hash, equals, Nodes(), buckets.Length, order, head, tail);
      value := Take(head, 0);
    }

    method TakeLast() returns (value: T)
      requires Valid() && size != 0
      modifies this, buckets
      ensures Valid() && buckets == old(buckets)
      ensures Contents() + [value] == old(Contents())
    {
      hide Settled, Elements, LawfulTraits, At, InRange;
      WalkEnds(hash, equals, Nodes(), buckets.Length, order, head, tail);
      value := Take(tail, size - 1);
    }
  }

  /** Every bucket fewer than `probe` steps from the ideal position holds a different value. */
  ghost predicate Passed<T>(equals: (T, T) -> bool, nodes: seq<Bucket<T>>, capacity: nat, ideal: int, value: T,
                            probe: int)
    requires capacity <= |nodes|
  {
    forall j :: 0 <= j < capacity && Distance(ideal, j, capacity) < probe ==>
      nodes[j].state != 0 && !equals(nodes[j].slot, value)
  }

  lemma PassedNone<T>(equals: (T, T) -> bool, nodes: seq<Bucket<T>>, capacity: nat, ideal: int, value: T)
    requires capacity <= |nodes| && 0 <= ideal < capacity
    ensures Passed(equals, nodes, capacity, ideal, value, 0) && Distance(ideal, ideal, capacity) == 0
  {
  }

  /** With a free bucket still ahead, the search moves on without coming back to its start. */
  lemma PassedStep<T>(equals: (T, T) -> bool, nodes: seq<Bucket<T>>, capacity: nat, ideal: int, value: T, i: int,
                      f: int)
    requires 0 <= ideal < capacity <= |nodes| && 0 <= i < capacity && 0 <= f < capacity && nodes[f].state == 0
    requires Passed(equals, nodes, capacity, ideal, value, Distance(ideal, i, capacity))
    requires nodes[i].state != 0 && !equals(nodes[i].slot, value)
    ensures Passed(equals, nodes, capacity, ideal, value, Distance(ideal, i, capacity) + 1)
    ensures Distance(ideal, Next(i, capacity), capacity) == Distance(ideal, i, capacity) + 1 < capacity
  {
  }

  lemma SettledFree<T>(hash: T -> nat, equals: (T, T) -> bool, nodes: seq<Bucket<T>>, capacity: nat, order: seq<int>,
                       head: int, tail: int)
    returns (f: int)
    requires Settled(hash, equals, nodes, capacity, order, head, tail) && |order| < capacity
    ensures 0 <= f < capacity && nodes[f].state == 0
  {
    f := FreeBucketExists(nodes, capacity, order, head, tail);
  }

  lemma Present<T>(hash: T -> nat, equals: (T, T) -> bool, nodes: seq<Bucket<T>>, capacity: nat, order: seq<int>,
                   head: int, tail: int,
                   value: T, i: int)
    requires Settled(hash, equals, nodes, capacity, order, head, tail) && InRange(order, |nodes|)
    requires 0 <= i < capacity && nodes[i].state != 0 && equals(nodes[i].slot, value)
    ensures !Missing(equals, Elements(nodes, order), value)
  {
    var k := Listed(hash, equals, nodes, capacity, order, head, tail, i);
    assert Elements(nodes, order)[k] == nodes[i].slot;
  }

  /** A bucket richer than the search has gone, and no match before it: the value is nowhere. */
  lemma AbsentBeyond<T(!new)>(hash: T -> nat, equals: (T, T) -> bool, nodes: seq<Bucket<T>>, capacity: nat,
                              order: seq<int>, head: int, tail: int,
                              value: T, i: int)
    requires LawfulTraits(hash, equals) && Settled(hash, equals, nodes, capacity, order, head, tail) &&
             InRange(order, |nodes|)
    requires 0 <= i < capacity
    requires var ideal := hash(value) % capacity;
             && Passed(equals, nodes, capacity, ideal, value, Distance(ideal, i, capacity))
             && (Probe(Ideals(hash, nodes, capacity), i) < Distance(ideal, i, capacity) || nodes[i].state == 0)
    requires nodes[i].state != 0 ==> !equals(nodes[i].slot, value)
    ensures Missing(equals, Elements(nodes, order), value)
  {
    var t, ideal := Ideals(hash, nodes, capacity), hash(value) % capacity;
    forall k | 0 <= k < |order|
      ensures !equals(Elements(nodes, order)[k], value)
    {
      var j := order[k];
      assert j in order;
      if equals(nodes[j].slot, value) && j != i {
        assert Probe(t, j) == Distance(ideal, j, capacity);
        if Distance(ideal, j, capacity) > Distance(ideal, i, capacity) {
          NoGap(t, j, i);
        }
      }
    }
  }

  lemma EndsExist<T>(hash: T -> nat, equals: (T, T) -> bool, nodes: seq<Bucket<T>>, capacity: nat, order: seq<int>,
                     head: int, tail: int)
    requires Settled(hash, equals, nodes, capacity, order, head, tail)
    ensures head != NULL ==> 0 <= tail < |nodes|
    ensures head == NULL <==> order == []
    ensures InRange(order, |nodes|)
  {
    if order != [] {
      assert LinksOf(nodes, head, tail).Linked(order, |order| - 1) && LinksOf(nodes, head, tail).Linked(order, 0);
    }
  }

  lemma Inserted<T>(hash: T -> nat, equals: (T, T) -> bool, nodes: seq<Bucket<T>>, capacity: nat, order: seq<int>,
                    head: int, tail: int,
                    value: T, i: int, b: Bucket<T>, nodes': seq<Bucket<T>>, head': int, tail': int)
    requires Settled(hash, equals, nodes, capacity, order, head, tail) && InRange(order, |nodes|)
    requires Missing(equals, Elements(nodes, order), value)
    requires 0 <= i < capacity && nodes[i].state == 0 && MayPlace(hash, nodes, capacity, value, i)
    requires b == nodes[i].(slot := value, state := StateFor(Distance(hash(value) % capacity, i, capacity)))
    requires head != NULL ==> 0 <= tail < |nodes|
    requires SamePayload(nodes', nodes[i := b]) &&
             LinksOf(nodes', head', tail') == Append(LinksOf(nodes[i := b], head, tail), i)
    ensures Settled(hash, equals, nodes', capacity, order + [i], head', tail') && InRange(order + [i], |nodes'|)
    ensures Elements(nodes', order + [i]) == Elements(nodes, order) + [value]
  {
    AppendThreaded(nodes, capacity, order, head, tail, NULL, i, b, nodes', head', tail');
    TablePlaced(hash, nodes, capacity, value, i, nodes');
    hide Elements, LinksOf, TableOk;
  }

  /** The copied-out bucket has links to follow, in both nodes that now hold them. */
  lemma LiftedLinks<T>(nodes: seq<Bucket<T>>, capacity: nat, order: seq<int>, head: int, tail: int, k: nat)
    requires Threaded(nodes, capacity, order, head, tail, NULL) && k < |order| && order[k] < capacity &&
             capacity !in order
    ensures var lifted := nodes[capacity := nodes[order[k]]];
            var l := LinksOf(lifted, head, tail);
            && Copied(LinksOf(nodes, head, tail), l, order[k], capacity)
            && l.HasOrNull(l.previous[order[k]]) && l.HasOrNull(l.next[order[k]])
            && l.HasOrNull(l.previous[capacity]) && l.HasOrNull(l.next[capacity])
            && SwapLinks(l, order[k], capacity).List(order[k := capacity])
            && SwapLinks(l, order[k], capacity).SameOutside(l, Without(order, k) + [capacity])
  {
    var was, l := LinksOf(nodes, head, tail), LinksOf(nodes[capacity := nodes[order[k]]], head, tail);
    LinksOfUpdate(nodes, head, tail, capacity, nodes[order[k]]);
    assert was.previous[order[k]] == nodes[order[k]].previous && was.next[order[k]] == nodes[order[k]].next;
    Neighbours(was, order, k, k);
    hide Links.List;
    SwapCopied(was, l, order, k, capacity);
    AdoptList(was, l, order, k, capacity);
  }

  /** Lifting a bucket into the hand leaves its value in place in the list. */
  lemma LiftedThreaded<T>(nodes: seq<Bucket<T>>, capacity: nat, order: seq<int>, head: int, tail: int, k: nat,
                          nodes': seq<Bucket<T>>, head': int, tail': int)
    requires Threaded(nodes, capacity, order, head, tail, NULL) && k < |order| && order[k] < capacity &&
             capacity !in order
    requires var lifted := nodes[capacity := nodes[order[k]]];
             var l := LinksOf(lifted, head, tail);
             && l.HasOrNull(l.previous[order[k]]) && l.HasOrNull(l.next[order[k]])
             && l.HasOrNull(l.previous[capacity]) && l.HasOrNull(l.next[capacity])
             && SamePayload(nodes', lifted) && LinksOf(nodes', head', tail') == SwapLinks(l, order[k], capacity)
    ensures Threaded(nodes', capacity, order[k := capacity], head', tail', order[k])
    ensures Elements(nodes', order[k := capacity]) == Elements(nodes, order)
  {
    LiftedLinks(nodes, capacity, order, head, tail, k);
    hide LinksOf, SwapLinks, Links.List, Elements;
    MovedThreaded(nodes, capacity, order, head, tail, NULL, k, capacity,
                  LinksOf(nodes[capacity := nodes[order[k]]], head, tail),
                  nodes', head', tail', order[k]);
  }

  /** The robbed bucket holds the new value, at the end of the list; the old one is in hand. */
  lemma Stolen<T>(hash: T -> nat, equals: (T, T) -> bool, nodes: seq<Bucket<T>>, capacity: nat, order: seq<int>,
                  head: int, tail: int,
                  value: T, k: nat, nodes1: seq<Bucket<T>>, head1: int, tail1: int, b: Bucket<T>,
                  nodes2: seq<Bucket<T>>, head2: int, tail2: int)
    requires Settled(hash, equals, nodes, capacity, order, head, tail) && k < |order| && InRange(order, |nodes|) &&
             order[k] < capacity
    requires Threaded(nodes1, capacity, order[k := capacity], head1, tail1, order[k])
    requires Elements(nodes1, order[k := capacity]) == Elements(nodes, order)
    requires SamePayload(nodes1, nodes[capacity := nodes[order[k]]])
    requires Missing(equals, Elements(nodes, order), value) && MayPlace(hash, nodes, capacity, value, order[k])
    requires b == nodes1[order[k]].(slot := value,
                                    state := StateFor(Distance(hash(value) % capacity, order[k], capacity)),
                                      next := NULL)
    requires head1 != NULL ==> 0 <= tail1 < |nodes1|
    requires SamePayload(nodes2, nodes1[order[k] := b])
    requires LinksOf(nodes2, head2, tail2) == Append(LinksOf(nodes1[order[k] := b], head1, tail1), order[k])
    ensures Carrying(hash, equals, nodes2, capacity, order[k := capacity] + [order[k]], head2, tail2)
    ensures InRange(order[k := capacity] + [order[k]], |nodes2|)
    ensures Elements(nodes2, order[k := capacity] + [order[k]]) == Elements(nodes, order) + [value]
  {
    var i, order1 := order[k], order[k := capacity];
    assert order1[k] == capacity;
    AppendThreaded(nodes1, capacity, order1, head1, tail1, i, i, b, nodes2, head2, tail2);
    TablePlaced(hash, nodes, capacity, value, i, nodes2);
    hide Elements, LinksOf, TableOk;
    assert (order1 + [i])[k] == capacity;
  }

  // ----- Putting the value in hand into a free bucket -----

  lemma DroppedLinks<T>(nodes: seq<Bucket<T>>, capacity: nat, order: seq<int>, head: int, tail: int, k: nat, i: int,
                        state: nat)
    requires Threaded(nodes, capacity, order, head, tail, NULL) && k < |order| && order[k] == capacity &&
             0 <= i < capacity && i !in order
    ensures var l := LinksOf(nodes[i := nodes[capacity].(state := state)], head, tail);
            && Copied(LinksOf(nodes, head, tail), l, capacity, i)
            && l.HasOrNull(l.previous[capacity]) && l.HasOrNull(l.next[capacity])
            && l.HasOrNull(l.previous[i]) && l.HasOrNull(l.next[i])
            && SwapLinks(l, capacity, i).List(order[k := i])
            && SwapLinks(l, capacity, i).SameOutside(l, Without(order, k) + [i])
  {
    var b := nodes[capacity].(state := state);
    var was, l := LinksOf(nodes, head, tail), LinksOf(nodes[i := b], head, tail);
    LinksOfUpdate(nodes, head, tail, i, b);
    assert was.previous[capacity] == b.previous && was.next[capacity] == b.next;
    Neighbours(was, order, k, k);
    hide Links.List;
    SwapCopied(was, l, order, k, i);
    AdoptList(was, l, order, k, i);
  }

  lemma Dropped<T>(hash: T -> nat, equals: (T, T) -> bool, nodes: seq<Bucket<T>>, capacity: nat, order: seq<int>,
                   head: int, tail: int,
                   k: nat, i: int, b: Bucket<T>, nodes': seq<Bucket<T>>, head': int, tail': int)
    requires Carrying(hash, equals, nodes, capacity, order, head, tail) && InRange(order, |nodes|)
    requires k < |order| && order[k] == capacity && 0 <= i < capacity && nodes[i].state == 0
    requires MayPlace(hash, nodes, capacity, nodes[capacity].slot, i)
    requires b == nodes[capacity].(state := StateFor(Distance(hash(nodes[capacity].slot) % capacity, i, capacity)))
    requires var l := LinksOf(nodes[i := b], head, tail);
             && l.HasOrNull(l.previous[capacity]) && l.HasOrNull(l.next[capacity])
             && l.HasOrNull(l.previous[i]) && l.HasOrNull(l.next[i])
             && SamePayload(nodes', nodes[i := b]) && LinksOf(nodes', head', tail') == SwapLinks(l, capacity, i)
    ensures Settled(hash, equals, nodes', capacity, order[k := i], head', tail') && InRange(order[k := i], |nodes'|)
    ensures Elements(nodes', order[k := i]) == Elements(nodes, order)
  {
    DroppedLinks(nodes, capacity, order, head, tail, k, i, b.state);
    DistinctWithout(order, k);
    RenamedMembers(order, k, i);
    TablePlaced(hash, nodes, capacity, nodes[capacity].slot, i, nodes');
    hide LinksOf, SwapLinks, Links.List, Elements, TableOk;
    MovedThreaded(nodes, capacity, order, head, tail, NULL, k, i, LinksOf(nodes[i := b], head, tail), nodes', head',
                  tail', NULL);
  }

  // ----- Exchanging the value in hand with a richer bucket's -----

  lemma TradedLinks<T>(nodes: seq<Bucket<T>>, capacity: nat, order: seq<int>, head: int, tail: int, j: nat, k: nat,
                       state: nat)
    requires Threaded(nodes, capacity, order, head, tail, NULL)
    requires j < |order| && order[j] == capacity && k < |order| && order[k] < capacity
    ensures var i := order[k];
            var l := LinksOf(nodes[capacity := nodes[i]][i := nodes[capacity].(state := state)], head, tail);
            && Exchanged(LinksOf(nodes, head, tail), l, capacity, i)
            && l.HasOrNull(l.previous[capacity]) && l.HasOrNull(l.next[capacity])
            && l.HasOrNull(l.previous[i]) && l.HasOrNull(l.next[i])
            && SwapLinks(l, capacity, i).List(order[j := i][k := capacity])
            && Swapped(l, SwapLinks(l, capacity, i), capacity, i)
  {
    var i, b := order[k], nodes[capacity].(state := state);
    var was, l := LinksOf(nodes, head, tail), LinksOf(nodes[capacity := nodes[i]][i := b], head, tail);
    LinksOfUpdate(nodes, head, tail, capacity, nodes[i]);
    LinksOfUpdate(nodes[capacity := nodes[i]], head, tail, i, b);
    assert was.previous[capacity] == b.previous && was.next[capacity] == b.next;
    assert was.previous[i] == nodes[i].previous && was.next[i] == nodes[i].next;
    hide Links.List;
    SwapExchanged(was, l, order, j, k);
  }

  lemma Traded<T>(hash: T -> nat, equals: (T, T) -> bool, nodes: seq<Bucket<T>>, capacity: nat, order: seq<int>,
                  head: int, tail: int,
                  j: nat, k: nat, b: Bucket<T>, nodes': seq<Bucket<T>>, head': int, tail': int)
    requires Carrying(hash, equals, nodes, capacity, order, head, tail) && InRange(order, |nodes|)
    requires j < |order| && order[j] == capacity && k < |order| && order[k] < capacity
    requires MayPlace(hash, nodes, capacity, nodes[capacity].slot, order[k])
    requires b == nodes[capacity].(state := StateFor(Distance(hash(nodes[capacity].slot) % capacity, order[k],
                                                              capacity)))
    requires var i := order[k];
             var traded := nodes[capacity := nodes[i]][i := b];
             var l := LinksOf(traded, head, tail);
             && l.HasOrNull(l.previous[capacity]) && l.HasOrNull(l.next[capacity])
             && l.HasOrNull(l.previous[i]) && l.HasOrNull(l.next[i])
             && SamePayload(nodes', traded) && LinksOf(nodes', head', tail') == SwapLinks(l, capacity, i)
    ensures Carrying(hash, equals, nodes', capacity, order[j := order[k]][k := capacity], head', tail')
    ensures InRange(order[j := order[k]][k := capacity], |nodes'|)
    ensures Elements(nodes', order[j := order[k]][k := capacity]) == Elements(nodes, order)
  {
    TradedLinks(nodes, capacity, order, head, tail, j, k, b.state);
    var i := order[k];
    TablePlaced(hash, nodes, capacity, nodes[capacity].slot, i, nodes');
    hide LinksOf, SwapLinks, Links.List, Elements, TableOk;
    ExchangedThreaded(nodes, capacity, order, head, tail, j, k,
                      LinksOf(nodes[capacity := nodes[i]][i := b], head, tail), nodes', head', tail');
    assert order[j := i][k := capacity][k] == capacity;
  }

  lemma Listed<T>(hash: T -> nat, equals: (T, T) -> bool, nodes: seq<Bucket<T>>, capacity: nat, order: seq<int>,
                  head: int, tail: int, i: int)
    returns (k: nat)
    requires Represents(hash, nodes, capacity, order, head, tail) && 0 <= i < capacity && nodes[i].state != 0
    ensures k < |order| && order[k] == i
  {
    k :| 0 <= k < |order| && order[k] == i;
  }

  lemma EndsExistBut<T>(nodes: seq<Bucket<T>>, capacity: nat, order: seq<int>, head: int, tail: int, hole: int)
    requires Threaded(nodes, capacity, order, head, tail, hole)
    ensures head != NULL ==> 0 <= tail < |nodes|
  {
    if order != [] {
      assert LinksOf(nodes, head, tail).Linked(order, |order| - 1) && LinksOf(nodes, head, tail).Linked(order, 0);
    }
  }

  lemma TableChanged<T>(hash: T -> nat, nodes: seq<Bucket<T>>, capacity: nat, i: int, value: T, nodes': seq<Bucket<T>>)
    requires 0 <= i < capacity <= |nodes| == |nodes'| && nodes'[i].state != 0 && nodes'[i].slot == value
    requires forall j :: 0 <= j < capacity && j != i ==>
               nodes'[j].state == nodes[j].state && nodes'[j].slot == nodes[j].slot
    ensures Ideals(hash, nodes', capacity) == Ideals(hash, nodes, capacity)[i := hash(value) % capacity]
  {
  }

  lemma ReadyToDrop<T>(hash: T -> nat, equals: (T, T) -> bool, nodes: seq<Bucket<T>>, capacity: nat, order: seq<int>,
                       head: int, tail: int,
                       i: int, state: nat) returns (k: nat)
    requires Carrying(hash, equals, nodes, capacity, order, head, tail) && 0 <= i < capacity && nodes[i].state == 0
    ensures k < |order| && order[k] == capacity
    ensures var l := LinksOf(nodes[i := nodes[capacity].(state := state)], head, tail);
            && l.HasOrNull(l.previous[capacity]) && l.HasOrNull(l.next[capacity])
            && l.HasOrNull(l.previous[i]) && l.HasOrNull(l.next[i])
  {
    k :| 0 <= k < |order| && order[k] == capacity;
    DroppedLinks(nodes, capacity, order, head, tail, k, i, state);
  }

  lemma ReadyToTrade<T>(hash: T -> nat, equals: (T, T) -> bool, nodes: seq<Bucket<T>>, capacity: nat, order: seq<int>,
                        head: int, tail: int,
                        i: int, state: nat) returns (j: nat, k: nat)
    requires Carrying(hash, equals, nodes, capacity, order, head, tail) && 0 <= i < capacity && nodes[i].state != 0
    ensures j < |order| && order[j] == capacity && k < |order| && order[k] == i
    ensures var l := LinksOf(nodes[capacity := nodes[i]][i := nodes[capacity].(state := state)], head, tail);
            && l.HasOrNull(l.previous[capacity]) && l.HasOrNull(l.next[capacity])
            && l.HasOrNull(l.previous[i]) && l.HasOrNull(l.next[i])
  {
    j :| 0 <= j < |order| && order[j] == capacity;
    k := Listed(hash, equals, nodes, capacity, order, head, tail, i);
    TradedLinks(nodes, capacity, order, head, tail, j, k, state);
  }

  lemma CarryingFree<T>(hash: T -> nat, equals: (T, T) -> bool, nodes: seq<Bucket<T>>, capacity: nat, order: seq<int>,
                        head: int, tail: int)
    returns (f: int)
    requires Carrying(hash, equals, nodes, capacity, order, head, tail) && |order| <= capacity
    ensures 0 <= f < capacity && Ideals(hash, nodes, capacity)[f] == FREE
  {
    f := FreeBucketExists(nodes, capacity, order, head, tail);
  }

  lemma NodeAt<T>(hash: T -> nat, nodes: seq<Bucket<T>>, capacity: nat, i: int)
    requires 0 <= i < capacity <= |nodes|
    ensures Ideals(hash, nodes, capacity)[i] == IdealOf(hash, nodes[i], capacity)
    ensures Probe(Ideals(hash, nodes, capacity), i) == ProbeOf(hash, nodes[i], capacity, i)
  {
  }

  /** One more step with the value in hand: its probe length grows by one, and a poorer bucket may take it. */
  lemma HandMovesOn<T>(hash: T -> nat, equals: (T, T) -> bool, nodes: seq<Bucket<T>>, capacity: nat, order: seq<int>,
                       head: int, tail: int,
                       i: int, f: int)
    requires Carrying(hash, equals, nodes, capacity, order, head, tail) && 0 <= i < capacity && 0 <= f < capacity
    requires var t := Ideals(hash, nodes, capacity);
             t[f] == FREE && Distance(hash(nodes[capacity].slot) % capacity, i, capacity) <= Probe(t, i)
    ensures var t, next, ideal := Ideals(hash, nodes, capacity), Next(i, capacity),
            hash(nodes[capacity].slot) % capacity;
            && Distance(ideal, next, capacity) == Distance(ideal, i, capacity) + 1
            && (Probe(t, next) < Distance(ideal, next, capacity) ==>
                MayPlace(hash, nodes, capacity, nodes[capacity].slot, next))
            && StateOk(hash, nodes[next], capacity, next)
            && Distance(next, f, capacity) < Distance(i, f, capacity)
  {
    var t, next := Ideals(hash, nodes, capacity), Next(i, capacity);
    BoundedByFree(t, f, i);
    assert Previous(next, capacity) == i;
  }

  lemma SettledAt<T>(hash: T -> nat, equals: (T, T) -> bool, nodes: seq<Bucket<T>>, capacity: nat, order: seq<int>,
                     head: int, tail: int, i: int)
    requires Settled(hash, equals, nodes, capacity, order, head, tail) && 0 <= i < capacity
    ensures StateOk(hash, nodes[i], capacity, i)
    ensures Probe(Ideals(hash, nodes, capacity), i) == ProbeOf(hash, nodes[i], capacity, i) >= -1
    ensures Probe(Ideals(hash, nodes, capacity), Previous(i, capacity)) >= -1
  {
  }

  lemma MayPlaceMeans<T>(hash: T -> nat, nodes: seq<Bucket<T>>, capacity: nat, value: T, i: int)
    requires 0 <= i < capacity <= |nodes| && MayPlace(hash, nodes, capacity, value, i)
    ensures Probe(Ideals(hash, nodes, capacity), i) < Distance(hash(value) % capacity, i, capacity)
  {
  }

  lemma Overwritten<T(!new)>(hash: T -> nat, equals: (T, T) -> bool, nodes: seq<Bucket<T>>, capacity: nat,
                             order: seq<int>, head: int, tail: int,
                             value: T, i: int) returns (k: nat)
    requires LawfulTraits(hash, equals) && Settled(hash, equals, nodes, capacity, order, head, tail) &&
             InRange(order, |nodes|)
    requires 0 <= i < capacity && nodes[i].state != 0 && equals(nodes[i].slot, value)
    ensures k < |order| && equals(Elements(nodes, order)[k], value)
    ensures Settled(hash, equals, nodes[i := nodes[i].(slot := value)], capacity, order, head, tail)
    ensures Elements(nodes[i := nodes[i].(slot := value)], order) == Elements(nodes, order)[k := value]
  {
    var b := nodes[i].(slot := value);
    var nodes', e := nodes[i := b], Elements(nodes, order);
    k := Listed(hash, equals, nodes, capacity, order, head, tail, i);
    assert hash(value) == hash(nodes[i].slot);
    IdealsUpdate(hash, nodes, capacity, i, b);
    assert Ideals(hash, nodes', capacity) == Ideals(hash, nodes, capacity);
    assert LinksOf(nodes', head, tail) == LinksOf(nodes, head, tail);
    assert Elements(nodes', order) == e[k := value];
    forall j | 0 <= j < capacity
      ensures StateOk(hash, nodes'[j], capacity, j)
    {
      assert StateOk(hash, nodes[j], capacity, j);
    }
    ReplacedNoDuplicates(hash, equals, e, k, value);
  }

  lemma ReplacedNoDuplicates<T(!new)>(hash: T -> nat, equals: (T, T) -> bool, s: seq<T>, k: nat, value: T)
    requires LawfulTraits(hash, equals) && NoDuplicates(equals, s) && k < |s| && equals(s[k], value)
    ensures NoDuplicates(equals, s[k := value])
  {
  }

  // ----- Deletion -----

  /** A bucket was emptied and unlinked, and the buckets after it have not all been shifted back yet. */
  ghost predicate Gap<T>(hash: T -> nat, nodes: seq<Bucket<T>>, capacity: nat, order: seq<int>, head: int, tail: int,
                         hole: int)
  {
    && 0 <= hole < capacity
    && Threaded(nodes, capacity, order, head, tail, hole) && capacity !in order
    && nodes[hole].previous == NULL && nodes[hole].next == NULL
    && OrderedAround(Ideals(hash, nodes, capacity), hole)
    && forall j :: 0 <= j < capacity && j != hole ==> StateOk(hash, nodes[j], capacity, j)
  }

  lemma ReadyToDetach<T>(hash: T -> nat, equals: (T, T) -> bool, nodes: seq<Bucket<T>>, capacity: nat, order: seq<int>,
                         head: int, tail: int,
                         i: int) returns (k: nat)
    requires Settled(hash, equals, nodes, capacity, order, head, tail) && InRange(order, |nodes|) &&
             0 <= i < capacity && nodes[i].state != 0
    ensures k < |order| && order[k] == i && Elements(nodes, order)[k] == nodes[i].slot
    ensures var l := LinksOf(nodes, head, tail);
            l.HasOrNull(l.previous[i]) && l.HasOrNull(l.next[i])
  {
    k := Listed(hash, equals, nodes, capacity, order, head, tail, i);
    Neighbours(LinksOf(nodes, head, tail), order, k, k);
  }

  lemma GapOpened<T>(hash: T -> nat, equals: (T, T) -> bool, nodes: seq<Bucket<T>>, capacity: nat, order: seq<int>,
                     head: int, tail: int,
                     k: nat, nodes': seq<Bucket<T>>, head': int, tail': int)
    requires Settled(hash, equals, nodes, capacity, order, head, tail) && InRange(order, |nodes|) && k < |order| &&
             order[k] < capacity
    requires var l := LinksOf(nodes, head, tail);
             && l.HasOrNull(l.previous[order[k]]) && l.HasOrNull(l.next[order[k]])
             && SamePayload(nodes', nodes) && LinksOf(nodes', head', tail') == Detach(l, order[k])
    ensures Gap(hash, nodes', capacity, Without(order, k), head', tail', order[k]) &&
            InRange(Without(order, k), |nodes'|)
    ensures Elements(nodes', Without(order, k)) == Without(Elements(nodes, order), k)
  {
    DetachThreaded(nodes, capacity, order, head, tail, k, nodes', head', tail');
    IdealsSame(hash, nodes', nodes, capacity);
    RemovalOpensHole(Ideals(hash, nodes, capacity), order[k]);
    DistinctWithout(order, k);
    WithoutMembers(order, k);
    hide Elements, LinksOf, Detach, Links.List;
    forall j | 0 <= j < capacity && j != order[k]
      ensures StateOk(hash, nodes'[j], capacity, j)
    {
      assert StateOk(hash, nodes[j], capacity, j);
    }
  }

  /** The bucket after the hole, copied into it with a probe length one less, and unlinked itself. */
  function ShiftedBack<T>(nodes: seq<Bucket<T>>, hole: int, from: int, state: nat): seq<Bucket<T>>
    requires 0 <= hole < |nodes| && 0 <= from < |nodes|
  {
    nodes[hole := nodes[from].(state := state)][from := nodes[from].(previous := NULL, next := NULL)]
  }

  lemma ShiftedLinks<T>(nodes: seq<Bucket<T>>, capacity: nat, order: seq<int>, head: int, tail: int, hole: int, k: nat,
                        state: nat)
    requires Threaded(nodes, capacity, order, head, tail, hole) && 0 <= hole < capacity && k < |order| &&
             order[k] < capacity
    ensures var l := LinksOf(ShiftedBack(nodes, hole, order[k], state), head, tail);
            && Copied(LinksOf(nodes, head, tail), l, order[k], hole)
            && l.HasOrNull(l.previous[hole]) && l.HasOrNull(l.next[hole])
            && Adopt(l, hole).List(order[k := hole]) && Adopt(l, hole).SameOutside(l, Without(order, k) + [hole])
            && l.previous[order[k]] == NULL && l.next[order[k]] == NULL
  {
    var from := order[k];
    var was, l := LinksOf(nodes, head, tail), LinksOf(ShiftedBack(nodes, hole, from, state), head, tail);
    assert from in order && from != hole;
    LinksOfUpdate(nodes, head, tail, hole, nodes[from].(state := state));
    LinksOfUpdate(nodes[hole := nodes[from].(state := state)], head, tail, from,
                  nodes[from].(previous := NULL, next := NULL));
    assert was.previous[from] == nodes[from].previous && was.next[from] == nodes[from].next;
    hide Links.List;
    AdoptList(was, l, order, k, hole);
  }

  lemma ReadyToShift<T>(hash: T -> nat, nodes: seq<Bucket<T>>, capacity: nat, order: seq<int>, head: int, tail: int,
                        hole: int, state: nat)
    returns (k: nat)
    requires Gap(hash, nodes, capacity, order, head, tail, hole) && nodes[Next(hole, capacity)].state != 0 &&
             capacity > 1
    ensures k < |order| && order[k] == Next(hole, capacity)
    ensures var l := LinksOf(ShiftedBack(nodes, hole, order[k], state), head, tail);
            l.HasOrNull(l.previous[hole]) && l.HasOrNull(l.next[hole])
  {
    var from := Next(hole, capacity);
    k :| 0 <= k < |order| && order[k] == from;
    ShiftedLinks(nodes, capacity, order, head, tail, hole, k, state);
  }

  lemma GapShifted<T>(hash: T -> nat, nodes: seq<Bucket<T>>, capacity: nat, order: seq<int>, head: int, tail: int,
                      hole: int, f: int, k: nat,
                      state: nat, nodes': seq<Bucket<T>>, head': int, tail': int)
    requires Gap(hash, nodes, capacity, order, head, tail, hole) && InRange(order, |nodes|)
    requires 0 <= f < capacity && f != hole && nodes[f].state == 0
    requires k < |order| && order[k] == Next(hole, capacity)
    requires Probe(Ideals(hash, nodes, capacity), order[k]) >= 1 &&
             state == StateFor(Probe(Ideals(hash, nodes, capacity), order[k]) - 1)
    requires var l := LinksOf(ShiftedBack(nodes, hole, order[k], state), head, tail);
             && l.HasOrNull(l.previous[hole]) && l.HasOrNull(l.next[hole])
             && SamePayload(nodes', ShiftedBack(nodes, hole, order[k], state)) &&
                LinksOf(nodes', head', tail') == Adopt(l, hole)
    ensures Gap(hash, nodes', capacity, order[k := hole], head', tail', order[k]) && InRange(order[k := hole], |nodes'|)
    ensures Elements(nodes', order[k := hole]) == Elements(nodes, order)
  {
    var from, t := order[k], Ideals(hash, nodes, capacity);
    ShiftedLinks(nodes, capacity, order, head, tail, hole, k, state);
    ShiftMovesHole(t, hole, f);
    TableShifted(hash, nodes, capacity, hole, from, state, nodes');
    DistinctWithout(order, k);
    RenamedMembers(order, k, hole);
    FromUnlinked(nodes, capacity, order, head, tail, hole, k, state, nodes', head', tail');
    hide LinksOf, Links.List, Elements, Adopt;
    MovedThreaded(nodes, capacity, order, head, tail, hole, k, hole,
                  LinksOf(ShiftedBack(nodes, hole, from, state), head, tail),
                  nodes', head', tail', from);
  }

  lemma TableShifted<T>(hash: T -> nat, nodes: seq<Bucket<T>>, capacity: nat, hole: int, from: int, state: nat,
                        nodes': seq<Bucket<T>>)
    requires 0 <= hole < capacity < |nodes| && 0 <= from < capacity && from != hole && nodes[from].state != 0
    requires SamePayload(nodes', ShiftedBack(nodes, hole, from, state))
    requires Distance(Ideals(hash, nodes, capacity)[from], hole, capacity)
             == Probe(Ideals(hash, nodes, capacity), from) - 1 >= 0
    requires state == StateFor(Probe(Ideals(hash, nodes, capacity), from) - 1)
    requires forall j :: 0 <= j < capacity && j != hole ==> StateOk(hash, nodes[j], capacity, j)
    ensures Ideals(hash, nodes', capacity) == Ideals(hash, nodes, capacity)[hole := Ideals(hash, nodes, capacity)[from]]
    ensures forall j :: 0 <= j < capacity && j != from ==> StateOk(hash, nodes'[j], capacity, j)
  {
    assert state != 0;
  }

  lemma FromUnlinked<T>(nodes: seq<Bucket<T>>, capacity: nat, order: seq<int>, head: int, tail: int, hole: int, k: nat,
                        state: nat, nodes': seq<Bucket<T>>, head': int, tail': int)
    requires 0 <= hole < capacity < |nodes| == |nodes'| && k < |order| && 0 <= order[k] < capacity &&
             order[k] !in Without(order, k) + [hole]
    requires var l := LinksOf(ShiftedBack(nodes, hole, order[k], state), head, tail);
             LinksOf(nodes', head', tail').SameOutside(l, Without(order, k) + [hole]) &&
               l.previous[order[k]] == NULL && l.next[order[k]] == NULL
    ensures nodes'[order[k]].previous == NULL && nodes'[order[k]].next == NULL
  {
    var l' := LinksOf(nodes', head', tail');
    assert l'.Has(order[k]) && l'.previous[order[k]] == nodes'[order[k]].previous &&
           l'.next[order[k]] == nodes'[order[k]].next;
  }

  lemma GapClosed<T>(hash: T -> nat, equals: (T, T) -> bool, nodes: seq<Bucket<T>>, capacity: nat, order: seq<int>,
                     head: int, tail: int, hole: int)
    requires Gap(hash, nodes, capacity, order, head, tail, hole) && InRange(order, |nodes|)
    requires Probe(Ideals(hash, nodes, capacity), Next(hole, capacity)) <= 0 &&
             NoDuplicates(equals, Elements(nodes, order))
    ensures Settled(hash, equals, nodes[hole := nodes[hole].(state := 0)], capacity, order, head, tail)
    ensures Elements(nodes[hole := nodes[hole].(state := 0)], order) == Elements(nodes, order)
  {
    var b := nodes[hole].(state := 0);
    ClosedThreaded(nodes, capacity, order, head, tail, hole);
    IdealsUpdate(hash, nodes, capacity, hole, b);
    ClosingHole(Ideals(hash, nodes, capacity), hole);
    hide LinksOf, Links.List, Elements;
    var nodes' := nodes[hole := b];
    assert forall j :: 0 <= j < capacity ==> StateOk(hash, nodes'[j], capacity, j);
  }

  // ----- Where values go during a deletion -----

  /** After deleting from bucket `i`, every used bucket holds what it did, or what the next one did. */
  ghost predicate MovedBack<T>(was: seq<Bucket<T>>, nodes: seq<Bucket<T>>, capacity: nat, i: int) {
    |was| == |nodes| == capacity + 1 &&
    forall j :: 0 <= j < capacity && nodes[j].state != 0 ==>
                  || (j != i && was[j].state != 0 && nodes[j].slot == was[j].slot)
                  || (j != Previous(i, capacity) && was[Next(j, capacity)].state != 0 &&
                      nodes[j].slot == was[Next(j, capacity)].slot)
  }

  /** The shift has come as far as `hole`: it moved every value before that, and none after it. */
  ghost predicate MovedUpTo<T>(was: seq<Bucket<T>>, nodes: seq<Bucket<T>>, capacity: nat, i: int, hole: int) {
    |was| == |nodes| == capacity + 1 &&
    forall j :: 0 <= j < capacity ==>
                  && (Distance(i, j, capacity) > Distance(i, hole, capacity) ==>
                      nodes[j].state == was[j].state && nodes[j].slot == was[j].slot)
                  && (Distance(i, j, capacity) < Distance(i, hole, capacity) ==>
                        was[Next(j, capacity)].state != 0 && nodes[j].slot == was[Next(j, capacity)].slot)
  }

  lemma MovedNone<T>(was: seq<Bucket<T>>, nodes: seq<Bucket<T>>, capacity: nat, i: int)
    requires SamePayload(nodes, was) && |was| == capacity + 1 && 0 <= i < capacity
    ensures MovedUpTo(was, nodes, capacity, i, i)
  {
  }

  lemma MovedFurther<T>(was: seq<Bucket<T>>, nodes: seq<Bucket<T>>, nodes': seq<Bucket<T>>, capacity: nat, i: int,
                        hole: int, f: int, state: nat)
    requires MovedUpTo(was, nodes, capacity, i, hole) && 0 <= i < capacity && 0 <= hole < capacity && 0 <= f < capacity
    requires Distance(i, hole, capacity) < Distance(i, f, capacity) && was[f].state == 0 &&
             nodes[Next(hole, capacity)].state != 0
    requires SamePayload(nodes', ShiftedBack(nodes, hole, Next(hole, capacity), state))
    ensures MovedUpTo(was, nodes', capacity, i, Next(hole, capacity))
    ensures Distance(i, Next(hole, capacity), capacity) == Distance(i, hole, capacity) + 1 < Distance(i, f, capacity)
  {
    assert Distance(i, Next(hole, capacity), capacity) == Distance(i, hole, capacity) + 1;
  }

  lemma MovedAll<T>(was: seq<Bucket<T>>, nodes: seq<Bucket<T>>, nodes': seq<Bucket<T>>, capacity: nat, i: int,
                    hole: int, f: int)
    requires MovedUpTo(was, nodes, capacity, i, hole) && 0 <= i < capacity && 0 <= hole < capacity && 0 <= f < capacity
    requires Distance(i, hole, capacity) < Distance(i, f, capacity) && nodes' == nodes[hole := nodes[hole].(state := 0)]
    ensures MovedBack(was, nodes', capacity, i)
  {
    forall j | 0 <= j < capacity && nodes'[j].state != 0
      ensures || (j != i && was[j].state != 0 && nodes'[j].slot == was[j].slot)
              || (j != Previous(i, capacity) && was[Next(j, capacity)].state != 0 &&
                  nodes'[j].slot == was[Next(j, capacity)].slot)
    {
      assert j != hole && nodes'[j] == nodes[j];
    }
  }

  lemma GapNext<T>(hash: T -> nat, was: seq<Bucket<T>>, nodes: seq<Bucket<T>>, capacity: nat, order: seq<int>,
                   head: int, tail: int,
                   i: int, hole: int, f: int)
    requires Gap(hash, nodes, capacity, order, head, tail, hole) && MovedUpTo(was, nodes, capacity, i, hole)
    requires 0 <= i < capacity && 0 <= f < capacity && was[f].state == 0 &&
             Distance(i, hole, capacity) < Distance(i, f, capacity)
    ensures var from := Next(hole, capacity);
            && from != hole && StateOk(hash, nodes[from], capacity, from)
            && (nodes[from].state == 0 ==> Probe(Ideals(hash, nodes, capacity), from) <= 0)
    ensures f != hole && nodes[f].state == 0
  {
  }

  lemma WithoutNoDuplicates<T>(hash: T -> nat, equals: (T, T) -> bool, nodes: seq<Bucket<T>>, capacity: nat,
                               order: seq<int>, head: int, tail: int)
    requires Settled(hash, equals, nodes, capacity, order, head, tail) && InRange(order, |nodes|)
    ensures forall k: nat :: k < |order| ==> NoDuplicates(equals, Without(Elements(nodes, order), k))
  {
  }

  /**
   * Any run of operations, with memory or without, followed by a walk along the list in each direction:
   * every response is the one the model gives, and the values are the model's.
   */
  method Run<T(0, !new)>(hash: T -> nat, equals: (T, T) -> bool, ops: seq<Operation<T>>)
    returns (responses: seq<Response<T>>, values: seq<T>, reversed: seq<T>)
    requires LawfulTraits(hash, equals)
    ensures responses == AfterAll(equals, ops).1
    ensures values == AfterAll(equals, ops).0.contents && NoDuplicates(equals, values)
    ensures |reversed| == |values| && forall k :: 0 <= k < |values| ==> reversed[k] == values[|values| - 1 - k]
  {
    hide LawfulTraits, NoDuplicates, After, AfterAll;
    var table := new HashTable<T>(hash, equals);
    responses := [];
    AfterNone(equals);
    assert ops[..0] == [];
    for i := 0 to |ops|
      invariant table.Valid() && fresh(table) && fresh(table.buckets) && table.equals == equals
      invariant AfterAll(equals, ops[..i]) == (Model(table.Contents(), table.buckets.Length), responses)
    {
      AfterMore(equals, ops, i);
      var response := Perform(table, ops[i]);
      responses := responses + [response];
    }
    assert ops[..|ops|] == ops;
    values := table.Values();
    reversed := table.ValuesInReverse();
  }

  lemma AfterNone<T>(equals: (T, T) -> bool)
    ensures AfterAll<T>(equals, []) == (Model([], 0), [])
  {
  }

  lemma AfterMore<T>(equals: (T, T) -> bool, ops: seq<Operation<T>>, i: nat)
    requires i < |ops|
    ensures var (before, responses) := AfterAll(equals, ops[..i]);
            var (after, response) := After(equals, before, ops[i]);
            AfterAll(equals, ops[..i + 1]) == (after, responses + [response])
  {
    hide After;
    assert ops[..i + 1][..i] == ops[..i];
  }

  method Perform<T(0, !new)>(table: HashTable<T>, op: Operation<T>) returns (response: Response<T>)
    requires table.Valid()
    modifies table, table.buckets
    ensures table.Valid() && (table.buckets == old(table.buckets) || fresh(table.buckets))
    ensures (Model(table.Contents(), table.buckets.Length), response)
         == After(table.equals, Model(old(table.Contents()), old(table.buckets.Length)), op)
  {
    hide LawfulTraits, Settled, NoDuplicates, Missing, NotMatching, AfterSet, AfterRemove, OutcomeOfSet;
    SizeIsLength(table);
    match op
    case Set(value, behavior, slack, outOfMemory) =>
      var result := table.TrySet(value, behavior, slack, outOfMemory);
      response := if result.Success? then Stored(result.value) else NoMemory;
    case Contains(value) =>
      var found := table.Contains(value);
      MissingMeans(table.equals, table.Contents(), value);
      response := Said(found);
    case Remove(value) =>
      var found := table.Remove(value);
      response := Said(found);
    case RemoveAllMatching(matches) =>
      var removed := table.RemoveAllMatching(matches);
      response := Said(removed);
    case EnsureCapacity(capacity, slack, outOfMemory) =>
      var ok := table.TryEnsureCapacity(capacity, slack, outOfMemory);
      response := if ok then Said(true) else NoMemory;
    case TakeFirst =>
      response := Nothing;
      if table.size != 0 {
        var value := table.TakeFirst();
        response := Took(value);
      }
    case TakeLast =>
      response := Nothing;
      if table.size != 0 {
        var value := table.TakeLast();
        response := Took(value);
      }
  }

  lemma SizeIsLength<T(0, !new)>(table: HashTable<T>)
    requires table.Valid()
    ensures |table.Contents()| == table.size
  {
  }

  lemma MissingMeans<T>(equals: (T, T) -> bool, s: seq<T>, value: T)
    ensures Missing(equals, s, value) <==> !exists k :: 0 <= k < |s| && equals(s[k], value)
  {
  }

  // ----- Public operations -----

  lemma EmptySettled<T>(hash: T -> nat, equals: (T, T) -> bool, nodes: seq<Bucket<T>>, capacity: nat)
    requires |nodes| == capacity + 1
    requires forall i :: 0 <= i < capacity ==> nodes[i].state == 0 && nodes[i].previous == NULL && nodes[i].next == NULL
    ensures Settled(hash, equals, nodes, capacity, [], NULL, NULL) && Elements(nodes, []) == []
  {
    var t := Ideals(hash, nodes, capacity);
    assert forall i :: 0 <= i < |t| ==> Probe(t, i) == -1;
    assert forall i :: 0 <= i < capacity ==> StateOk(hash, nodes[i], capacity, i);
  }

  lemma SettledNoDuplicates<T>(hash: T -> nat, equals: (T, T) -> bool, nodes: seq<Bucket<T>>, capacity: nat,
                               order: seq<int>, head: int, tail: int)
    requires Settled(hash, equals, nodes, capacity, order, head, tail)
    ensures InRange(order, |nodes|) && NoDuplicates(equals, Elements(nodes, order))
  {
  }

  lemma WalkEnds<T>(hash: T -> nat, equals: (T, T) -> bool, nodes: seq<Bucket<T>>, capacity: nat, order: seq<int>,
                    head: int, tail: int)
    requires Settled(hash, equals, nodes, capacity, order, head, tail)
    ensures head == At(order, 0) && tail == At(order, |order| - 1)
    ensures head == NULL <==> order == []
    ensures tail == NULL <==> order == []
  {
  }

  /** What a walk along the links meets in place `k`. */
  lemma WalkStep<T>(hash: T -> nat, equals: (T, T) -> bool, nodes: seq<Bucket<T>>, capacity: nat, order: seq<int>,
                    head: int, tail: int, k: nat)
    requires Settled(hash, equals, nodes, capacity, order, head, tail) && k < |order| && InRange(order, |nodes|)
    ensures 0 <= At(order, k) < capacity && nodes[At(order, k)].state != 0 &&
            nodes[At(order, k)].slot == Elements(nodes, order)[k]
    ensures nodes[At(order, k)].next == At(order, k + 1) && nodes[At(order, k)].previous == At(order, k - 1)
    ensures At(order, k + 1) == NULL <==> k + 1 == |order|
    ensures At(order, k - 1) == NULL <==> k == 0
  {
    var l := LinksOf(nodes, head, tail);
    assert l.Linked(order, k) && order[k] in order;
    assert k > 0 ==> l.Linked(order, k - 1);
    assert k + 1 < |order| ==> l.Linked(order, k + 1);
  }

  lemma RemovedIsMissing<T(!new)>(hash: T -> nat, equals: (T, T) -> bool, s: seq<T>, value: T, k: nat)
    requires LawfulTraits(hash, equals) && NoDuplicates(equals, s) && k < |s| && equals(s[k], value)
    ensures Missing(equals, Without(s, k), value)
  {
    var rest := Without(s, k);
    forall j | 0 <= j < |rest|
      ensures !equals(rest[j], value)
    {
      var i := if j < k then j else j + 1;
      assert rest[j] == s[i];
      assert if i < k then !equals(s[i], s[k]) else !equals(s[k], s[i]);
    }
  }

  lemma SameIndex<T(!new)>(hash: T -> nat, equals: (T, T) -> bool, s: seq<T>, j: nat, k: nat)
    requires LawfulTraits(hash, equals) && NoDuplicates(equals, s) && j < |s| && k < |s| && s[j] == s[k]
    ensures j == k
  {
    assert equals(s[j], s[k]) && equals(s[k], s[j]);
  }

  ghost predicate NoneMatchBefore<T>(matches: T -> bool, nodes: seq<Bucket<T>>, capacity: nat, i: int) {
    |nodes| == capacity + 1 && i <= capacity && forall j :: 0 <= j < i ==>
      nodes[j].state == 0 || !matches(nodes[j].slot)
  }

  /** A deletion moves no unexamined value to an examined place. */
  lemma NoneMatchAfterDelete<T>(matches: T -> bool, was: seq<Bucket<T>>, nodes: seq<Bucket<T>>, capacity: nat, i: int)
    requires 0 <= i < capacity && MovedBack(was, nodes, capacity, i) && NoneMatchBefore(matches, was, capacity, i)
    ensures NoneMatchBefore(matches, nodes, capacity, i)
  {
    forall j | 0 <= j < i
      ensures nodes[j].state == 0 || !matches(nodes[j].slot)
    {
      if nodes[j].state != 0 && nodes[j].slot != was[j].slot {
        assert Next(j, capacity) < i;
      }
    }
  }

  lemma NoneMatchAtAll<T>(hash: T -> nat, equals: (T, T) -> bool, matches: T -> bool, nodes: seq<Bucket<T>>,
                          capacity: nat,
                          order: seq<int>, head: int, tail: int)
    requires Settled(hash, equals, nodes, capacity, order, head, tail) && InRange(order, |nodes|)
    requires NoneMatchBefore(matches, nodes, capacity, capacity)
    ensures forall k :: 0 <= k < |order| ==> !matches(Elements(nodes, order)[k])
  {
    forall k | 0 <= k < |order|
      ensures !matches(Elements(nodes, order)[k])
    {
      WalkStep(hash, equals, nodes, capacity, order, head, tail, k);
    }
  }
}
