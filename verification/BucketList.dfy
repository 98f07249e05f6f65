/** The insertion-order list threaded through the buckets of an ordered hash table. */
module BucketList {

  const NULL: int := -1

  /** Node `k` of the list, or NULL beyond either end. */
  function At(order: seq<int>, k: int): int {
    if 0 <= k < |order| then order[k] else NULL
  }

  predicate Distinct(order: seq<int>) {
    forall j, k :: 0 <= j < k < |order| ==> order[j] != order[k]
  }

  /** The `previous` and `next` fields of all nodes, and the ends of the list. Links are node indices or NULL. */
  datatype Links = Links(previous: seq<int>, next: seq<int>, head: int, tail: int) {

    predicate Has(i: int) {
      0 <= i < |previous| && 0 <= i < |next|
    }

    predicate HasOrNull(i: int) {
      i == NULL || Has(i)
    }

    function SetNext(i: int, x: int): Links
      requires Has(i)
    {
      this.(next := next[i := x])
    }

    function SetPrevious(i: int, x: int): Links
      requires Has(i)
    {
      this.(previous := previous[i := x])
    }

    /** Following `next` from `head` visits `order`, and following `previous` from `tail` visits it backwards. */
    predicate List(order: seq<int>) {
      && Distinct(order)
      && head == At(order, 0) && tail == At(order, |order| - 1)
      && forall k :: 0 <= k < |order| ==> Linked(order, k)
    }

    /** Node `k` of `order` points at its neighbours. */
    predicate Linked(order: seq<int>, k: nat)
      requires k < |order|
    {
      Has(order[k]) && previous[order[k]] == At(order, k - 1) && next[order[k]] == At(order, k + 1)
    }

    /** Nodes outside `order` have the links they have in `other`. */
    ghost predicate SameOutside(other: Links, order: seq<int>) {
      |previous| == |other.previous| && |next| == |other.next| &&
      forall i :: Has(i) && i !in order ==> previous[i] == other.previous[i] && next[i] == other.next[i]
    }
  }

  /** A node of the list points at nodes or NULL, and only its own neighbours point at it. */
  lemma Neighbours(l: Links, order: seq<int>, k: nat, i: nat)
    requires l.List(order) && k < |order| && i < |order|
    ensures l.Has(order[k]) && l.HasOrNull(l.previous[order[k]]) && l.HasOrNull(l.next[order[k]])
    ensures l.Linked(order, k) && l.Linked(order, i)
    ensures l.previous[order[k]] == NULL <==> k == 0
    ensures l.next[order[k]] == NULL <==> k + 1 == |order|
    ensures order[i] == order[k] <==> i == k
    ensures l.previous[order[k]] == order[i] <==> k == i + 1
    ensures l.next[order[k]] == order[i] <==> k == i - 1
  {
    assert l.Linked(order, k) && l.Linked(order, i);
    assert k > 0 ==> l.Linked(order, k - 1);
    assert k + 1 < |order| ==> l.Linked(order, k + 1);
  }

  lemma DistinctWithout(order: seq<int>, k: nat)
    requires Distinct(order) && k < |order|
    ensures Distinct(Without(order, k)) && order[k] !in Without(order, k)
    ensures forall j :: 0 <= j < |order| && j != k ==> order[j] != order[k]
  {
    var rest := Without(order, k);
    forall i, j | 0 <= i < j < |rest|
      ensures rest[i] != rest[j]
    {
      assert rest[i] == order[if i < k then i else i + 1] && rest[j] == order[if j < k then j else j + 1];
    }
  }

  lemma DistinctRenamed(order: seq<int>, k: nat, b: int)
    requires Distinct(order) && k < |order| && b !in order
    ensures Distinct(order[k := b])
    ensures forall j :: 0 <= j < |order| ==> order[j] != b && (j != k ==> order[j] != order[k])
  {
    assert forall j :: 0 <= j < |order| ==> order[j] in order;
  }

  // ----- Appending -----

  /** update_collection_for_new_bucket */
  function Append(l: Links, b: int): Links
    requires l.Has(b) && (l.head != NULL ==> l.Has(l.tail))
  {
    if l.head == NULL then l.(head := b, tail := b)
    else l.SetPrevious(b, l.tail).SetNext(l.tail, b).(tail := b)
  }

  lemma AppendList(l: Links, order: seq<int>, b: int)
    requires l.List(order) && b !in order && l.Has(b) && l.next[b] == NULL && (order == [] ==> l.previous[b] == NULL)
    ensures l.head != NULL ==> l.Has(l.tail)
    ensures Append(l, b).List(order + [b]) && Append(l, b).SameOutside(l, order + [b])
  {
    var n, longer := |order|, order + [b];
    if n > 0 {
      assert l.Linked(order, n - 1) && l.Linked(order, 0) && order[n - 1] in order;
    }
    var d := Append(l, b);
    forall j: nat | j < |longer|
      ensures d.Linked(longer, j)
    {
      if j < n {
        assert order[j] in order;
        Neighbours(l, order, n - 1, j);
      }
    }
  }

  // ----- Removing -----

  /** The unlinking at the start of delete_bucket */
  function Detach(l: Links, b: int): Links
    requires l.Has(b) && l.HasOrNull(l.previous[b]) && l.HasOrNull(l.next[b])
  {
    var previous, next := l.previous[b], l.next[b];
    var l1 := if previous != NULL then l.SetNext(previous, next) else l.(head := next);
    var l2 := if next != NULL then l1.SetPrevious(next, previous) else l1.(tail := previous);
    l2.SetPrevious(b, NULL).SetNext(b, NULL)
  }

  function Without<A>(s: seq<A>, k: nat): seq<A>
    requires k < |s|
  {
    s[..k] + s[k + 1..]
  }

  lemma DetachList(l: Links, order: seq<int>, k: nat)
    requires l.List(order) && k < |order|
    ensures l.Has(order[k])
    ensures var b := order[k];
            && l.HasOrNull(l.previous[b]) && l.HasOrNull(l.next[b])
            && Detach(l, b).List(Without(order, k)) && Detach(l, b).SameOutside(l, order)
            && Detach(l, b).previous[b] == NULL && Detach(l, b).next[b] == NULL
  {
    var b, rest := order[k], Without(order, k);
    Neighbours(l, order, k, k);
    DistinctWithout(order, k);
    hide Distinct;
    var d := Detach(l, b);
    forall j: nat | j < |rest|
      ensures d.Linked(rest, j)
    {
      var i := if j < k then j else j + 1;
      assert rest[j] == order[i] && order[i] != b;
      Neighbours(l, order, k, i);
    }
    forall i | l.Has(i) && i !in order
      ensures d.previous[i] == l.previous[i] && d.next[i] == l.next[i]
    {
      assert l.previous[b] in order || l.previous[b] == NULL;
      assert l.next[b] in order || l.next[b] == NULL;
    }
  }

  // ----- Renaming one node -----

  /** update_bucket_neighbors */
  function Adopt(l: Links, b: int): Links
    requires l.Has(b) && l.HasOrNull(l.previous[b]) && l.HasOrNull(l.next[b])
  {
    var previous, next := l.previous[b], l.next[b];
    var l1 := if previous != NULL then l.SetNext(previous, b) else l.(head := b);
    if next != NULL then l1.SetPrevious(next, b) else l1.(tail := b)
  }

  /** `l` is `was` with the links of node `left` copied to `right`; those of `left` no longer matter. */
  ghost predicate Copied(was: Links, l: Links, left: int, right: int) {
    && |l.previous| == |was.previous| && |l.next| == |was.next| && l.head == was.head && l.tail == was.tail
    && l.Has(left) && l.Has(right)
    && l.previous[right] == was.previous[left] && l.next[right] == was.next[left]
    && forall i :: l.Has(i) && i != left && i != right ==> l.previous[i] == was.previous[i] && l.next[i] == was.next[i]
  }

  lemma AdoptList(was: Links, l: Links, order: seq<int>, k: nat, b: int)
    requires was.List(order) && k < |order| && b !in order && Copied(was, l, order[k], b)
    ensures l.HasOrNull(l.previous[b]) && l.HasOrNull(l.next[b])
    ensures Adopt(l, b).List(order[k := b]) && Adopt(l, b).SameOutside(l, Without(order, k) + [b])
  {
    Neighbours(was, order, k, k);
    DistinctRenamed(order, k, b);
    hide Distinct;
    var renamed, d := order[k := b], Adopt(l, b);
    forall j: nat | j < |order|
      ensures d.Linked(renamed, j)
    {
      assert order[j] in order;
      Neighbours(was, order, k, j);
    }
    forall i | l.Has(i) && i !in Without(order, k) + [b]
      ensures d.previous[i] == l.previous[i] && d.next[i] == l.next[i]
    {
      assert k > 0 ==> order[k - 1] in Without(order, k);
      assert k + 1 < |order| ==> Without(order, k)[k] == order[k + 1];
    }
  }

  // ----- Exchanging two nodes -----

  function Exchange(x: int, left: int, right: int): int {
    if x == left then right else if x == right then left else x
  }

  function PointBackAtLeft(l: Links, left: int, right: int): Links
    requires l.Has(left) && l.Has(right) && l.HasOrNull(l.previous[left])
  {
    if l.previous[left] == NULL then l
    else
      var l' := if l.previous[left] == left then l.SetPrevious(left, right) else l;
      l'.SetNext(l'.previous[left], left)
  }

  function PointForwardAtLeft(l: Links, left: int, right: int): Links
    requires l.Has(left) && l.Has(right) && l.HasOrNull(l.next[left])
  {
    if l.next[left] == NULL then l
    else
      var l' := if l.next[left] == left then l.SetNext(left, right) else l;
      l'.SetPrevious(l'.next[left], left)
  }

  function PointAtRight(l: Links, left: int, right: int): Links
    requires l.Has(left) && l.Has(right) && l.HasOrNull(l.previous[right]) && l.HasOrNull(l.next[right])
  {
    var l1 := if l.previous[right] != NULL && l.previous[right] != left then l.SetNext(l.previous[right], right) else l;
    if l1.next[right] != NULL && l1.next[right] != left then l1.SetPrevious(l1.next[right], right) else l1
  }

  lemma BackKeepsLinks(l: Links, left: int, right: int)
    requires l.Has(left) && l.Has(right) && l.HasOrNull(l.previous[left]) && l.HasOrNull(l.next[left])
    requires l.HasOrNull(l.previous[right]) && l.HasOrNull(l.next[right])
    ensures var r := PointBackAtLeft(l, left, right);
            && r.Has(left) && r.Has(right) && |r.previous| == |l.previous| && |r.next| == |l.next|
            && r.HasOrNull(r.next[left]) && r.HasOrNull(r.previous[right]) && r.HasOrNull(r.next[right])
  {
  }

  lemma ForwardKeepsLinks(l: Links, left: int, right: int)
    requires l.Has(left) && l.Has(right) && l.HasOrNull(l.next[left]) && l.HasOrNull(l.previous[right]) &&
             l.HasOrNull(l.next[right])
    ensures var r := PointForwardAtLeft(l, left, right);
            && r.Has(left) && r.Has(right) && |r.previous| == |l.previous| && |r.next| == |l.next|
            && r.HasOrNull(r.previous[right]) && r.HasOrNull(r.next[right])
  {
  }

  /** update_collection_for_swapped_buckets, after the two nodes' contents were copied or exchanged */
  function SwapLinks(l: Links, left: int, right: int): Links
    requires l.Has(left) && l.Has(right)
    requires l.HasOrNull(l.previous[left]) && l.HasOrNull(l.next[left])
    requires l.HasOrNull(l.previous[right]) && l.HasOrNull(l.next[right])
  {
    var l0 := l.(head := Exchange(l.head, left, right), tail := Exchange(l.tail, left, right));
    PointAtRight(PointForwardAtLeft(PointBackAtLeft(l0, left, right), left, right), left, right)
  }

  /** With one node copied to another, the copy takes its place in the list. */
  lemma SwapCopied(was: Links, l: Links, order: seq<int>, k: nat, right: int)
    requires was.List(order) && k < |order| && right !in order && Copied(was, l, order[k], right)
    requires l.previous[order[k]] == was.previous[order[k]] && l.next[order[k]] == was.next[order[k]]
    ensures l.HasOrNull(l.previous[right]) && l.HasOrNull(l.next[right])
    ensures SwapLinks(l, order[k], right) == Adopt(l, right)
    ensures SwapLinks(l, order[k], right).List(order[k := right])
  {
    Neighbours(was, order, k, k);
    assert order[k] in order && (k > 0 ==> order[k - 1] in order) && (k + 1 < |order| ==> order[k + 1] in order);
    Neighbours(was, order, 0, k);
    Neighbours(was, order, |order| - 1, k);
    AdoptList(was, l, order, k, right);
    hide Distinct;
    var left, a, b := order[k], SwapLinks(l, order[k], right), Adopt(l, right);
    assert a.next == b.next;
    assert a.previous == b.previous;
  }

  /** `l` is `was` with the links of two nodes exchanged. */
  ghost predicate Exchanged(was: Links, l: Links, left: int, right: int) {
    && |l.previous| == |was.previous| && |l.next| == |was.next| && l.head == was.head && l.tail == was.tail
    && l.Has(left) && l.Has(right)
    && l.previous[right] == was.previous[left] && l.next[right] == was.next[left]
    && l.previous[left] == was.previous[right] && l.next[left] == was.next[right]
    && forall i :: l.Has(i) && i != left && i != right ==> l.previous[i] == was.previous[i] && l.next[i] == was.next[i]
  }

  /** What SwapLinks leaves in every node, given that two nodes were exchanged. */
  ghost predicate Swapped(l: Links, d: Links, left: int, right: int)
    requires l.Has(left) && l.Has(right)
  {
    && |d.previous| == |l.previous| && |d.next| == |l.next|
    && d.head == Exchange(l.head, left, right) && d.tail == Exchange(l.tail, left, right)
    && d.previous[left] == Exchange(l.previous[left], left, right) &&
       d.next[left] == Exchange(l.next[left], left, right)
    && d.previous[right] == Exchange(l.previous[right], left, right) &&
       d.next[right] == Exchange(l.next[right], left, right)
    && forall x :: l.Has(x) && x != left && x != right ==>
         && d.next[x] == (if x == l.previous[left] then left else if x == l.previous[right] then right else l.next[x])
         && d.previous[x] == (if x == l.next[left] then left else if x == l.next[right] then right else l.previous[x])
  }

  /** Two nodes of a list whose contents were exchanged: a node that was the other's neighbour points at itself. */
  predicate Exchangeable(l: Links, left: int, right: int) {
    && l.Has(left) && l.Has(right) && left != right
    && l.HasOrNull(l.previous[left]) && l.HasOrNull(l.next[left])
    && l.HasOrNull(l.previous[right]) && l.HasOrNull(l.next[right])
    && l.previous[left] != right && l.next[left] != right && l.previous[right] != left && l.next[right] != left
    && (l.previous[left] == left <==> l.next[right] == right)
    && (l.next[left] == left <==> l.previous[right] == right)
    && (l.previous[left] == l.previous[right] ==> l.previous[left] == NULL)
    && (l.next[left] == l.next[right] ==> l.next[left] == NULL)
  }

  /** A link set at a place, if there is one. */
  function Pointed(links: seq<int>, at: int, x: int): (r: seq<int>)
    requires at == NULL || 0 <= at < |links|
    ensures |r| == |links|
    ensures forall i :: 0 <= i < |links| ==> r[i] == if i == at then x else links[i]
  {
    if at == NULL then links else links[at := x]
  }

  lemma BackPoints(l: Links, left: int, right: int)
    requires l.Has(left) && l.Has(right) && l.HasOrNull(l.previous[left]) && l.previous[left] != right
    ensures var r, p := PointBackAtLeft(l, left, right), Exchange(l.previous[left], left, right);
            && r.head == l.head && r.tail == l.tail && l.HasOrNull(p)
            && r.previous == l.previous[left := p] && r.next == Pointed(l.next, p, left)
  {
    if l.previous[left] == NULL {
      assert l.previous[left := NULL] == l.previous;
    }
  }

  lemma ForwardPoints(l: Links, left: int, right: int)
    requires l.Has(left) && l.Has(right) && l.HasOrNull(l.next[left]) && l.next[left] != right
    ensures var r, n := PointForwardAtLeft(l, left, right), Exchange(l.next[left], left, right);
            && r.head == l.head && r.tail == l.tail && l.HasOrNull(n)
            && r.next == l.next[left := n] && r.previous == Pointed(l.previous, n, left)
  {
    if l.next[left] == NULL {
      assert l.next[left := NULL] == l.next;
    }
  }

  /** The left node's neighbours, which may be the right node, point at the left one, and it at them. */
  lemma LeftPoints(l: Links, left: int, right: int)
    requires Exchangeable(l, left, right)
    ensures var p, n := Exchange(l.previous[left], left, right), Exchange(l.next[left], left, right);
            && PointForwardAtLeft.requires(PointBackAtLeft(l, left, right), left, right)
            && var r := PointForwardAtLeft(PointBackAtLeft(l, left, right), left, right);
               && r.head == l.head && r.tail == l.tail && l.HasOrNull(p) && l.HasOrNull(n)
               && r.previous == Pointed(l.previous[left := p], n, left) && r.next == Pointed(l.next, p, left)[left := n]
  {
    hide PointBackAtLeft, PointForwardAtLeft, Pointed;
    BackPoints(l, left, right);
    ForwardPoints(PointBackAtLeft(l, left, right), left, right);
  }

  lemma RightPoints(l: Links, left: int, right: int)
    requires l.Has(left) && l.Has(right) && l.HasOrNull(l.previous[right]) && l.HasOrNull(l.next[right])
    requires l.previous[right] != right && l.next[right] != right
    ensures var r, p, n := PointAtRight(l, left, right), l.previous[right], l.next[right];
            && r.head == l.head && r.tail == l.tail
            && r.next == Pointed(l.next, if p == left then NULL else p, right)
            && r.previous == Pointed(l.previous, if n == left then NULL else n, right)
  {
  }

  /** What the links of all nodes are after that. */
  lemma LinksSwapped(l: Links, left: int, right: int, d: Links)
    requires Exchangeable(l, left, right)
    requires |d.previous| == |l.previous| && |d.next| == |l.next|
    requires var p, n := Exchange(l.previous[left], left, right), Exchange(l.next[left], left, right);
             var p', n' := Exchange(l.previous[right], left, right), Exchange(l.next[right], left, right);
             && (forall x :: 0 <= x < |d.next| ==>
                   d.next[x] == if x == p' && p' != left then right else if x == left then n
                                else if x == p then left else l.next[x])
             && (forall x :: 0 <= x < |d.previous| ==>
                   d.previous[x] == if x == n' && n' != left then right else if x == n then left
                                    else if x == left then p else l.previous[x])
    requires d.head == Exchange(l.head, left, right) && d.tail == Exchange(l.tail, left, right)
    ensures Swapped(l, d, left, right)
  {
  }

  lemma SwapPointwise(l: Links, left: int, right: int)
    requires Exchangeable(l, left, right)
    ensures Swapped(l, SwapLinks(l, left, right), left, right)
  {
    hide PointBackAtLeft, PointForwardAtLeft, PointAtRight, Pointed, Swapped;
    var l0 := l.(head := Exchange(l.head, left, right), tail := Exchange(l.tail, left, right));
    LeftPoints(l0, left, right);
    var b := PointForwardAtLeft(PointBackAtLeft(l0, left, right), left, right);
    assert b.previous[right] == Exchange(l.previous[right], left, right);
    assert b.next[right] == Exchange(l.next[right], left, right);
    RightPoints(b, left, right);
    LinksSwapped(l, left, right, PointAtRight(b, left, right));
  }

  lemma SwappedNode(was: Links, l: Links, d: Links, order: seq<int>, j: nat, k: nat, i: nat)
    requires was.List(order) && j < |order| && k < |order| && j != k && i < |order|
    requires Exchanged(was, l, order[j], order[k]) && Swapped(l, d, order[j], order[k])
    ensures d.Linked(order[j := order[k]][k := order[j]], i)
  {
    var left, right, swapped := order[j], order[k], order[j := order[k]][k := order[j]];
    Neighbours(was, order, i, j);
    Neighbours(was, order, i, k);
    Neighbours(was, order, j, k);
    AtSwapped(order, j, k, i - 1);
    AtSwapped(order, j, k, i + 1);
    hide Distinct, At;
    if i != j && i != k {
      var x := order[i];
      Neighbours(was, order, j, i);
      Neighbours(was, order, k, i);
      assert l.next[x] == was.next[x] && l.previous[x] == was.previous[x];
    }
  }

  lemma AtSwapped(order: seq<int>, j: nat, k: nat, m: int)
    requires Distinct(order) && j < |order| && k < |order| && j != k && order[j] != NULL && order[k] != NULL
    ensures At(order[j := order[k]][k := order[j]], m) == Exchange(At(order, m), order[j], order[k])
  {
  }

  lemma ExchangedNodes(was: Links, l: Links, order: seq<int>, j: nat, k: nat)
    requires was.List(order) && j < |order| && k < |order| && j != k && Exchanged(was, l, order[j], order[k])
    ensures Exchangeable(l, order[j], order[k]) && was.Has(order[j]) && was.Has(order[k])
  {
    hide Distinct;
    Neighbours(was, order, j, k);
    Neighbours(was, order, k, j);
    Neighbours(was, order, j, j);
    Neighbours(was, order, k, k);
    SameNeighbour(was, order, j, k);
  }

  /** Two nodes of a list have no neighbour on the same side in common. */
  lemma SameNeighbour(l: Links, order: seq<int>, j: nat, k: nat)
    requires l.List(order) && j < |order| && k < |order| && j != k
    ensures l.Has(order[j]) && l.Has(order[k])
    ensures l.previous[order[j]] == l.previous[order[k]] ==> l.previous[order[j]] == NULL
    ensures l.next[order[j]] == l.next[order[k]] ==> l.next[order[j]] == NULL
  {
    assert l.Linked(order, j) && l.Linked(order, k);
  }

  /** With the contents of two nodes exchanged, each takes the other's place in the list. */
  lemma SwapExchanged(was: Links, l: Links, order: seq<int>, j: nat, k: nat)
    requires was.List(order) && j < |order| && k < |order| && j != k && Exchanged(was, l, order[j], order[k])
    ensures l.HasOrNull(l.previous[order[j]]) && l.HasOrNull(l.next[order[j]])
    ensures l.HasOrNull(l.previous[order[k]]) && l.HasOrNull(l.next[order[k]])
    ensures SwapLinks(l, order[j], order[k]).List(order[j := order[k]][k := order[j]])
    ensures Swapped(l, SwapLinks(l, order[j], order[k]), order[j], order[k])
  {
    hide SwapLinks, At;
    var left, right, swapped := order[j], order[k], order[j := order[k]][k := order[j]];
    ExchangedNodes(was, l, order, j, k);
    assert Distinct(swapped);
    AtSwapped(order, j, k, 0);
    AtSwapped(order, j, k, |order| - 1);
    SwapPointwise(l, left, right);
    var d := SwapLinks(l, left, right);
    forall i: nat | i < |order|
      ensures d.Linked(swapped, i)
    {
      SwappedNode(was, l, d, order, j, k, i);
    }
  }
}
