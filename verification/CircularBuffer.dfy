/** A ring buffer that keeps what was read for seeking back, and the LZ77 copy on top of it. */
module CircularBuffers {
  import opened Arithmetic
  import opened Common
  import opened Sequences

  // ----- Positions -----
  //
  // Byte number `a` of everything ever written is kept in slot `a` modulo the capacity.

  function Slot(a: int, capacity: nat): (r: nat)
    requires capacity > 0
    ensures r < capacity
  {
    a % capacity
  }

  lemma SlotOf(a: int, capacity: nat, q: int, r: int)
    requires capacity > 0 && 0 <= r < capacity && a == q * capacity + r
    ensures Slot(a, capacity) == r
  {
    DivModUnique(a, q, r, capacity);
  }

  lemma SlotShift(a: int, b: int, capacity: nat, q: int)
    requires capacity > 0 && b == a + q * capacity
    ensures Slot(b, capacity) == Slot(a, capacity)
  {
    DivMod(a, capacity);
    MulDist(a / capacity, q, capacity);
    SlotOf(b, capacity, a / capacity + q, Slot(a, capacity));
  }

  lemma SlotSmall(a: int, capacity: nat)
    requires 0 <= a < capacity
    ensures Slot(a, capacity) == a
  {
    SlotOf(a, capacity, 0, a);
  }

  /** Going `k` further goes `k` slots further, and starts over at the end. */
  lemma SlotAdd(a: int, k: nat, capacity: nat)
    requires capacity > 0 && k <= capacity
    ensures var s := Slot(a, capacity) + k; Slot(a + k, capacity) == if s < capacity then s else s - capacity
  {
    DivMod(a, capacity);
    var s, q := Slot(a, capacity) + k, a / capacity;
    MulDist(q, 1, capacity);
    SlotOf(a + k, capacity, if s < capacity then q else q + 1, if s < capacity then s else s - capacity);
  }

  /** Fewer than `capacity` bytes in a row occupy different slots. */
  lemma SlotInjective(a: int, b: int, capacity: nat)
    requires capacity > 0 && a < b < a + capacity
    ensures Slot(a, capacity) != Slot(b, capacity)
  {
    SlotAdd(a, b - a, capacity);
  }

  // ----- What the buffer holds -----

  /** The last `kept` bytes of `history` are in the buffer. */
  ghost predicate Holds(buffer: seq<Byte>, history: seq<Byte>, kept: nat) {
    && 0 < |buffer| && kept <= |buffer| && kept <= |history|
    && forall a :: |history| - kept <= a < |history| ==> buffer[Slot(a, |buffer|)] == history[a]
  }

  /** `buffer` with `data` written over it from position `at`. */
  function Overlaid(buffer: seq<Byte>, at: nat, data: seq<Byte>): (r: seq<Byte>)
    requires at + |data| <= |buffer|
    ensures |r| == |buffer|
  {
    buffer[..at] + data + buffer[at + |data|..]
  }

  /** The `n` bytes of `a` from `i` on are those of `b` from `j` on. */
  ghost predicate Same(a: seq<Byte>, i: int, b: seq<Byte>, j: int, n: int) {
    0 <= n && 0 <= i <= |a| - n && 0 <= j <= |b| - n && a[i..i + n] == b[j..j + n]
  }

  lemma SamePart(a: seq<Byte>, i: int, b: seq<Byte>, j: int, n: int, k: nat, m: nat)
    requires Same(a, i, b, j, n) && k + m <= n
    ensures Same(a, i + k, b, j + k, m)
  {
    SliceOfSlice(a, i, i + n, k, k + m);
    SliceOfSlice(b, j, j + n, k, k + m);
  }

  lemma SameBounds(a: seq<Byte>, i: int, b: seq<Byte>, j: int, n: int)
    requires Same(a, i, b, j, n)
    ensures 0 <= n && 0 <= i <= |a| - n && 0 <= j <= |b| - n
  {
  }

  lemma SameInTail(a: seq<Byte>, i: int, b: seq<Byte>, j: int, n: int, start: nat)
    requires Same(a, i, b, j, n) && start <= j
    ensures start <= |b| && Same(a, i, b[start..], j - start, n)
  {
    SliceOfSlice(b, start, |b|, j - start, j - start + n);
    assert b[start..] == b[start..|b|];
  }

  lemma SameAsSlice(a: array<Byte>, i: nat, n: nat)
    requires i + n <= a.Length
    ensures Same(a[..], i, a[i..i + n], 0, n)
  {
    assert a[i..i + n] == a[..][i..i + n];
  }

  lemma HoldsSpan(buffer: seq<Byte>, history: seq<Byte>, kept: nat, a: nat, count: nat)
    requires Holds(buffer, history, kept) && |history| - kept <= a && a + count <= |history| &&
             Slot(a, |buffer|) + count <= |buffer|
    ensures Same(buffer, Slot(a, |buffer|), history, a, count)
  {
    hide Slot;
    var s := Slot(a, |buffer|);
    var span, past := buffer[s..s + count], history[a..a + count];
    forall k | 0 <= k < count
      ensures span[k] == past[k]
    {
      SlotAdd(a, k, |buffer|);
    }
  }

  lemma HoldsMore(buffer: seq<Byte>, history: seq<Byte>, kept: nat, data: seq<Byte>)
    requires Holds(buffer, history, kept) && Slot(|history|, |buffer|) + |data| <= |buffer|
    ensures Holds(Overlaid(buffer, Slot(|history|, |buffer|), data), history + data, Min(|buffer|, kept + |data|))
  {
    hide Slot;
    var capacity, n := |buffer|, |history|;
    var w, all, kept' := Slot(n, capacity), history + data, Min(capacity, kept + |data|);
    var buffer' := Overlaid(buffer, w, data);
    forall a | |all| - kept' <= a < |all|
      ensures buffer'[Slot(a, capacity)] == all[a]
    {
      if a >= n {
        SlotAdd(n, a - n, capacity);
      } else {
        var s := Slot(a, capacity);
        if w <= s < w + |data| {
          SlotAdd(n, s - w, capacity);
          SlotInjective(a, n + (s - w), capacity);
        }
        assert buffer'[s] == buffer[s];
      }
    }
  }

  lemma OverlaidOutside(buffer: seq<Byte>, at: nat, data: seq<Byte>, i: nat)
    requires at + |data| <= |buffer| && i < |buffer| && !(at <= i < at + |data|)
    ensures Overlaid(buffer, at, data)[i] == buffer[i]
  {
  }

  /** Bytes still to be copied from the buffer into itself lie clear of those just written. */
  lemma SourceUntouched(buffer: seq<Byte>, n: nat, distance: nat, written: seq<Byte>, rest: nat, data: seq<Byte>,
                        j: int)
    requires |buffer| > 0 && distance <= |buffer| && distance <= n && |written| + rest <= distance
    requires Slot(n, |buffer|) + |written| <= |buffer| &&
             Same(buffer, Slot(n - distance, |buffer|) + |written|, data, j, rest)
    ensures Same(Overlaid(buffer, Slot(n, |buffer|), written), Slot(n - distance, |buffer|) + |written|, data, j, rest)
  {
    hide Slot;
    var capacity := |buffer|;
    var w, p := Slot(n, capacity), Slot(n - distance, capacity) + |written|;
    var after, before := Overlaid(buffer, w, written)[p..p + rest], buffer[p..p + rest];
    forall k | 0 <= k < rest
      ensures after[k] == before[k]
    {
      SlotAdd(n - distance, |written| + k, capacity);
      if w <= p + k < w + |written| {
        SlotAdd(n, p + k - w, capacity);
        SlotInjective(n - distance + |written| + k, n + (p + k - w), capacity);
      }
      OverlaidOutside(buffer, w, written, p + k);
    }
  }

  // ----- The copy byte by byte -----

  /** LZ77: `count` times, append the byte `distance` back. */
  function Repeated(history: seq<Byte>, distance: nat, count: nat): (r: seq<Byte>)
    requires 1 <= distance <= |history|
    ensures |r| == |history| + count
  {
    if count == 0 then history else var r := Repeated(history, distance, count - 1); r + [r[|r| - distance]]
  }

  function Phase(x: nat, period: nat): (r: nat)
    requires period > 0
    ensures r < period
  {
    Slot(x, period)
  }

  /** From `start` on, `s` is its first `period` bytes over and over. */
  ghost predicate Tiled(s: seq<Byte>, start: nat, period: nat) {
    && 0 < period && start + period <= |s|
    && forall x :: start <= x < |s| ==> s[x] == s[start + Phase(x - start, period)]
  }

  /** Moving by `d` does not change the phase. */
  ghost predicate KeepsPhase(d: nat, period: nat) {
    0 < period && forall x: nat :: Phase(x + d, period) == Phase(x, period)
  }

  lemma KeepsPhaseBase(period: nat)
    requires period > 0
    ensures KeepsPhase(period, period)
  {
    forall x: nat
      ensures Phase(x + period, period) == Phase(x, period)
    {
      SlotShift(x, x + period, period, 1);
    }
  }

  lemma KeepsPhaseDouble(d: nat, period: nat)
    requires KeepsPhase(d, period)
    ensures KeepsPhase(2 * d, period)
  {
    hide Phase;
    forall x: nat
      ensures Phase(x + 2 * d, period) == Phase(x, period)
    {
      assert Phase((x + d) + d, period) == Phase(x + d, period);
    }
  }

  lemma TiledStart(history: seq<Byte>, period: nat)
    requires 1 <= period <= |history|
    ensures Tiled(history, |history| - period, period)
  {
    var start := |history| - period;
    forall x | start <= x < |history|
      ensures history[x] == history[start + Phase(x - start, period)]
    {
      SlotSmall(x - start, period);
    }
  }

  /** Appending what is `d` back, for a multiple of the period, keeps the tiling. */
  lemma TiledMore(s: seq<Byte>, start: nat, period: nat, d: nat, count: nat)
    requires Tiled(s, start, period) && KeepsPhase(d, period) && count <= d && start + d <= |s|
    ensures Tiled(s + s[|s| - d..|s| - d + count], start, period)
  {
    hide Phase;
    var r := s + s[|s| - d..|s| - d + count];
    forall x | start <= x < |r|
      ensures r[x] == r[start + Phase(x - start, period)]
    {
      if x >= |s| {
        assert r[x] == s[x - d];
        assert Phase((x - d - start) + d, period) == Phase(x - d - start, period);
      }
    }
  }

  lemma TiledBack(s: seq<Byte>, start: nat, period: nat, x: nat)
    requires Tiled(s, start, period) && start + period <= x < |s|
    ensures s[x] == s[x - period] && Tiled(s[..x], start, period)
  {
    KeepsPhaseBase(period);
    hide Phase;
    assert Phase((x - period - start) + period, period) == Phase(x - period - start, period);
    assert (x - period - start) + period == x - start;
    assert s[x] == s[start + Phase(x - start, period)];
    assert s[x - period] == s[start + Phase(x - period - start, period)];
    var shorter := s[..x];
    forall y | start <= y < |shorter|
      ensures shorter[y] == shorter[start + Phase(y - start, period)]
    {
      assert s[y] == s[start + Phase(y - start, period)];
    }
  }

  /** A tiled continuation is the copy byte by byte. */
  lemma {:induction false} TiledIsRepeated(history: seq<Byte>, period: nat, s: seq<Byte>)
    requires 1 <= period <= |history| && history <= s && Tiled(s, |history| - period, period)
    ensures s == Repeated(history, period, |s| - |history|)
    decreases |s|
  {
    hide Tiled;
    if |s| > |history| {
      var x := |s| - 1;
      TiledBack(s, |history| - period, period, x);
      TiledIsRepeated(history, period, s[..x]);
      assert s == s[..x] + [s[x]];
    }
  }

  /** `s` is `history` followed by what lies `distance` back again and again, and `d` is a multiple of that. */
  ghost predicate Continues(s: seq<Byte>, history: seq<Byte>, distance: nat, d: nat) {
    && 1 <= distance <= |history| && history <= s && distance <= d && |history| - distance + d <= |s|
    && Tiled(s, |history| - distance, distance) && KeepsPhase(d, distance)
  }

  lemma ContinuesNone(history: seq<Byte>, distance: nat)
    requires 1 <= distance <= |history|
    ensures Continues(history, history, distance, distance)
  {
    TiledStart(history, distance);
    KeepsPhaseBase(distance);
  }

  lemma ContinuesMore(s: seq<Byte>, history: seq<Byte>, distance: nat, d: nat, count: nat, double: bool)
    requires Continues(s, history, distance, d) && count <= d && (double ==> count == d)
    ensures Continues(s + s[|s| - d..|s| - d + count], history, distance, if double then 2 * d else d)
  {
    TiledMore(s, |history| - distance, distance, d, count);
    KeepsPhaseDouble(d, distance);
    hide Tiled, KeepsPhase;
  }

  lemma ContinuesAll(s: seq<Byte>, history: seq<Byte>, distance: nat, d: nat)
    requires Continues(s, history, distance, d)
    ensures s == Repeated(history, distance, |s| - |history|)
  {
    TiledIsRepeated(history, distance, s);
  }

  // ----- When the doubled distance outgrows the buffer -----

  /** The last distance within the capacity when `distance` is doubled again and again. */
  function LastDistance(distance: nat, capacity: nat): (r: nat)
    requires 1 <= distance <= capacity
    ensures distance <= r <= capacity < 2 * r
    decreases capacity - distance
  {
    if 2 * distance > capacity then distance else LastDistance(2 * distance, capacity)
  }

  /**
   * The number of bytes copied when the distance is doubled past the capacity: one chunk for each
   * distance, and a shorter one where the bytes copied from, starting in slot `s`, run to the end.
   */
  function CopiedBeforeOverrun(distance: nat, s: nat, capacity: nat): (r: nat)
    requires 1 <= distance <= capacity && s < capacity
  {
    var last := LastDistance(distance, capacity);
    2 * last - distance + if s + last > capacity then capacity - s else 0
  }

  /** The copy doubles its distance past the capacity, and still has bytes to copy and space for them. */
  predicate Overruns(distance: nat, length: nat, emptySpace: int, s: nat, capacity: nat)
    requires 1 <= distance <= capacity && s < capacity
  {
    var copied := CopiedBeforeOverrun(distance, s, capacity);
    emptySpace > copied && length > copied + LastDistance(distance, capacity)
  }

  /** A copy that fits never does. */
  lemma FittingNeverOverruns(distance: nat, length: nat, emptySpace: int, s: nat, capacity: nat)
    requires 1 <= distance <= capacity && s < capacity && length <= emptySpace <= capacity
    ensures !Overruns(distance, length, emptySpace, s, capacity)
  {
  }

  /** The copy has written `written` bytes and is about to read a whole chunk `d` back. */
  ghost predicate OnCourse(distance: nat, d: nat, written: nat, s: nat, capacity: nat) {
    && 1 <= distance <= d <= capacity && s < capacity && LastDistance(d, capacity) == LastDistance(distance, capacity)
    && (written == d - distance || (s + d > capacity && written == d - distance + capacity - s))
  }

  /** Where the next chunk starts, and how long it is, while the copy is on course. */
  lemma NextChunk(n: nat, distance: nat, d: nat, written: nat, s: nat, capacity: nat)
    requires OnCourse(distance, d, written, s, capacity) && distance <= n && s == Slot(n - distance, capacity)
    ensures Slot(n + written - d, capacity) == if written == d - distance then s else 0
    ensures written + Min(capacity - Slot(n + written - d, capacity), d) <= CopiedBeforeOverrun(distance, s, capacity)
    ensures var chunk := Min(capacity - Slot(n + written - d, capacity), d);
            chunk < d ==> OnCourse(distance, d, written + chunk, s, capacity)
    ensures var chunk := Min(capacity - Slot(n + written - d, capacity), d);
            chunk == d && 2 * d <= capacity ==> OnCourse(distance, 2 * d, written + d, s, capacity)
    ensures var chunk := Min(capacity - Slot(n + written - d, capacity), d);
            chunk == d && 2 * d > capacity ==>
              d == LastDistance(distance, capacity) && written + d == CopiedBeforeOverrun(distance, s, capacity)
  {
    SlotAdd(n - distance, capacity - s, capacity);
  }

  // ----- Matches -----

  /** matching_prefix_length */
  function MatchingPrefixLength(a: seq<Byte>, b: seq<Byte>): (r: nat)
    ensures r <= |a| && r <= |b| && a[..r] == b[..r] && (r < |a| && r < |b| ==> a[r] != b[r])
  {
    if a == [] || b == [] || a[0] != b[0] then 0 else
    var r := MatchingPrefixLength(a[1..], b[1..]);
    assert a[..r + 1] == [a[0]] + a[1..][..r] && b[..r + 1] == [b[0]] + b[1..][..r];
    r + 1
  }

  lemma {:induction false} MatchingPrefixIs(a: seq<Byte>, b: seq<Byte>, r: nat)
    requires r <= |a| && r <= |b| && a[..r] == b[..r] && (r < |a| && r < |b| ==> a[r] != b[r])
    ensures MatchingPrefixLength(a, b) == r
  {
    if r > 0 {
      assert a[0] == a[..r][0] && b[0] == b[..r][0];
      assert a[1..][..r - 1] == a[..r][1..] && b[1..][..r - 1] == b[..r][1..];
      MatchingPrefixIs(a[1..], b[1..], r - 1);
    }
  }

  /** How far the bytes from `read` on agree with those `distance` before, up to `maximum` and without overlap. */
  function MatchLength(history: seq<Byte>, read: nat, distance: nat, maximum: nat): (r: nat)
    requires distance <= read && read + maximum <= |history|
    ensures r <= distance && r <= maximum
  {
    MatchingPrefixLength(history[read - distance..read], history[read..read + maximum])
  }

  /** The first `length` bytes agree. */
  ghost predicate Agrees(history: seq<Byte>, read: nat, distance: nat, maximum: nat, length: nat)
    requires length <= distance <= read && length <= maximum && read + maximum <= |history|
  {
    history[read - distance..read][..length] == history[read..read + maximum][..length]
  }

  lemma AgreesNone(history: seq<Byte>, read: nat, distance: nat, maximum: nat)
    requires distance <= read && read + maximum <= |history|
    ensures Agrees(history, read, distance, maximum, 0)
  {
  }

  lemma AgreesAll(history: seq<Byte>, read: nat, distance: nat, maximum: nat)
    requires maximum <= distance <= read && read + maximum <= |history| &&
             Agrees(history, read, distance, maximum, maximum)
    ensures MatchLength(history, read, distance, maximum) == maximum
  {
    MatchingPrefixIs(history[read - distance..read], history[read..read + maximum], maximum);
  }

  /** Comparing piecewise is comparing as a whole. */
  lemma MatchContinues(a: seq<Byte>, b: seq<Byte>, done: nat, hay: seq<Byte>, needle: seq<Byte>)
    requires done <= |a| && done <= |b| && a[..done] == b[..done] && hay <= a[done..] && needle <= b[done..]
    requires done < |a| ==> hay != []
    requires done < |b| ==> needle != []
    ensures var r := MatchingPrefixLength(hay, needle);
            done + r <= |a| && done + r <= |b| && a[..done + r] == b[..done + r] &&
              (r == 0 ==> MatchingPrefixLength(a, b) == done)
  {
    var r := MatchingPrefixLength(hay, needle);
    assert a[..done + r] == a[..done] + hay[..r] && b[..done + r] == b[..done] + needle[..r];
    if r == 0 {
      if done < |a| && done < |b| {
        assert hay[0] == a[done] && needle[0] == b[done];
      }
      MatchingPrefixIs(a, b, done);
    }
  }

  lemma AgreesMore(history: seq<Byte>, read: nat, distance: nat, maximum: nat, length: nat, hay: seq<Byte>,
                   needle: seq<Byte>)
    requires length <= distance <= read && length < maximum && read + maximum <= |history| &&
             Agrees(history, read, distance, maximum, length)
    requires hay <= history[read - distance..read][length..] && needle <= history[read..read + maximum][length..]
    requires needle != [] && (length < distance ==> hay != [])
    ensures var submatch := MatchingPrefixLength(hay, needle);
            && length + submatch <= distance && length + submatch <= maximum &&
               Agrees(history, read, distance, maximum, length + submatch)
            && (submatch == 0 ==> MatchLength(history, read, distance, maximum) == length)
  {
    hide MatchingPrefixLength;
    MatchContinues(history[read - distance..read], history[read..read + maximum], length, hay, needle);
  }

  /** Copying a match from the bytes already read gives back the bytes it was found for. */
  lemma MatchReproduces(history: seq<Byte>, read: nat, distance: nat, maximum: nat, length: nat)
    requires 1 <= distance <= read && read + maximum <= |history| &&
             length <= MatchLength(history, read, distance, maximum)
    ensures Repeated(history[..read], distance, length) == history[..read + length]
  {
    if length > 0 {
      MatchReproduces(history, read, distance, maximum, length - 1);
      var m := MatchLength(history, read, distance, maximum);
      var a, b := history[read - distance..read], history[read..read + maximum];
      assert a[..m][length - 1] == b[..m][length - 1];
      assert history[..read + length] == history[..read + length - 1] + [history[read + length - 1]];
    }
  }

  datatype Match = Match(distance: nat, length: nat)
  /** A distance the search may use, whose match is long enough. */
  predicate Candidate(history: seq<Byte>, read: nat, searchLimit: nat, maximum: nat, minimum: nat, distance: nat)
    requires searchLimit <= read && read + maximum <= |history|
  {
    1 <= distance <= searchLimit && MatchLength(history, read, distance, maximum) >= minimum
  }

  /**
   * `best` is the longest match among `distances`, the first of these, and there is none only if no distance
   * gives one.
   */
  ghost predicate Best(history: seq<Byte>, read: nat, searchLimit: nat, maximum: nat, minimum: nat,
                       distances: seq<nat>, best: Option<Match>)
    requires searchLimit <= read && read + maximum <= |history|
  {
    match best
    case None => forall j :: 0 <= j < |distances| ==>
                 !Candidate(history, read, searchLimit, maximum, minimum, distances[j])
    case Some(m) => exists i :: BestAt(history, read, searchLimit, maximum, minimum, distances, m, i)
  }

  ghost predicate BestAt(history: seq<Byte>, read: nat, searchLimit: nat, maximum: nat, minimum: nat,
                         distances: seq<nat>, m: Match, i: nat)
    requires searchLimit <= read && read + maximum <= |history|
  {
    && i < |distances| && m.distance == distances[i] &&
       Candidate(history, read, searchLimit, maximum, minimum, m.distance)
    && m.length == MatchLength(history, read, m.distance, maximum)
    && forall j :: 0 <= j < |distances| && Candidate(history, read, searchLimit, maximum, minimum, distances[j]) ==>
                     var l := MatchLength(history, read, distances[j], maximum);
                     l <= m.length && (j < i ==> l < m.length)
  }

  lemma BestMore(history: seq<Byte>, read: nat, searchLimit: nat, maximum: nat, minimum: nat, distances: seq<nat>,
                 best: Option<Match>, distance: nat)
    requires searchLimit <= read && read + maximum <= |history| &&
             Best(history, read, searchLimit, maximum, minimum, distances, best)
    ensures var candidate := Candidate(history, read, searchLimit, maximum, minimum, distance);
            var best' := if candidate &&
                         (best.None? || best.value.length < MatchLength(history, read, distance, maximum))
                         then Some(Match(distance, MatchLength(history, read, distance, maximum))) else best;
            Best(history, read, searchLimit, maximum, minimum, distances + [distance], best')
  {
    hide MatchLength;
    var more := distances + [distance];
    if Candidate(history, read, searchLimit, maximum, minimum, distance) &&
      (best.None? || best.value.length < MatchLength(history, read, distance, maximum)) {
      if best.Some? {
        var i :| BestAt(history, read, searchLimit, maximum, minimum, distances, best.value, i);
      }
      assert BestAt(history, read, searchLimit, maximum, minimum, more,
                    Match(distance, MatchLength(history, read, distance, maximum)), |distances|);
    } else if best.Some? {
      var i :| BestAt(history, read, searchLimit, maximum, minimum, distances, best.value, i);
      assert BestAt(history, read, searchLimit, maximum, minimum, more, best.value, i);
    }
  }

  // ----- The buffer -----

  datatype Copied = Copied(length: nat) | BeyondSeekbackLimit | VerificationFailed
  datatype Extent = Extent(offset: nat, length: nat)

  /** A place in the ring `count` slots further on. */
  function Advanced(head: nat, count: nat, capacity: nat): int {
    if head + count >= capacity then head + count - capacity else head + count
  }

  class CircularBuffer {
    const buffer: array<Byte>
    var readingHead: nat
    var usedSpace: nat
    var seekbackLimit: nat
    /** Everything written since the buffer was created or cleared. */
    ghost var history: seq<Byte>

    ghost predicate Valid()
      reads this, buffer
    {
      && usedSpace <= seekbackLimit <= buffer.Length && seekbackLimit <= |history| &&
         Holds(buffer[..], history, seekbackLimit)
      && readingHead == Slot(|history| - usedSpace, buffer.Length)
    }

    /** The bytes not read yet. */
    ghost function Unread(): seq<Byte>
      requires Valid()
      reads this, buffer
    {
      history[|history| - usedSpace..]
    }

    lemma Bounds()
      requires Valid()
      ensures usedSpace <= seekbackLimit <= |history| && seekbackLimit <= buffer.Length
    {
    }

    lemma HeadInside()
      requires Valid() && buffer.Length > 0
      ensures readingHead < buffer.Length &&
              NextReadSpan(0) == Extent(readingHead, Min(buffer.Length - readingHead, usedSpace))
    {
    }

    lemma EmptyWriteSpan()
      requires Valid() && usedSpace == 0 && buffer.Length > 0
      ensures NextWriteSpan().length == buffer.Length - readingHead
    {
    }

    lemma NothingUnread()
      requires Valid() && usedSpace == 0
      ensures Unread() == []
    {
    }

    /** create_empty */
    constructor (capacity: nat)
      requires capacity > 0
      ensures Valid() && buffer.Length == capacity && history == [] && usedSpace == seekbackLimit == 0 && fresh(buffer)
    {
      buffer := new Byte[capacity];
      readingHead, usedSpace, seekbackLimit, history := 0, 0, 0, [];
      SlotSmall(0, capacity);
    }

    function Capacity(): nat {
      buffer.Length
    }

    function EmptySpace(): int
      reads this
    {
      Capacity() - usedSpace
    }

    predicate IsWrappingAround()
      reads this
    {
      Capacity() <= readingHead + usedSpace
    }

    function NextWriteSpan(): (span: Extent)
      requires Valid()
      reads this, buffer
      ensures span.offset + span.length <= buffer.Length
    {
      if IsWrappingAround() then Extent(readingHead + usedSpace - Capacity(), Capacity() - usedSpace)
      else Extent(readingHead + usedSpace, Capacity() - (readingHead + usedSpace))
    }

    function NextReadSpan(offset: nat): (span: Extent)
      requires Valid()
      reads this, buffer
      ensures span.offset + span.length <= buffer.Length
    {
      if offset > 0 && offset >= usedSpace then Extent(0, 0)
      else
        var head := if offset > 0 then Slot(readingHead + offset, Capacity()) else readingHead;
        Extent(head, Min(Capacity() - head, usedSpace - offset))
    }

    function NextSeekbackSpan(distance: nat): (span: Extent)
      requires Valid() && distance <= seekbackLimit
      reads this, buffer
      ensures span.offset + span.length <= buffer.Length
    {
      var offset := Slot(Capacity() + readingHead + usedSpace - distance, Capacity());
      Extent(offset, Min(Capacity() - offset, distance))
    }

    /** Where the spans are in the history. */
    lemma WriteSpanAt()
      requires Valid()
      ensures var span := NextWriteSpan();
              span.length <= EmptySpace() && (span.length == 0 <==> EmptySpace() == 0) &&
                (span.length > 0 ==> span.offset == Slot(|history|, buffer.Length))
    {
      hide Slot;
      SlotAdd(|history| - usedSpace, usedSpace, buffer.Length);
    }

    lemma ReadSpanAt(offset: nat)
      requires Valid() && offset < usedSpace
      ensures var span, a := NextReadSpan(offset), |history| - usedSpace + offset;
              span.length <= usedSpace - offset && span.offset == Slot(a, buffer.Length) &&
                (span.length == 0 <==> usedSpace == offset)
              && Same(buffer[..], span.offset, history, a, span.length)
    {
      hide Slot, Same;
      SlotAdd(|history| - usedSpace, offset, buffer.Length);
      SlotIdempotent(|history| - usedSpace, offset, buffer.Length);
      HoldsSpan(buffer[..], history, seekbackLimit, |history| - usedSpace + offset, NextReadSpan(offset).length);
    }

    lemma SeekbackSpanAt(distance: nat)
      requires Valid() && distance <= seekbackLimit
      ensures var span, a := NextSeekbackSpan(distance), |history| - distance;
              span.length == Min(buffer.Length - span.offset, distance) && span.offset == Slot(a, buffer.Length)
              && Same(buffer[..], span.offset, history, a, span.length)
    {
      hide Slot, Same;
      SlotBack(|history|, usedSpace, distance, buffer.Length);
      HoldsSpan(buffer[..], history, seekbackLimit, |history| - distance, NextSeekbackSpan(distance).length);
    }

    method Clear()
      requires Valid()
      modifies this
      ensures Valid() && history == [] && usedSpace == 0 && seekbackLimit == 0
    {
      readingHead, usedSpace, seekbackLimit, history := 0, 0, 0, [];
      SlotSmall(0, buffer.Length);
    }

    /** Copies bytes, which may be the buffer's own, into the next write span: `count` bytes of `data` from `j` on. */
    method Append(src: array<Byte>, from: nat, count: nat, ghost data: seq<Byte>, ghost j: int)
      requires Valid() && 0 < count <= NextWriteSpan().length && Same(src[..], from, data, j, count)
      modifies this, buffer
      ensures Valid() && history == old(history) + data[j..j + count]
      ensures usedSpace == old(usedSpace) + count && seekbackLimit == Min(buffer.Length, old(seekbackLimit) + count)
      ensures Slot(|old(history)|, buffer.Length) + count <= buffer.Length && readingHead == old(readingHead)
      ensures buffer[..] == Overlaid(old(buffer[..]), Slot(|old(history)|, buffer.Length), data[j..j + count])
    {
      hide Slot, Holds, Same;
      WriteSpanAt();
      SameBounds(src[..], from, data, j, count);
      ghost var was, bytes := buffer[..], data[j..j + count];
      var w := NextWriteSpan().offset;
      SameBytes(src, from, data, j, count);
      forall k | 0 <= k < count {
        buffer[w + k] := src[from + k];
      }
      assert buffer[..] == Overlaid(was, w, bytes);
      HoldsMore(was, history, seekbackLimit, bytes);
      usedSpace := usedSpace + count;
      seekbackLimit := seekbackLimit + count;
      if seekbackLimit > Capacity() {
        seekbackLimit := Capacity();
      }
      history := history + bytes;
    }

    /** The bytes are part of the seekback area, starting `distance` before its end. */
    ghost predicate FromSeekback(from: nat, length: nat, distance: nat)
      requires Valid()
      reads this, buffer
    {
      length <= distance <= seekbackLimit && from == Slot(|history| - distance, buffer.Length) &&
        from + length <= buffer.Length
    }

    /** Appends `count` bytes; the `rest` that follow are still there afterwards. */
    method AppendPart(src: array<Byte>, from: nat, count: nat, rest: nat, ghost data: seq<Byte>, ghost j: int,
                      ghost distance: nat)
      requires Valid() && 0 < count <= NextWriteSpan().length && Same(src[..], from, data, j, count + rest)
      requires src == buffer ==> FromSeekback(from, count + rest, distance)
      modifies this, buffer
      ensures Valid() && history == old(history) + data[j..j + count] &&
              Same(src[..], from + count, data, j + count, rest)
      ensures usedSpace == old(usedSpace) + count && seekbackLimit == Min(buffer.Length, old(seekbackLimit) + count)
      ensures src == buffer && rest > 0 ==> FromSeekback(from + count, rest, distance)
    {
      hide Holds, Slot, Overlaid, Same, CircularBuffer.Valid, CircularBuffer.NextWriteSpan;
      Bounds();
      SameBounds(src[..], from, data, j, count + rest);
      SamePart(src[..], from, data, j, count + rest, 0, count);
      SamePart(src[..], from, data, j, count + rest, count, rest);
      ghost var n, before := |history|, src[..];
      Append(src, from, count, data, j);
      if src == buffer {
        SourceUntouched(before, n, distance, data[j..j + count], rest, data, j + count);
        SlotAdd(n - distance, count, buffer.Length);
        Bounds();
      } else {
        assert src[..] == before;
      }
    }

    /**
     * write: as many bytes as there is space for. The bytes may be part of the buffer itself, as long
     * as they are in the seekback area.
     */
    method Write(src: array<Byte>, from: nat, length: nat, ghost distance: nat) returns (written: nat)
      requires Valid() && from + length <= src.Length
      requires src == buffer ==> FromSeekback(from, length, distance)
      modifies this, buffer
      ensures Valid() && written == Min(length, old(EmptySpace())) &&
              history == old(history) + old(src[from..from + length])[..written]
      ensures usedSpace == old(usedSpace) + written && seekbackLimit == Min(buffer.Length, old(seekbackLimit) + written)
    {
      hide Holds, Slot, Same, CircularBuffer.Valid, CircularBuffer.FromSeekback;
      Bounds();
      ghost var h, data := history, src[from..from + length];
      SameAsSlice(src, from, length);
      var remaining := length;
      while remaining > 0
        invariant 0 <= remaining <= length && Valid() && history == h + data[..length - remaining]
        invariant Same(src[..], from + (length - remaining), data, length - remaining, remaining)
        invariant usedSpace == old(usedSpace) + length - remaining
        invariant seekbackLimit == Min(buffer.Length, old(seekbackLimit) + length - remaining)
        invariant src == buffer && remaining > 0 ==> FromSeekback(from + (length - remaining), remaining, distance)
        decreases remaining
      {
        WriteSpanAt();
        var span := NextWriteSpan();
        if span.length == 0 {
          break;
        }
        var count, done := Min(remaining, span.length), length - remaining;
        AppendPart(src, from + done, count, remaining - count, data, done, distance);
        AppendedSoFar(h, data, done, count);
        remaining := remaining - count;
      }
      Bounds();
      return length - remaining;
    }

    /** read: as many bytes as there are, in the order they were written. */
    method Read(dst: array<Byte>, at: nat, length: nat) returns (count: nat)
      requires Valid() && at + length <= dst.Length && dst != buffer
      modifies this, dst
      ensures Valid() && history == old(history) && seekbackLimit == old(seekbackLimit)
      ensures count == Min(length, old(usedSpace)) && usedSpace == old(usedSpace) - count
      ensures dst[..] == Overlaid(old(dst[..]), at, old(Unread())[..count])
    {
      hide Holds, Slot, Same, Overlaid, CircularBuffer.Valid;
      Bounds();
      ghost var was, data := dst[..], Unread();
      OverlaidNone(was, at, data);
      var remaining := length;
      while remaining > 0
        invariant 0 <= remaining <= length && Valid() && history == old(history) && seekbackLimit == old(seekbackLimit)
        invariant usedSpace == old(usedSpace) - (length - remaining)
        invariant dst[..] == Overlaid(was, at, data[..length - remaining])
        decreases remaining
      {
        var span := NextReadSpan(0);
        ReadEmpty();
        if span.length == 0 {
          break;
        }
        ReadSpanAt(0);
        var n, done := Min(span.length, remaining), length - remaining;
        Deliver(dst, at, done, span, n, was, |history| - old(usedSpace));
        Advance(n);
        remaining := remaining - n;
      }
      return length - remaining;
    }

    lemma ReadEmpty()
      requires Valid()
      ensures NextReadSpan(0).length == 0 <==> usedSpace == 0
    {
    }

    /** Copies the front of a span to where `done` bytes of the history from `start` on were copied before. */
    method Deliver(dst: array<Byte>, at: nat, done: nat, span: Extent, count: nat, ghost was: seq<Byte>,
                   ghost start: nat)
      requires dst != buffer && start + done <= |history| && at + done + count <= dst.Length == |was|
      requires count <= span.length && Same(buffer[..], span.offset, history, start + done, span.length)
      requires dst[..] == Overlaid(was, at, history[start..][..done])
      modifies dst
      ensures start + done + count <= |history| && dst[..] == Overlaid(was, at, history[start..][..done + count])
    {
      hide Same;
      SameBounds(buffer[..], span.offset, history, start + done, span.length);
      SameInTail(buffer[..], span.offset, history, start + done, span.length, start);
      SamePart(buffer[..], span.offset, history[start..], done, span.length, 0, count);
      CopyOut(dst, at, done, span.offset, count, was, history[start..]);
    }

    method CopyOut(dst: array<Byte>, at: nat, done: nat, offset: nat, count: nat, ghost was: seq<Byte>,
                   ghost data: seq<Byte>)
      requires dst != buffer && Same(buffer[..], offset, data, done, count) && at + done + count <= dst.Length == |was|
      requires dst[..] == Overlaid(was, at, data[..done])
      modifies dst
      ensures done + count <= |data| && dst[..] == Overlaid(was, at, data[..done + count])
    {
      ghost var before, bytes := dst[..], data[done..done + count];
      SameBytes(buffer, offset, data, done, count);
      forall k | 0 <= k < count {
        dst[at + done + k] := buffer[offset + k];
      }
      assert dst[..] == Overlaid(before, at + done, bytes);
      OverlaidMore(was, at, data, done, count);
    }

    /** Moves the reading head over bytes that were read. */
    method Advance(count: nat)
      requires Valid() && count <= usedSpace
      modifies this
      ensures Valid() && history == old(history) && seekbackLimit == old(seekbackLimit) &&
              usedSpace == old(usedSpace) - count
      ensures readingHead == Advanced(old(readingHead), count, buffer.Length)
    {
      hide Holds, Slot;
      SlotAdd(|history| - usedSpace, count, buffer.Length);
      usedSpace := usedSpace - count;
      readingHead := readingHead + count;
      if readingHead >= Capacity() {
        readingHead := readingHead - Capacity();
      }
    }

    method Discard(count: nat) returns (ok: bool)
      requires Valid()
      modifies this
      ensures Valid() && history == old(history) && seekbackLimit == old(seekbackLimit) &&
              ok == (count <= old(usedSpace))
      ensures usedSpace == if ok then old(usedSpace) - count else old(usedSpace)
    {
      hide Holds, Slot;
      if usedSpace < count {
        return false;
      }
      SlotIdempotent(|history| - usedSpace, count, buffer.Length);
      usedSpace := usedSpace - count;
      readingHead := Slot(readingHead + count, Capacity());
      return true;
    }

    /** read_with_seekback: bytes from `distance` before the end, read already or not. */
    method ReadWithSeekback(dst: array<Byte>, at: nat, length: nat, distance: nat) returns (result: Copied)
      requires Valid() && at + length <= dst.Length && dst != buffer
      modifies dst
      ensures result == if distance > seekbackLimit then BeyondSeekbackLimit else Copied(Min(length, distance))
      ensures distance <= seekbackLimit ==>
                dst[..] == Overlaid(old(dst[..]), at,
                                    history[|history| - distance..|history| - distance + Min(length, distance)])
      ensures distance > seekbackLimit ==> dst[..] == old(dst[..])
    {
      hide Holds, Slot, Same, Overlaid, CircularBuffer.Valid;
      Bounds();
      if distance > seekbackLimit {
        return BeyondSeekbackLimit;
      }
      ghost var was, data := dst[..], history[|history| - distance..];
      OverlaidNone(was, at, data);
      var remaining, d := length, distance;
      while remaining > 0
        invariant 0 <= remaining <= length && d == distance - (length - remaining) >= 0
        invariant dst[..] == Overlaid(was, at, data[..length - remaining])
        decreases remaining
      {
        SeekbackSpanAt(d);
        var span := NextSeekbackSpan(d);
        if span.length == 0 {
          break;
        }
        var n, done := Min(span.length, remaining), length - remaining;
        Deliver(dst, at, done, span, n, was, |history| - distance);
        d := d - n;
        remaining := remaining - n;
      }
      FrontOfTail(history, |history| - distance, length - remaining);
      return Copied(length - remaining);
    }

    /** One round of the seekback copy: a chunk of the bytes `d` back is appended. */
    method CopyChunk(d: nat, remaining: nat) returns (written: nat)
      requires Valid() && 1 <= d <= seekbackLimit
      modifies this, buffer
      ensures Valid()
      ensures written == Min(Min(Min(buffer.Length - Slot(old(|history|) - d, buffer.Length), d), remaining),
                             old(EmptySpace()))
      ensures history == old(history + history[|history| - d..|history| - d + written])
      ensures usedSpace == old(usedSpace) + written && seekbackLimit == Min(buffer.Length, old(seekbackLimit) + written)
    {
      hide Holds, Slot, Same, CircularBuffer.Valid, CircularBuffer.NextSeekbackSpan;
      Bounds();
      SeekbackSpanAt(d);
      var span := NextSeekbackSpan(d);
      ghost var a := |history| - d;
      var count := Min(span.length, remaining);
      SamePart(buffer[..], span.offset, history, a, span.length, 0, count);
      SameMeans(buffer, span.offset, history, a, count);
      written := Write(buffer, span.offset, count, d);
      SliceOfSlice(old(history), a, a + count, 0, written);
    }

    /**
     * copy_from_seekback: the bytes `distance` back are appended, `length` of them or as many as fit,
     * each equal to the byte `distance` before it. The check that the distance is within the seekback
     * limit fails exactly when the copy overruns.
     */
    method CopyFromSeekback(distance: nat, length: nat) returns (result: Copied)
      requires Valid()
      modifies this, buffer
      ensures Valid()
      ensures result.BeyondSeekbackLimit? <==> distance > old(seekbackLimit)
      ensures result.VerificationFailed? <==> 1 <= distance <= old(seekbackLimit) &&
                                              Overruns(distance, length, old(EmptySpace()),
                                                       Slot(old(|history|) - distance, buffer.Length), buffer.Length)
      ensures result.Copied? ==> result.length == (if distance == 0 then 0 else Min(length, old(EmptySpace())))
      ensures result.Copied? ==>
                history == if distance == 0 then old(history) else Repeated(old(history), distance, result.length)
      ensures result.Copied? ==>
                usedSpace == old(usedSpace) + result.length &&
                  seekbackLimit == Min(buffer.Length, old(seekbackLimit) + result.length)
      ensures result.BeyondSeekbackLimit? ==> unchanged(this) && buffer[..] == old(buffer[..])
      ensures length <= old(EmptySpace()) && 1 <= distance <= old(seekbackLimit) ==> result == Copied(length)
    {
      hide Holds, Slot, Overruns, Repeated;
      if distance > seekbackLimit {
        return BeyondSeekbackLimit;
      }
      if distance == 0 {
        return Copied(0);
      }
      if length <= EmptySpace() {
        FittingNeverOverruns(distance, length, EmptySpace(), Slot(|history| - distance, buffer.Length), buffer.Length);
      }
      var ok, copied := CopyChunks(distance, length);
      return if ok then Copied(copied) else VerificationFailed;
    }

    method CopyChunks(distance: nat, length: nat) returns (ok: bool, copied: nat)
      requires Valid() && 1 <= distance <= seekbackLimit
      modifies this, buffer
      ensures Valid() && (ok <==>
                          !Overruns(distance, length, old(EmptySpace()),
                                    Slot(old(|history|) - distance, buffer.Length), buffer.Length))
      ensures ok ==> copied == Min(length, old(EmptySpace())) && usedSpace == old(usedSpace) + copied
      ensures ok ==> seekbackLimit == Min(buffer.Length, old(seekbackLimit) + copied)
      ensures ok ==> history == Repeated(old(history), distance, copied)
    {
      hide Holds, Slot, Continues, Course, Overruns, Repeated;
      ghost var emptySpace, s := EmptySpace(), Slot(|history| - distance, buffer.Length);
      StartsOnCourse(distance, length, emptySpace, s, buffer.Length);
      ContinuesNone(history, distance);
      var remaining, d := length, distance;
      while remaining > 0
        invariant 0 <= remaining <= length && Valid() && |history| == |old(history)| + length - remaining
        invariant EmptySpace() == emptySpace - (length - remaining)
        invariant distance <= d <= distance + (length - remaining)
        invariant seekbackLimit == Min(buffer.Length, old(seekbackLimit) + (length - remaining))
        invariant Continues(history, old(history), distance, d)
        invariant Course(distance, length, emptySpace, s, buffer.Length, d, remaining)
        decreases remaining
      {
        if EmptySpace() == 0 {
          break;
        }
        CourseHolds(distance, length, emptySpace, s, buffer.Length, d, remaining);
        if d > seekbackLimit {
          return false, 0;
        }
        remaining, d := CopyRound(d, remaining, distance, length, old(history), emptySpace, s);
      }
      CourseHolds(distance, length, emptySpace, s, buffer.Length, d, remaining);
      ContinuesAll(history, old(history), distance, d);
      return true, length - remaining;
    }

    /** One round of the copy, with the distance doubled if it was a complete chunk. */
    method CopyRound(d: nat, remaining: nat, ghost distance: nat, ghost length: nat, ghost h0: seq<Byte>,
                     ghost emptySpace: int, ghost s: nat)
      returns (remaining': nat, d': nat)
      requires Valid() && 1 <= d <= seekbackLimit && 0 < remaining <= length && EmptySpace() > 0 && distance <= |h0|
      requires |history| == |h0| + length - remaining && EmptySpace() == emptySpace - (length - remaining) &&
               s == Slot(|h0| - distance, buffer.Length)
      requires Continues(history, h0, distance, d) &&
               Course(distance, length, emptySpace, s, buffer.Length, d, remaining)
      modifies this, buffer
      ensures remaining' < remaining && Valid() && |history| == |h0| + length - remaining'
      ensures EmptySpace() == emptySpace - (length - remaining') &&
              seekbackLimit == Min(buffer.Length, old(seekbackLimit) + (remaining - remaining'))
      ensures d' == d || (d' == 2 * d && remaining - remaining' == d)
      ensures Continues(history, h0, distance, d') &&
              Course(distance, length, emptySpace, s, buffer.Length, d', remaining')
    {
      hide Holds, Slot, Continues, Course;
      ghost var before := history;
      var written := CopyChunk(d, remaining);
      remaining' := remaining - written;
      CourseStep(|h0|, distance, length, emptySpace, s, buffer.Length, d, remaining, written);
      ContinuesMore(before, h0, distance, d, written, remaining' > d && written == d);
      d' := if remaining' > d && written == d then 2 * d else d;
    }

    // ----- The searchable buffer -----

    function SearchLimit(): int
      reads this
    {
      seekbackLimit - usedSpace
    }

    /** next_search_span: like next_seekback_span, but counting from the reading head. */
    function NextSearchSpan(distance: nat): (span: Extent)
      requires Valid() && distance <= SearchLimit()
      reads this, buffer
      ensures span.offset + span.length <= buffer.Length
    {
      var offset := Slot(Capacity() + readingHead - distance, Capacity());
      Extent(offset, Min(Capacity() - offset, distance))
    }

    lemma SearchSpanAt(distance: nat)
      requires Valid() && distance <= SearchLimit()
      ensures var span, a := NextSearchSpan(distance), |history| - usedSpace - distance;
              span.length <= distance && (span.length == 0 <==> distance == 0)
              && Same(buffer[..], span.offset, history, a, span.length)
    {
      hide Slot, Same;
      SlotBack(|history| - usedSpace, 0, distance, buffer.Length);
      HoldsSpan(buffer[..], history, seekbackLimit, |history| - usedSpace - distance, NextSearchSpan(distance).length);
    }

    /** find_copy_in_seekback for given distances. */
    method FindCopyInSeekback(distances: seq<nat>, maximumLength: nat, minimumLength: nat) returns (best: Option<Match>)
      requires Valid() && minimumLength > 0
      ensures Best(history, |history| - usedSpace, SearchLimit(), Min(maximumLength, usedSpace), minimumLength,
                   distances, best)
    {
      hide Holds, Slot, MatchLength, Best;
      var maximum := Min(maximumLength, usedSpace);
      ghost var read := |history| - usedSpace;
      BestNone(history, read, SearchLimit(), maximum, minimumLength, distances);
      if maximum < minimumLength {
        return None;
      }
      best := None;
      for i := 0 to |distances|
        invariant Best(history, read, SearchLimit(), maximum, minimumLength, distances[..i], best)
      {
        var distance := distances[i];
        assert distances[..i + 1] == distances[..i] + [distance];
        BestMore(history, read, SearchLimit(), maximum, minimumLength, distances[..i], best, distance);
        if distance > SearchLimit() || distance <= 0 || distance < minimumLength {
          continue;
        }
        var length := MeasureMatch(distance, maximum);
        if length < minimumLength {
          continue;
        }
        if best.None? || best.value.length < length {
          best := Some(Match(distance, length));
        }
      }
      assert distances[..|distances|] == distances;
    }

    /** Compares span by span. */
    method MeasureMatch(distance: nat, maximum: nat) returns (length: nat)
      requires Valid() && distance <= SearchLimit() && maximum <= usedSpace
      ensures length == MatchLength(history, |history| - usedSpace, distance, maximum)
    {
      hide Holds, Slot, MatchingPrefixLength, Agrees, Take, MatchLength;
      AgreesNone(history, |history| - usedSpace, distance, maximum);
      length := 0;
      while length < maximum
        invariant length <= maximum && length <= distance &&
                  Agrees(history, |history| - usedSpace, distance, maximum, length)
        decreases maximum - length
      {
        MeasureStep(distance, maximum, length);
        var hay := Take(NextSearchSpan(distance - length), maximum - length);
        var needle := Take(NextReadSpan(length), maximum - length);
        var submatch := MatchingPrefixLength(hay, needle);
        if submatch == 0 {
          return;
        }
        length := length + submatch;
      }
      AgreesAll(history, |history| - usedSpace, distance, maximum);
    }

    lemma MeasureStep(distance: nat, maximum: nat, length: nat)
      requires Valid() && length <= distance <= SearchLimit() && length < maximum <= usedSpace
      requires Agrees(history, |history| - usedSpace, distance, maximum, length)
      ensures var submatch := MatchingPrefixLength(Take(NextSearchSpan(distance - length), maximum - length),
                                                   Take(NextReadSpan(length), maximum - length));
              var read := |history| - usedSpace;
              && length + submatch <= distance && length + submatch <= maximum &&
                 Agrees(history, read, distance, maximum, length + submatch)
              && (submatch == 0 ==> MatchLength(history, read, distance, maximum) == length)
    {
      hide Holds, Slot, Take, MatchingPrefixLength, MatchLength, Agrees, NextSearchSpan, NextReadSpan;
      SearchTaken(distance, length, maximum);
      ReadTaken(length, maximum);
      AgreesMore(history, |history| - usedSpace, distance, maximum, length,
                 Take(NextSearchSpan(distance - length), maximum - length),
                 Take(NextReadSpan(length), maximum - length));
    }

    /** The bytes of a span, at most `count` of them. */
    function Take(span: Extent, count: nat): (r: seq<Byte>)
      requires span.offset + span.length <= buffer.Length
      reads buffer
      ensures |r| == Min(span.length, count)
    {
      buffer[span.offset..span.offset + Min(span.length, count)]
    }

    lemma SearchTaken(distance: nat, length: nat, maximum: nat)
      requires Valid() && length <= distance <= SearchLimit() && length < maximum
      ensures var read, taken := |history| - usedSpace, Take(NextSearchSpan(distance - length), maximum - length);
              taken <= history[read - distance..read][length..] && (length < distance ==> taken != [])
    {
      hide Holds, Slot, Same, CircularBuffer.Valid, CircularBuffer.NextSearchSpan, CircularBuffer.Take;
      Bounds();
      SearchSpanAt(distance - length);
      var read, span := |history| - usedSpace, NextSearchSpan(distance - length);
      TakeIsPrefix(history, read - distance + length, span, maximum - length, read);
      SliceOfSlice(history, read - distance, read, length, distance);
      assert history[read - distance..read][length..] == history[read - distance + length..read];
    }

    lemma ReadTaken(length: nat, maximum: nat)
      requires Valid() && length < maximum <= usedSpace
      ensures var read, taken := |history| - usedSpace, Take(NextReadSpan(length), maximum - length);
              taken <= history[read..read + maximum][length..] && taken != []
    {
      hide Holds, Slot, Same, CircularBuffer.Valid, CircularBuffer.NextReadSpan, CircularBuffer.Take;
      Bounds();
      ReadSpanAt(length);
      var read, span := |history| - usedSpace, NextReadSpan(length);
      TakeIsPrefix(history, read + length, span, maximum - length, read + maximum);
      SliceOfSlice(history, read, read + maximum, length, maximum);
    }

    /** What is taken of a span that stands in `h` from `at` on is the front of `h` from there up to `end`. */
    lemma TakeIsPrefix(h: seq<Byte>, at: int, span: Extent, count: nat, end: int)
      requires span.offset + span.length <= buffer.Length && Same(buffer[..], span.offset, h, at, span.length)
      requires at + Min(span.length, count) <= end <= |h|
      ensures 0 <= at && Take(span, count) <= h[at..end]
    {
      var n := Min(span.length, count);
      SamePart(buffer[..], span.offset, h, at, span.length, 0, n);
      SliceOfSlice(h, at, end, 0, n);
      assert Take(span, count) == buffer[..][span.offset..span.offset + n];
    }
  }

  lemma BestNone(history: seq<Byte>, read: nat, searchLimit: nat, maximum: nat, minimum: nat, distances: seq<nat>)
    requires searchLimit <= read && read + maximum <= |history|
    ensures maximum < minimum ==> Best(history, read, searchLimit, maximum, minimum, distances, None)
    ensures Best(history, read, searchLimit, maximum, minimum, [], None)
  {
  }

  /** The copy is on course; or it will end without another doubling; or the distance is past the capacity. */
  ghost predicate Course(distance: nat, length: nat, emptySpace: int, s: nat, capacity: nat, d: nat, remaining: nat) {
    && 1 <= distance <= capacity && s < capacity && remaining <= length
    && (|| OnCourse(distance, d, length - remaining, s, capacity)
        || (d <= capacity && !Overruns(distance, length, emptySpace, s, capacity) &&
            (remaining <= d || emptySpace <= length - remaining))
        || (d > capacity && length - remaining == CopiedBeforeOverrun(distance, s, capacity) &&
            remaining > LastDistance(distance, capacity)))
  }

  lemma StartsOnCourse(distance: nat, length: nat, emptySpace: int, s: nat, capacity: nat)
    requires 1 <= distance <= capacity && s < capacity
    ensures Course(distance, length, emptySpace, s, capacity, distance, length)
  {
  }

  lemma CourseHolds(distance: nat, length: nat, emptySpace: int, s: nat, capacity: nat, d: nat, remaining: nat)
    requires Course(distance, length, emptySpace, s, capacity, d, remaining)
    ensures remaining == 0 || emptySpace == length - remaining ==> !Overruns(distance, length, emptySpace, s, capacity)
    ensures d > capacity ==> (Overruns(distance, length, emptySpace, s, capacity) <==> emptySpace > length - remaining)
  {
  }

  lemma CourseStep(n: nat, distance: nat, length: nat, emptySpace: int, s: nat, capacity: nat, d: nat, remaining: nat,
                   written: nat)
    requires Course(distance, length, emptySpace, s, capacity, d, remaining) && distance <= n &&
             s == Slot(n - distance, capacity)
    requires remaining > 0 && emptySpace > length - remaining && d <= capacity
    requires written == Min(Min(Min(capacity - Slot(n + (length - remaining) - d, capacity), d), remaining),
                            emptySpace - (length - remaining))
    ensures Course(distance, length, emptySpace, s, capacity,
                   if remaining - written > d && written == d then 2 * d else d, remaining - written)
  {
    if OnCourse(distance, d, length - remaining, s, capacity) {
      NextChunk(n, distance, d, length - remaining, s, capacity);
      hide LastDistance, Slot;
    }
  }

  lemma OverlaidNone(was: seq<Byte>, at: nat, data: seq<Byte>)
    requires at <= |was|
    ensures Overlaid(was, at, data[..0]) == was
  {
  }

  lemma OverlaidMore(was: seq<Byte>, at: nat, data: seq<Byte>, done: nat, n: nat)
    requires at + done + n <= |was| && done + n <= |data|
    ensures Overlaid(Overlaid(was, at, data[..done]), at + done, data[done..done + n])
            == Overlaid(was, at, data[..done + n])
  {
    assert data[..done] + data[done..done + n] == data[..done + n];
  }

  lemma SameBytes(a: array<Byte>, i: nat, b: seq<Byte>, j: int, n: nat)
    requires Same(a[..], i, b, j, n)
    ensures var part := b[j..j + n]; forall k :: 0 <= k < n ==> part[k] == a[i + k]
  {
    var part := a[..][i..i + n];
    assert forall k :: 0 <= k < n ==> part[k] == a[i + k];
  }

  lemma SameMeans(a: array<Byte>, i: nat, b: seq<Byte>, j: int, n: nat)
    requires Same(a[..], i, b, j, n)
    ensures 0 <= j && a[i..i + n] == b[j..j + n]
  {
    assert a[i..i + n] == a[..][i..i + n];
  }

  lemma FrontOfTail(h: seq<Byte>, start: nat, n: nat)
    requires start + n <= |h|
    ensures h[start..][..n] == h[start..start + n]
  {
  }

  lemma AppendedSoFar(h: seq<Byte>, data: seq<Byte>, done: nat, count: nat)
    requires done + count <= |data|
    ensures (h + data[..done]) + data[done..done + count] == h + data[..done + count]
  {
  }

  lemma SplitArray<T>(a: array<T>, i: nat, j: nat, k: nat)
    requires i <= j <= k <= a.Length
    ensures a[i..j] + a[j..k] == a[i..k]
  {
  }

  lemma SlotIdempotent(a: int, k: nat, capacity: nat)
    requires capacity > 0
    ensures Slot(Slot(a, capacity) + k, capacity) == Slot(a + k, capacity)
  {
    DivMod(a, capacity);
    SlotShift(Slot(a, capacity) + k, a + k, capacity, a / capacity);
  }

  lemma SlotBack(n: int, used: nat, distance: nat, capacity: nat)
    requires capacity > 0
    ensures Slot(capacity + Slot(n - used, capacity) + used - distance, capacity) == Slot(n - distance, capacity)
  {
    DivMod(n - used, capacity);
    var q := (n - used) / capacity;
    MulDist(1, q, capacity);
    SlotShift(n - distance, capacity + Slot(n - used, capacity) + used - distance, capacity, 1 - q);
  }

  /** A copy that does not fit may fail the check: five bytes from two back, with three slots, all of them empty. */
  method OverrunExample() returns (result: Copied)
    ensures result.VerificationFailed?
  {
    hide Holds;
    var ring := new CircularBuffer(3);
    var data := new Byte[2](_ => 0);
    var _ := ring.Write(data, 0, 2, 0);
    var _ := ring.Read(data, 0, 2);
    SlotSmall(0, 3);
    result := ring.CopyFromSeekback(2, 5);
  }
}
