/**
 * Robin Hood probing on the ideal positions alone: entry `i` of a table is the ideal index of the
 * value stored in bucket `i`, or FREE.
 */
module RobinHood {

  const FREE: int := -1

  function Next(i: int, capacity: nat): int {
    if i + 1 == capacity then 0 else i + 1
  }

  function Previous(i: int, capacity: nat): int {
    if i == 0 then capacity - 1 else i - 1
  }

  /** The number of steps from bucket `a` to bucket `b`, wrapping around at the end. */
  function Distance(a: int, b: int, capacity: nat): int {
    if b < a then capacity + b - a else b - a
  }

  /** The probe length of bucket `i`; a free bucket counts as -1. */
  function Probe(t: seq<int>, i: int): int
    requires 0 <= i < |t|
  {
    if t[i] == FREE then -1 else Distance(t[i], i, |t|)
  }

  predicate Placed(t: seq<int>) {
    forall i :: 0 <= i < |t| ==> t[i] == FREE || 0 <= t[i] < |t|
  }

  /** No bucket is more than one step poorer than the bucket before it. */
  predicate StepOk(t: seq<int>, i: int)
    requires 0 <= i < |t|
  {
    Probe(t, Next(i, |t|)) <= Probe(t, i) + 1
  }

  predicate Ordered(t: seq<int>) {
    Placed(t) && forall i :: 0 <= i < |t| ==> StepOk(t, i)
  }

  /** Every bucket between a value's ideal position and its actual one is at least as poor as the way already gone. */
  lemma {:induction false} NoGap(t: seq<int>, i: int, j: int)
    requires Ordered(t) && 0 <= i < |t| && 0 <= j < |t| && Distance(j, i, |t|) <= Probe(t, i)
    ensures Probe(t, j) >= Probe(t, i) - Distance(j, i, |t|)
    decreases Distance(j, i, |t|)
  {
    if j != i {
      NoGap(t, i, Next(j, |t|));
      assert StepOk(t, j);
    }
  }

  /** Counting from a free bucket, no value is further from its ideal position than from that bucket. */
  lemma {:induction false} BoundedByFree(t: seq<int>, f: int, i: int)
    requires Ordered(t) && 0 <= f < |t| && t[f] == FREE && 0 <= i < |t|
    ensures Probe(t, i) < Distance(f, i, |t|) || (i == f && Probe(t, i) == -1)
    decreases Distance(f, i, |t|)
  {
    if i != f {
      var p := Previous(i, |t|);
      BoundedByFree(t, f, p);
      assert StepOk(t, p);
    }
  }

  /** A value that is poorer than the occupant, but not too poor for the bucket before, may take the bucket. */
  lemma PlaceKeepsOrder(t: seq<int>, i: int, ideal: int)
    requires Ordered(t) && 0 <= i < |t| && 0 <= ideal < |t|
    requires Probe(t, i) < Distance(ideal, i, |t|)
    requires Distance(ideal, i, |t|) <= Probe(t, Previous(i, |t|)) + 1
    ensures Ordered(t[i := ideal])
  {
    var t' := t[i := ideal];
    forall j | 0 <= j < |t|
      ensures StepOk(t', j)
    {
      assert StepOk(t, j) && StepOk(t, i);
    }
  }

  /** The value at bucket `hole` is being removed; closing the gap is possible from the bucket after it. */
  predicate OrderedAround(t: seq<int>, hole: int)
    requires 0 <= hole < |t|
  {
    && Placed(t)
    && (forall i :: 0 <= i < |t| && i != hole && Next(i, |t|) != hole ==> StepOk(t, i))
    && Probe(t, Next(hole, |t|)) <= Probe(t, Previous(hole, |t|)) + 2
  }

  lemma RemovalOpensHole(t: seq<int>, i: int)
    requires Ordered(t) && 0 <= i < |t|
    ensures OrderedAround(t, i)
  {
    assert StepOk(t, i) && StepOk(t, Previous(i, |t|));
  }

  /** Shifting a value that is not at its ideal position back into the hole moves the hole on. */
  lemma ShiftMovesHole(t: seq<int>, hole: int, f: int)
    requires 0 <= hole < |t| && OrderedAround(t, hole)
    requires 0 <= f < |t| && f != hole && t[f] == FREE
    requires Probe(t, Next(hole, |t|)) >= 1
    ensures var from := Next(hole, |t|);
            && Distance(t[from], hole, |t|) == Probe(t, from) - 1
            && OrderedAround(t[hole := t[from]], from)
  {
    var n, from := |t|, Next(hole, |t|);
    var t' := t[hole := t[from]];
    assert StepOk(t, from);
    forall i | 0 <= i < n && i != from && Next(i, n) != from
      ensures StepOk(t', i)
    {
      if Next(i, n) != hole {
        assert StepOk(t, i);
      }
    }
  }

  lemma ClosingHole(t: seq<int>, hole: int)
    requires 0 <= hole < |t| && OrderedAround(t, hole) && Probe(t, Next(hole, |t|)) <= 0
    ensures Ordered(t[hole := FREE])
  {
    var t' := t[hole := FREE];
    forall i | 0 <= i < |t|
      ensures StepOk(t', i)
    {
      if i != hole && Next(i, |t|) != hole {
        assert StepOk(t, i);
      }
    }
  }

  // ----- The saturating state byte -----

  const CALCULATE_LENGTH: nat := 255

  /** bucket_state_for_probe_length, with 0 for a free bucket. */
  function StateFor(probe: int): nat
    requires probe >= -1
  {
    if probe > 253 then CALCULATE_LENGTH else probe + 1
  }
}
