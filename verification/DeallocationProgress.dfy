/** How deallocate_all ends, and where it leaves each chunk, in every interleaving with other allocators. */
module DeallocationProgress {
  import opened AllocationProgress
  import opened BumpAllocators

  /** How many steps of its own an allocator is away from the end of deallocate_all. */
  function ReleaseLeft(a: Allocator): nat {
    match a.action
    case VisitChunk(_, filled) => 2 * |a.chunks| + if filled || a.chunks == [] then 1 else 2
    case PutIntoCache(_, _) => 2 * |a.chunks| + 3
    case ReturnToSystem(_, _) => 2 * |a.chunks| + 2
    case _ => 0
  }

  /**
   * The allocator has taken the first `r` of its chunks off the chain. Only if the guess was that the cache
   * is empty, the first one goes there; what the cache held instead, and all others, go to the system.
   */
  predicate Stage(chunks: seq<int>, guess: bool, a: Allocator, r: nat) {
    && r <= |chunks| && a.chunks == chunks[r..] && a.blocks == []
    && match a.action
       case VisitChunk(_, filled) => filled <==> guess || r > 0
       case PutIntoCache(chunk, _) => r == 1 && !guess && chunk == chunks[0]
       case ReturnToSystem(chunk, _) => r > 0 && ((r == 1 && !guess) || chunk == chunks[r - 1])
       case Finished => r == |chunks|
       case _ => false
  }

  /** How many of the first `r` chunks are no longer in hand. */
  function HandedOver(guess: bool, a: Allocator, r: nat): int {
    if a.action.PutIntoCache? || (a.action.ReturnToSystem? && !(r == 1 && !guess)) then r - 1 else r
  }

  /** The step puts the chunk into the cache, or gives it back to the system. */
  ghost predicate Releases(s: State, step: Step, id: nat, chunk: int, toCache: bool) {
    Enabled(s, step) &&
    if toCache then step == Park(id) && Next(s, step).cache == chunk
    else step == Return(id) && chunk in s.headers && chunk !in Next(s, step).headers
  }

  lemma ReleaseStarts(s: State, id: nat, guess: bool)
    requires Inv(s) && Enabled(s, DeallocateAll(id, guess))
    ensures id in s.allocators && id in Next(s, DeallocateAll(id, guess)).allocators
    ensures var a, b := s.allocators[id], Next(s, DeallocateAll(id, guess)).allocators[id];
            Stage(a.chunks, guess, b, 0) && HandedOver(guess, b, 0) == 0 && ReleaseLeft(b) <= 2 * |a.chunks| + 2
  {
    hide OwnedOnce, ChunksApart, BlocksOk;
    var a := s.allocators[id];
    assert AllocatorOk(s.headers, a);
    assert a.chunks != [] ==> InChain(s.headers, a.chunks, 0);
  }

  /** The step brings the allocator nearer to the end, and hands over at most the next chunk. */
  ghost predicate Advances(s: State, step: Step, id: nat, chunks: seq<int>, guess: bool, r: nat, r': nat)
    requires Enabled(s, step) && id in s.allocators
  {
    id in Next(s, step).allocators &&
    var a, b := s.allocators[id], Next(s, step).allocators[id];
    var m, m' := HandedOver(guess, a, r), HandedOver(guess, b, r');
    && Stage(chunks, guess, b, r') && ReleaseLeft(b) < ReleaseLeft(a) && 0 <= m <= m' <= m + 1
    && (m' > m ==> m < |chunks| && Releases(s, step, id, chunks[m], m == 0 && !guess))
  }

  /** What an allocator in the middle of deallocate_all is about to take is the first chunk of its chain. */
  lemma NextChunkIs(s: State, id: nat)
    requires Inv(s) && id in s.allocators
    ensures var a := s.allocators[id];
            && (a.action.VisitChunk? ==> (a.action.chunk == 0 <==> a.chunks == []))
            && (a.action.VisitChunk? && a.chunks != [] ==> a.action.chunk == a.chunks[0])
            && (a.action.ReturnToSystem? ==> a.action.chunk in s.headers)
  {
    hide OwnedOnce, ChunksApart, BlocksOk;
    var a := s.allocators[id];
    assert AllocatorOk(s.headers, a);
    assert a.chunks != [] ==> InChain(s.headers, a.chunks, 0);
    assert a.action.ReturnToSystem? ==> a.action.chunk in Hand(a);
  }

  lemma VisitAdvances(s: State, id: nat, chunks: seq<int>, guess: bool, r: nat)
    requires Inv(s) && Enabled(s, Visit(id)) && Stage(chunks, guess, s.allocators[id], r)
    ensures Advances(s, Visit(id), id, chunks, guess, r, if r < |chunks| then r + 1 else r)
  {
    hide Inv;
    NextChunkIs(s, id);
    if r < |chunks| {
      assert chunks[r..][1..] == chunks[r + 1..] && chunks[r..][0] == chunks[r];
    }
  }

  lemma ParkAdvances(s: State, id: nat, chunks: seq<int>, guess: bool, r: nat)
    requires Enabled(s, Park(id)) && Stage(chunks, guess, s.allocators[id], r)
    ensures Advances(s, Park(id), id, chunks, guess, r, r)
  {
  }

  lemma ReturnAdvances(s: State, id: nat, chunks: seq<int>, guess: bool, r: nat)
    requires Inv(s) && Enabled(s, Return(id)) && Stage(chunks, guess, s.allocators[id], r)
    ensures Advances(s, Return(id), id, chunks, guess, r, r)
  {
    hide Inv;
    NextChunkIs(s, id);
  }

  lemma ReleaseStep(s: State, step: Step, id: nat, chunks: seq<int>, guess: bool, r: nat) returns (r': nat)
    requires Inv(s) && Enabled(s, step) && id in s.allocators && Stage(chunks, guess, s.allocators[id], r)
    ensures if step.id == id then Advances(s, step, id, chunks, guess, r, r')
            else id in Next(s, step).allocators && Next(s, step).allocators[id] == s.allocators[id] && r' == r
  {
    hide Inv, Next, Advances;
    r' := r;
    if step.id != id {
      OthersStay(s, step, id);
    } else if step.Visit? {
      VisitAdvances(s, id, chunks, guess, r);
      r' := if r < |chunks| then r + 1 else r;
    } else if step.Park? {
      ParkAdvances(s, id, chunks, guess, r);
    } else {
      ReturnAdvances(s, id, chunks, guess, r);
    }
  }

  ghost predicate Released(states: seq<State>, steps: seq<Step>, id: nat, i: nat, j: nat, chunk: int, toCache: bool)
    requires i <= j <= |states| && j <= |steps|
  {
    exists k :: i <= k < j && Releases(states[k], steps[k], id, chunk, toCache)
  }

  /**
   * From deallocate_all on, an allocator of n chunks does nothing but release them, in at most 2 n + 2 steps
   * of its own, and has then finished. The chunks it has handed over went to the cache or to the system.
   */
  lemma {:induction false} DeallocationEnds(states: seq<State>, steps: seq<Step>, id: nat, guess: bool, i: nat, j: nat)
    returns (r: nat)
    requires Run(states, steps) && i < j < |states| && steps[i] == DeallocateAll(id, guess)
    ensures id in states[i].allocators && id in states[j].allocators
    ensures var chunks, b := states[i].allocators[id].chunks, states[j].allocators[id];
            && Stage(chunks, guess, b, r) && 0 <= HandedOver(guess, b, r) <= |chunks|
            && OwnSteps(steps, id, i + 1, j) + ReleaseLeft(b) <= 2 * |chunks| + 2
            && forall m :: 0 <= m < HandedOver(guess, b, r) ==>
                 Released(states, steps, id, i + 1, j, chunks[m], m == 0 && !guess)
  {
    hide Inv, Next, Enabled, Stage, HandedOver, ReleaseLeft, Releases;
    RunKeepsInv(states, steps, j - 1);
    if j == i + 1 {
      ReleaseStarts(states[i], id, guess);
      r := 0;
    } else {
      r := DeallocationEnds(states, steps, id, guess, i, j - 1);
      var chunks, s, step := states[i].allocators[id].chunks, states[j - 1], steps[j - 1];
      var before := HandedOver(guess, s.allocators[id], r);
      r := ReleaseStep(s, step, id, chunks, guess, r);
      forall m | 0 <= m < HandedOver(guess, states[j].allocators[id], r)
        ensures Released(states, steps, id, i + 1, j, chunks[m], m == 0 && !guess)
      {
        if m < before {
          assert Released(states, steps, id, i + 1, j - 1, chunks[m], m == 0 && !guess);
        } else {
          assert Releases(states[j - 1], steps[j - 1], id, chunks[m], m == 0 && !guess);
        }
      }
    }
  }

  /** After 2 n + 2 steps of its own at the latest the allocator has finished, and every chunk has gone. */
  lemma DeallocationReleasesAll(states: seq<State>, steps: seq<Step>, id: nat, guess: bool, i: nat, j: nat)
    requires Run(states, steps) && i < j < |states| && steps[i] == DeallocateAll(id, guess)
    ensures id in states[i].allocators && id in states[j].allocators
    ensures var chunks, b := states[i].allocators[id].chunks, states[j].allocators[id];
            && OwnSteps(steps, id, i + 1, j) <= 2 * |chunks| + 2
            && (b.action.Finished? || b.action.VisitChunk? || b.action.PutIntoCache? || b.action.ReturnToSystem?)
            && (OwnSteps(steps, id, i + 1, j) == 2 * |chunks| + 2 ==> b.action.Finished?)
            && (b.action.Finished? ==>
                  && Owned(b) == {} && b.blocks == []
                  && forall m :: 0 <= m < |chunks| ==>
                       Released(states, steps, id, i + 1, j, chunks[m], m == 0 && !guess))
  {
    hide Released, Releases, Next, Enabled, Inv;
    var r := DeallocationEnds(states, steps, id, guess, i, j);
  }
}
