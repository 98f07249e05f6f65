/**
 * When an allocation ends. An allocator that finds no room in its chunk takes another one and tries
 * again; it asks whether the block fits a chunk at all without regard to its alignment.
 */
module AllocationProgress {
  import opened Arithmetic
  import opened BumpAllocators

  /** The block fits a chunk that holds nothing yet. */
  predicate FitsFresh(chunk: int, size: nat, align: nat)
    requires align > 0
  {
    RoundUp(chunk + HEADER_SIZE, align) + size <= chunk + CHUNK_SIZE
  }

  /** The block asked for fits what is left of the current chunk. */
  predicate FitsHere(a: Allocator) {
    a.action.Bump? && a.action.align > 0 &&
    RoundUp(a.offset + a.current, a.action.align) + a.action.size <= a.current + CHUNK_SIZE
  }

  /** What bumping the offset does to an allocator: it hands out the block, or asks for another chunk. */
  predicate Decided(fits: bool, a: Allocator, b: Allocator) {
    a.action.Bump? && a.action.align > 0 && if fits then Delivered(a, b) else Postponed(a, b)
  }

  /** After a new chunk is linked, the block is handed out exactly if it fits a fresh chunk. */
  lemma FreshChunkDecides(s: State, id: nat)
    requires Inv(s) && Enabled(s, LinkChunk(id))
    ensures var request, linked := s.allocators[id].action, Next(s, LinkChunk(id));
            && request.align > 0 && Enabled(linked, BumpOffset(id))
            && linked.allocators[id].action == Bump(request.size, request.align)
            && Decided(FitsFresh(request.chunk, request.size, request.align),
                       linked.allocators[id], Next(linked, BumpOffset(id)).allocators[id])
  {
    hide RoundUp, AllocatorOk, OwnedOnce, ChunksApart;
    AlignPositive(s, id);
    LinkKeeps(s, id);
    BumpDelivers(Next(s, LinkChunk(id)), id);
  }

  lemma AlignPositive(s: State, id: nat)
    requires Inv(s) && id in s.allocators && Allocating(s.allocators[id].action)
    ensures s.allocators[id].action.align > 0
  {
    assert AllocatorOk(s.headers, s.allocators[id]);
  }

  // ----- Steps to the end -----

  predicate Allocating(action: Action) {
    action.TakeFromCache? || action.AskSystem? || action.Link? || action.Bump?
  }

  /**
   * How many steps of its own an allocator is away from the end of its allocation, if the next chunk fits the
   * block.
   */
  function StepsLeft(a: Allocator): nat {
    match a.action
    case TakeFromCache(_, _) => 4
    case AskSystem(_, _) => 3
    case Link(_, _, _) => 2
    case Bump(_, _) => if FitsHere(a) then 1 else 5
    case _ => 0
  }

  /** How many chunks it still takes then. */
  function ChunksLeft(a: Allocator): nat {
    if StepsLeft(a) >= 2 then 1 else 0
  }

  predicate LinksFittingChunk(s: State, step: Step) {
    step.LinkChunk? && step.id in s.allocators && s.allocators[step.id].action.Link? ==>
      var action := s.allocators[step.id].action; action.align > 0 && FitsFresh(action.chunk, action.size, action.align)
  }

  /** A step of the allocator itself brings it nearer to the end of its allocation. */
  lemma OwnStepNearsEnd(s: State, step: Step)
    requires Inv(s) && Enabled(s, step) && step.id in s.allocators && Allocating(s.allocators[step.id].action)
    requires LinksFittingChunk(s, step)
    ensures var a, b := s.allocators[step.id], Next(s, step).allocators[step.id];
            StepsLeft(b) < StepsLeft(a) && |b.chunks| + ChunksLeft(b) <= |a.chunks| + ChunksLeft(a)
  {
    hide RoundUp, Inv;
    AlignPositive(s, step.id);
  }

  lemma OthersStay(s: State, step: Step, id: nat)
    requires Enabled(s, step) && id in s.allocators && step.id != id
    ensures id in Next(s, step).allocators && Next(s, step).allocators[id] == s.allocators[id]
  {
  }

  /** From `i` up to `j` the allocator is in the middle of an allocation. */
  ghost predicate Busy(states: seq<State>, id: nat, i: nat, j: nat)
    requires i <= j <= |states|
  {
    forall k :: i <= k < j ==> id in states[k].allocators && Allocating(states[k].allocators[id].action)
  }

  ghost predicate ChunksFit(states: seq<State>, steps: seq<Step>, id: nat, i: nat, j: nat)
    requires i <= j <= |states| && j <= |steps|
  {
    forall k :: i <= k < j && steps[k].id == id ==> LinksFittingChunk(states[k], steps[k])
  }

  /** How many of the steps from `i` up to `j` are the allocator's own. */
  function OwnSteps(steps: seq<Step>, id: nat, i: nat, j: nat): nat
    requires i <= j <= |steps|
  {
    if i == j then 0 else OwnSteps(steps, id, i, j - 1) + if steps[j - 1].id == id then 1 else 0
  }

  /**
   * Whatever the other allocators do in between: an allocation whose chunks fit the block takes at
   * most five steps of its own and one new chunk.
   */
  lemma {:induction false} AllocationEnds(states: seq<State>, steps: seq<Step>, id: nat, i: nat, j: nat)
    requires Run(states, steps) && i <= j < |states| && id in states[i].allocators
    requires Busy(states, id, i, j) && ChunksFit(states, steps, id, i, j)
    ensures id in states[j].allocators
    ensures var a, b := states[i].allocators[id], states[j].allocators[id];
            && OwnSteps(steps, id, i, j) + StepsLeft(b) <= StepsLeft(a) <= 5
            && |b.chunks| + ChunksLeft(b) <= |a.chunks| + ChunksLeft(a) <= |a.chunks| + 1
  {
    hide Inv, Next, Enabled, StepsLeft, ChunksLeft, LinksFittingChunk, Allocating;
    StepsLeftBound(states[i].allocators[id]);
    if i < j {
      AllocationEnds(states, steps, id, i, j - 1);
      var s, step := states[j - 1], steps[j - 1];
      RunKeepsInv(states, steps, j - 1);
      if step.id == id {
        OwnStepNearsEnd(s, step);
        OwnStepKeepsId(s, step);
      } else {
        OthersStay(s, step, id);
      }
    }
  }

  lemma StepsLeftBound(a: Allocator)
    ensures StepsLeft(a) <= 5 && ChunksLeft(a) <= 1
  {
  }

  lemma OwnStepKeepsId(s: State, step: Step)
    requires Enabled(s, step)
    ensures step.id in Next(s, step).allocators
  {
  }

  // ----- Requests that always end -----

  /** With room for the padding in front of the block, every chunk fits it. */
  predicate LeavesRoom(size: nat, align: nat) {
    align > 0 && size + align - 1 <= CHUNK_SIZE - HEADER_SIZE
  }

  lemma RoomMeansFits(chunk: int, size: nat, align: nat)
    requires LeavesRoom(size, align)
    ensures FitsFresh(chunk, size, align)
  {
    hide RoundUp;
    RoundUpIsAligned(chunk + HEADER_SIZE, align);
  }

  predicate Asks(action: Action, size: nat, align: nat) {
    Allocating(action) && action.size == size && action.align == align
  }

  /** An allocation stays the same one until it ends. */
  lemma RequestStays(s: State, step: Step, id: nat, size: nat, align: nat)
    requires Enabled(s, step) && id in s.allocators && Asks(s.allocators[id].action, size, align)
    ensures id in Next(s, step).allocators
    ensures Allocating(Next(s, step).allocators[id].action) ==> Asks(Next(s, step).allocators[id].action, size, align)
  {
    hide RoundUp;
  }

  lemma {:induction false} SameRequest(states: seq<State>, steps: seq<Step>, id: nat, i: nat, j: nat, size: nat,
                                       align: nat)
    requires Run(states, steps) && i <= j < |states| && id in states[i].allocators && Busy(states, id, i, j + 1)
    requires Asks(states[i].allocators[id].action, size, align)
    ensures Asks(states[j].allocators[id].action, size, align)
  {
    hide Next, Enabled;
    if i < j {
      SameRequest(states, steps, id, i, j - 1, size, align);
      RequestStays(states[j - 1], steps[j - 1], id, size, align);
    }
  }

  /** Every allocation that leaves room for padding is over after five steps of its own, with at most one new chunk. */
  lemma RoomyAllocationEnds(states: seq<State>, steps: seq<Step>, id: nat, i: nat, j: nat, size: nat, align: nat)
    requires Run(states, steps) && i <= j < |states| && id in states[i].allocators && Busy(states, id, i, j)
    requires Asks(states[i].allocators[id].action, size, align) && LeavesRoom(size, align)
    ensures id in states[j].allocators
    ensures OwnSteps(steps, id, i, j) + StepsLeft(states[j].allocators[id]) <= 5
    ensures |states[j].allocators[id].chunks| <= |states[i].allocators[id].chunks| + 1
  {
    hide Next, Enabled, LeavesRoom, FitsFresh, StepsLeft;
    forall k | i <= k < j && steps[k].id == id
      ensures LinksFittingChunk(states[k], steps[k])
    {
      SameRequest(states, steps, id, i, k, size, align);
      RoomIsPositive(size, align);
      if steps[k].LinkChunk? && states[k].allocators[id].action.Link? {
        RoomMeansFits(states[k].allocators[id].action.chunk, size, align);
      }
    }
    AllocationEnds(states, steps, id, i, j);
  }

  lemma RoomIsPositive(size: nat, align: nat)
    requires LeavesRoom(size, align)
    ensures align > 0
  {
  }

  // ----- From the request to the block -----

  /** Asking changes nothing but what the allocator is about to do: it tries its current chunk, or gets a first one. */
  lemma AllocateAsks(s: State, id: nat, size: nat, align: nat)
    requires Inv(s) && Enabled(s, Allocate(id, size, align))
    ensures var a, s' := s.allocators[id], Next(s, Allocate(id, size, align));
            && s' == s.(allocators := s'.allocators) && s'.allocators.Keys == s.allocators.Keys
            && var b := s'.allocators[id];
               && b == a.(action := b.action) && Asks(b.action, size, align)
               && (if a.chunks == [] then b.action.TakeFromCache? else b.action.Bump?)
  {
    assert AllocatorOk(s.headers, s.allocators[id]);
    var a := s.allocators[id];
    if a.chunks != [] {
      assert InChain(s.headers, a.chunks, |a.chunks| - 1);
    }
  }

  /** A chunk in the cache is used before the system is asked for one. */
  lemma CachedChunkIsUsed(s: State, id: nat)
    requires Inv(s) && Enabled(s, Take(id))
    ensures var a, s' := s.allocators[id], Next(s, Take(id));
            && s'.cache == 0 && s'.headers == s.headers && s'.allocators[id] == a.(action := s'.allocators[id].action)
            && s'.allocators[id].action == if s.cache != 0 then Link(a.action.size, a.action.align, s.cache)
                                           else AskSystem(a.action.size, a.action.align)
  {
  }

  /** `b` is what `a` was, with one block more at the end, of this size and alignment and inside the current chunk. */
  predicate Enlarged(a: Allocator, b: Allocator, size: nat, align: nat) {
    |b.blocks| == |a.blocks| + 1 && b.blocks[..|a.blocks|] == a.blocks &&
    var block := b.blocks[|a.blocks|];
    block.size == size && block.align == align && Aligned(block) && Within(block, b.current)
  }

  /** One step during an allocation: it goes on, or the system refused a chunk, or the block is handed out. */
  lemma RequestStep(s: State, step: Step, id: nat, size: nat, align: nat)
    requires Inv(s) && Enabled(s, step) && id in s.allocators && Asks(s.allocators[id].action, size, align)
    ensures id in Next(s, step).allocators
    ensures var a, b := s.allocators[id], Next(s, step).allocators[id];
            || (Asks(b.action, size, align) && b.blocks == a.blocks)
            || (step == Refuse(id) && b.action.Idle? && b.blocks == a.blocks)
            || (step == BumpOffset(id) && b.action.Idle? && Enlarged(a, b, size, align))
  {
    hide Inv, RoundUp, Aligned, Within;
    if step == BumpOffset(id) {
      hide Next;
      BumpDelivers(s, id);
    } else if step.id != id {
      OthersStay(s, step, id);
    }
  }

  /** Until an allocation ends it stays the one asked for, and hands out nothing. */
  lemma {:induction false} NothingYet(states: seq<State>, steps: seq<Step>, id: nat, i: nat, j: nat, size: nat,
                                      align: nat)
    requires Run(states, steps) && i < j < |states| && steps[i] == Allocate(id, size, align) &&
             Busy(states, id, i + 1, j + 1)
    ensures id in states[i].allocators && id in states[j].allocators
    ensures Asks(states[j].allocators[id].action, size, align)
    ensures states[j].allocators[id].blocks == states[i].allocators[id].blocks
  {
    hide Inv, Next, Enabled, Asks, Enlarged;
    RunKeepsInv(states, steps, j - 1);
    if j == i + 1 {
      AskedFor(states[i], id, size, align);
    } else {
      NothingYet(states, steps, id, i, j - 1, size, align);
      RequestStep(states[j - 1], steps[j - 1], id, size, align);
    }
  }

  lemma AskedFor(s: State, id: nat, size: nat, align: nat)
    requires Inv(s) && Enabled(s, Allocate(id, size, align))
    ensures id in s.allocators && id in Next(s, Allocate(id, size, align)).allocators
    ensures var a, b := s.allocators[id], Next(s, Allocate(id, size, align)).allocators[id];
            Asks(b.action, size, align) && b.blocks == a.blocks
  {
    AllocateAsks(s, id, size, align);
  }

  /**
   * In every interleaving, the end of an allocation gives the allocator one block more, of exactly the size
   * and alignment asked for, or it gives none because the system refused a chunk.
   */
  lemma AllocationHandsOut(states: seq<State>, steps: seq<Step>, id: nat, i: nat, j: nat, size: nat, align: nat)
    requires Run(states, steps) && i + 1 < j < |states| && steps[i] == Allocate(id, size, align)
    requires Busy(states, id, i + 1, j) && id in states[j].allocators && !Allocating(states[j].allocators[id].action)
    ensures id in states[i].allocators && states[j].allocators[id].action.Idle?
    ensures var a, b := states[i].allocators[id], states[j].allocators[id];
            || (steps[j - 1] == BumpOffset(id) && Enlarged(a, b, size, align))
            || (steps[j - 1] == Refuse(id) && b.blocks == a.blocks)
  {
    hide Inv, Next, Enabled;
    RunKeepsInv(states, steps, j - 1);
    NothingYet(states, steps, id, i, j - 1, size, align);
    RequestStep(states[j - 1], steps[j - 1], id, size, align);
  }

  /** A block that fits what is left of the current chunk takes one step and no chunk. */
  lemma RoomIsUsed(states: seq<State>, steps: seq<Step>, id: nat, i: nat, j: nat, size: nat, align: nat)
    requires Run(states, steps) && i < j < |states| && steps[i] == Allocate(id, size, align)
    requires Busy(states, id, i + 1, j) && id in states[i].allocators
    requires FitsHere(states[i].allocators[id].(action := Bump(size, align))) && states[i].allocators[id].chunks != []
    ensures id in states[j].allocators && OwnSteps(steps, id, i + 1, j) <= 1
    ensures states[j].allocators[id].chunks == states[i].allocators[id].chunks
  {
    hide Next, Inv;
    RunKeepsInv(states, steps, i);
    AllocateAsks(states[i], id, size, align);
    StaysInChunk(states, steps, id, i + 1, j);
  }

  lemma {:induction false} StaysInChunk(states: seq<State>, steps: seq<Step>, id: nat, i: nat, j: nat)
    requires Run(states, steps) && i <= j < |states| && id in states[i].allocators && Busy(states, id, i, j)
    requires FitsHere(states[i].allocators[id])
    ensures id in states[j].allocators && states[j].allocators[id].chunks == states[i].allocators[id].chunks
    ensures OwnSteps(steps, id, i, j) <= 1
    ensures OwnSteps(steps, id, i, j) == 0 ==> states[j].allocators[id] == states[i].allocators[id]
    ensures OwnSteps(steps, id, i, j) == 1 ==> states[j].allocators[id].action.Idle?
  {
    if i < j {
      StaysInChunk(states, steps, id, i, j - 1);
      FittingStep(states[j - 1], steps[j - 1], id);
    }
  }

  lemma FittingStep(s: State, step: Step, id: nat)
    requires Enabled(s, step) && id in s.allocators && FitsHere(s.allocators[id])
    ensures var s' := Next(s, step);
            && id in s'.allocators && s'.allocators[id].chunks == s.allocators[id].chunks
            && if step.id == id then s'.allocators[id].action.Idle? else s'.allocators[id] == s.allocators[id]
  {
    hide RoundUp;
  }

  // ----- Requests no chunk can meet -----

  /** Of the chunks at multiples of the alignment, either all fit the block or none. */
  lemma AlignedChunkFits(chunk: int, size: nat, align: nat)
    requires align > 0 && chunk % align == 0
    ensures FitsFresh(chunk, size, align) <==> RoundUp(HEADER_SIZE, align) + size <= CHUNK_SIZE
  {
    var q, x := chunk / align, HEADER_SIZE + align - 1;
    DivMod(chunk, align);
    DivMod(x, align);
    MulDist(q, x / align, align);
    DivModUnique(chunk + x, q + x / align, x % align, align);
  }

  /** The check of the size lets it through, and no chunk at a multiple of 64 ever fits it. */
  lemma PassesCheckFitsNowhere(chunk: int)
    requires CHUNK_SIZE > HEADER_SIZE && chunk % 64 == 0
    ensures CHUNK_SIZE - HEADER_SIZE - 1 < CHUNK_SIZE - HEADER_SIZE &&
            !FitsFresh(chunk, CHUNK_SIZE - HEADER_SIZE - 1, 64)
  {
    AlignedChunkFits(chunk, CHUNK_SIZE - HEADER_SIZE - 1, 64);
  }

  /** What is left of a chunk fits no block that a fresh one does not. */
  lemma NoRoomLater(s: State, id: nat, size: nat, align: nat)
    requires Inv(s) && Enabled(s, BumpOffset(id)) && s.allocators[id].action == Bump(size, align)
    requires align > 0 && !FitsFresh(s.allocators[id].current, size, align)
    ensures Next(s, BumpOffset(id)).allocators[id] == s.allocators[id].(action := TakeFromCache(size, align))
  {
    hide RoundUp, ChunksApart, OwnedOnce, Chained, BlocksOk;
    var a := s.allocators[id];
    assert AllocatorOk(s.headers, a);
    RoundUpIsAligned(a.offset + a.current, align);
    RoundUpIsFirst(a.current + HEADER_SIZE, align, RoundUp(a.offset + a.current, align));
  }

  lemma CurrentHasHeader(s: State, id: nat)
    requires Inv(s) && id in s.allocators && s.allocators[id].action.Bump?
    ensures s.allocators[id].current in s.headers
  {
    var a := s.allocators[id];
    assert AllocatorOk(s.headers, a) && InChain(s.headers, a.chunks, |a.chunks| - 1);
  }

  /** No chunk outside the system fits the block, at any time from `i` up to `j`. */
  ghost predicate NoChunkFits(states: seq<State>, i: nat, j: nat, size: nat, align: nat)
    requires i <= j <= |states| && align > 0
  {
    forall k, c :: i <= k < j && c in states[k].headers ==> !FitsFresh(c, size, align)
  }

  /** One step of an allocation no chunk fits: it goes on, or the system refused it a chunk. */
  lemma HopelessStep(s: State, step: Step, id: nat, size: nat, align: nat)
    requires Inv(s) && Enabled(s, step) && id in s.allocators && Asks(s.allocators[id].action, size, align) && align > 0
    requires forall c <- s.headers :: !FitsFresh(c, size, align)
    ensures id in Next(s, step).allocators && Next(s, step).allocators[id].blocks == s.allocators[id].blocks
    ensures Asks(Next(s, step).allocators[id].action, size, align) || step == Refuse(id)
  {
    hide FitsFresh, RoundUp, Inv;
    if step == BumpOffset(id) {
      CurrentHasHeader(s, id);
      NoRoomLater(s, id, size, align);
    } else if step.id != id {
      OthersStay(s, step, id);
    }
  }

  /**
   * Then the allocation goes round through chunk after chunk: it never hands out a block, and only the
   * refusal of the system ends it.
   */
  lemma {:induction false} HopelessAllocation(states: seq<State>, steps: seq<Step>, id: nat, i: nat, j: nat, size: nat,
                                              align: nat)
    requires Run(states, steps) && i <= j < |states| && id in states[i].allocators
    requires Asks(states[i].allocators[id].action, size, align) && align > 0 && NoChunkFits(states, i, j, size, align)
    requires forall k :: i <= k < j ==> steps[k] != Refuse(id)
    ensures id in states[j].allocators && Asks(states[j].allocators[id].action, size, align)
    ensures states[j].allocators[id].blocks == states[i].allocators[id].blocks
  {
    hide Inv, Next, Enabled, FitsFresh, Asks;
    if i < j {
      HopelessAllocation(states, steps, id, i, j - 1, size, align);
      RunKeepsInv(states, steps, j - 1);
      HopelessStep(states[j - 1], steps[j - 1], id, size, align);
    }
  }
}
