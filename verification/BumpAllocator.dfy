/**
 * Bump allocators that share one atomic cache for an unused chunk: every interleaving of their
 * atomic steps. A chunk is named by its address.
 */
module BumpAllocators {
  import opened Arithmetic

  const MAGIC: int := 0xdfdfdfdfdfdfdfdf
  /** sizeof(ChunkHeader) */
  const HEADER_SIZE: nat := 16

  type ChunkSize = n: int | n >= HEADER_SIZE witness 4096
  /** m_chunk_size, the same for all allocators that share a cache */
  const CHUNK_SIZE: ChunkSize

  datatype Header = Header(magic: int, next: int)
  datatype Block = Block(address: int, size: nat, align: nat)

  /** What an allocator is about to do. */
  datatype Action =
    | Idle
    | TakeFromCache(size: nat, align: nat)
    | AskSystem(size: nat, align: nat)
    | Link(size: nat, align: nat, chunk: int)
    | Bump(size: nat, align: nat)
    | VisitChunk(chunk: int, cacheFilled: bool)
    | PutIntoCache(chunk: int, next: int)
    | ReturnToSystem(chunk: int, next: int)
    | Finished

  /** `chunks` and `blocks` are the chunks it has linked and the allocations it has handed out. */
  datatype Allocator = Allocator(head: int, current: int, offset: int, action: Action, chunks: seq<int>,
                                 blocks: seq<Block>)

  /** `headers` covers the chunks that are not with the system. */
  datatype State = State(cache: int, headers: map<int, Header>, allocators: map<nat, Allocator>)

  // ----- Steps -----

  datatype Step =
    | Create(id: nat)
    | Allocate(id: nat, size: nat, align: nat)
    | Take(id: nat)
    | Provide(id: nat, chunk: int, junk: Header)
    | Refuse(id: nat)
    | LinkChunk(id: nat)
    | BumpOffset(id: nat)
    | DeallocateAll(id: nat, guess: bool)
    | Visit(id: nat)
    | Park(id: nat)
    | Return(id: nat)

  function RoundUp(x: int, align: nat): int
    requires align > 0
  {
    (x + align - 1) / align * align
  }

  predicate Apart(c: int, d: int) {
    c + CHUNK_SIZE <= d || d + CHUNK_SIZE <= c
  }

  /** What an allocator and its caller need for a step. */
  predicate Enabled(s: State, step: Step) {
    if step.Create? then step.id !in s.allocators else
    step.id in s.allocators &&
    var a := s.allocators[step.id];
    match step
    case Create(_) => false
    case Allocate(_, size, align) => a.action.Idle? && size < CHUNK_SIZE - HEADER_SIZE && align > 0
    case Take(_) => a.action.TakeFromCache?
    case Provide(_, chunk, _) => a.action.AskSystem? && chunk > 0 && forall c <- s.headers :: Apart(chunk, c)
    case Refuse(_) => a.action.AskSystem?
    case LinkChunk(_) => a.action.Link? && a.action.chunk in s.headers && (a.head != 0 ==> a.current in s.headers)
    case BumpOffset(_) => a.action.Bump? && a.action.align > 0
    case DeallocateAll(_, _) => a.action.Idle?
    case Visit(_) => a.action.VisitChunk? && (a.action.chunk != 0 ==> a.action.chunk in s.headers && a.chunks != [])
    case Park(_) => a.action.PutIntoCache?
    case Return(_) => a.action.ReturnToSystem?
  }

  function Next(s: State, step: Step): State
    requires Enabled(s, step)
  {
    if step.Create? then s.(allocators := s.allocators[step.id := Allocator(0, 0, 0, Idle, [], [])]) else
    var a := s.allocators[step.id];
    match step
    case Allocate(id, size, align) =>
      Updated(s, id, a.(action := if a.current == 0 then TakeFromCache(size, align) else Bump(size, align)))
    case Take(id) =>
      // exchange(0)
      var action := if s.cache != 0 then Link(a.action.size, a.action.align, s.cache)
                    else AskSystem(a.action.size, a.action.align);
      Updated(s.(cache := 0), id, a.(action := action))
    case Provide(id, chunk, junk) =>
      Updated(s.(headers := s.headers[chunk := junk]), id, a.(action := Link(a.action.size, a.action.align, chunk)))
    case Refuse(id) => Updated(s, id, a.(action := Idle))
    case LinkChunk(id) => Updated(s.(headers := LinkedHeaders(s.headers, a)), id, Linked(a))
    case BumpOffset(id) => Updated(s, id, Bumped(a))
    case DeallocateAll(id, guess) =>
      Updated(s, id, a.(blocks := [], action := if a.head == 0 then Finished else VisitChunk(a.head, guess)))
    case Visit(id) =>
      if a.action.chunk == 0 then Updated(s, id, a.(action := Finished))
      else
        var chunk, header := a.action.chunk, s.headers[a.action.chunk];
        if a.action.cacheFilled
        then Updated(s, id, a.(chunks := a.chunks[1..], action := ReturnToSystem(chunk, header.next)))
        else Updated(s.(headers := s.headers[chunk := header.(next := 0)]), id,
                     a.(chunks := a.chunks[1..], action := PutIntoCache(chunk, header.next)))
    case Park(id) =>
      // exchange(chunk)
      var action := if s.cache == 0 then VisitChunk(a.action.next, true) else ReturnToSystem(s.cache, a.action.next);
      Updated(s.(cache := a.action.chunk), id, a.(action := action))
    case Return(id) =>
      Updated(s.(headers := s.headers - {a.action.chunk}), id, a.(action := VisitChunk(a.action.next, true)))
  }

  function Updated(s: State, id: nat, a: Allocator): State {
    s.(allocators := s.allocators[id := a])
  }

  function LinkedHeaders(headers: map<int, Header>, a: Allocator): map<int, Header>
    requires a.action.Link? && (a.head != 0 ==> a.current in headers)
  {
    var started := headers[a.action.chunk := Header(MAGIC, 0)];
    if a.head == 0 then started else started[a.current := started[a.current].(next := a.action.chunk)]
  }

  function Linked(a: Allocator): Allocator
    requires a.action.Link?
  {
    var chunk := a.action.chunk;
    Allocator(if a.head == 0 then chunk else a.head, chunk, HEADER_SIZE,
              Bump(a.action.size, a.action.align), a.chunks + [chunk], a.blocks)
  }

  function Bumped(a: Allocator): Allocator
    requires a.action.Bump? && a.action.align > 0
  {
    var aligned := RoundUp(a.offset + a.current, a.action.align);
    var nextOffset := aligned + a.action.size - a.current;
    if nextOffset > CHUNK_SIZE then a.(action := TakeFromCache(a.action.size, a.action.align))
    else a.(offset := nextOffset, action := Idle, blocks := a.blocks + [Block(aligned, a.action.size, a.action.align)])
  }

  // ----- The invariant -----

  function Hand(a: Allocator): set<int> {
    match a.action
    case Link(_, _, chunk) => {chunk}
    case PutIntoCache(chunk, _) => {chunk}
    case ReturnToSystem(chunk, _) => {chunk}
    case _ => {}
  }

  /** The chunks an allocator is responsible for. */
  function Owned(a: Allocator): set<int> {
    (set c | c in a.chunks) + Hand(a)
  }

  function At(chunks: seq<int>, k: nat): int {
    if k < |chunks| then chunks[k] else 0
  }

  /** The headers chain the chunks in order. */
  ghost predicate Chained(headers: map<int, Header>, chunks: seq<int>) {
    && (forall i, j :: 0 <= i < j < |chunks| ==> chunks[i] != chunks[j])
    && (forall k :: 0 <= k < |chunks| ==> InChain(headers, chunks, k))
  }

  predicate InChain(headers: map<int, Header>, chunks: seq<int>, k: nat)
    requires k < |chunks|
  {
    chunks[k] > 0 && chunks[k] in headers && headers[chunks[k]] == Header(MAGIC, At(chunks, k + 1))
  }

  predicate Aligned(block: Block) {
    block.align > 0 && block.address % block.align == 0
  }

  predicate Within(block: Block, chunk: int) {
    chunk + HEADER_SIZE <= block.address && block.address + block.size <= chunk + CHUNK_SIZE
  }

  predicate Disjoint(b: Block, c: Block) {
    b.address + b.size <= c.address || c.address + c.size <= b.address
  }

  /**
   * Allocations are aligned, in linked chunks past the header, apart from each other, and below the offset in
   * the current chunk.
   */
  ghost predicate BlocksOk(a: Allocator) {
    && (forall i :: 0 <= i < |a.blocks| ==> Aligned(a.blocks[i]) && Housed(a, a.blocks[i]))
    && (forall i, j :: 0 <= i < j < |a.blocks| ==> Disjoint(a.blocks[i], a.blocks[j]))
  }

  ghost predicate Housed(a: Allocator, block: Block) {
    && (exists k :: 0 <= k < |a.chunks| && Within(block, a.chunks[k]))
    && (Within(block, a.current) ==> block.address + block.size <= a.current + a.offset)
  }

  /** The state of one allocator between its steps. */
  ghost predicate AllocatorOk(headers: map<int, Header>, a: Allocator) {
    && Chained(headers, a.chunks) && BlocksOk(a)
    && (forall c <- Hand(a) :: c > 0 && c in headers && c !in a.chunks)
    && match a.action
       case VisitChunk(chunk, _) => chunk == At(a.chunks, 0) && a.blocks == []
       case PutIntoCache(_, next) => next == At(a.chunks, 0) && a.blocks == []
       case ReturnToSystem(_, next) => next == At(a.chunks, 0) && a.blocks == []
       case Finished => a.chunks == [] && a.blocks == []
       case _ =>
         && a.head == At(a.chunks, 0) && a.current == (if a.chunks == [] then 0 else a.chunks[|a.chunks| - 1])
         && (a.chunks != [] ==> HEADER_SIZE <= a.offset <= CHUNK_SIZE)
         && (a.action.TakeFromCache? || a.action.AskSystem? || a.action.Link? || a.action.Bump? ==> a.action.align > 0)
         && (a.action.Bump? ==> a.chunks != [])
  }

  ghost predicate ChunksApart(headers: map<int, Header>) {
    && (forall c <- headers :: c > 0)
    && (forall c, d :: c in headers && d in headers && c != d ==> Apart(c, d))
  }

  /** Every chunk outside the system has exactly one owner: the cache or one allocator. */
  ghost predicate OwnedOnce(s: State) {
    && (s.cache != 0 ==> s.cache in s.headers)
    && (forall id <- s.allocators :: s.cache !in Owned(s.allocators[id]))
    && (forall id, jd :: id in s.allocators && jd in s.allocators && id != jd ==>
        Owned(s.allocators[id]) !! Owned(s.allocators[jd]))
    && (forall c <- s.headers :: c == s.cache || exists id :: id in s.allocators && c in Owned(s.allocators[id]))
  }

  ghost predicate Inv(s: State) {
    && ChunksApart(s.headers) && OwnedOnce(s)
    && (forall id <- s.allocators :: AllocatorOk(s.headers, s.allocators[id]))
  }

  // ----- One allocator at a time -----

  lemma OwnedHasHeader(headers: map<int, Header>, a: Allocator, c: int)
    requires AllocatorOk(headers, a) && c in Owned(a)
    ensures c > 0 && c in headers
  {
    if c in a.chunks {
      var k :| 0 <= k < |a.chunks| && a.chunks[k] == c;
      assert InChain(headers, a.chunks, k);
    }
  }

  lemma OwnedAll(headers: map<int, Header>, a: Allocator)
    requires AllocatorOk(headers, a)
    ensures forall c <- Owned(a) :: c > 0 && c in headers
  {
    forall c | c in Owned(a)
      ensures c > 0 && c in headers
    {
      OwnedHasHeader(headers, a, c);
    }
  }

  /** An allocator is not affected by what happens to headers it does not own. */
  lemma HeadersElsewhere(headers: map<int, Header>, headers': map<int, Header>, a: Allocator)
    requires AllocatorOk(headers, a)
    requires forall c <- Owned(a) :: c in headers ==> c in headers' && headers'[c] == headers[c]
    ensures AllocatorOk(headers', a)
  {
    forall k | 0 <= k < |a.chunks|
      ensures InChain(headers', a.chunks, k)
    {
      assert InChain(headers, a.chunks, k) && a.chunks[k] in Owned(a);
    }
  }

  /**
   * A step of allocator `id` that passes chunks between it, the cache and the system, and changes only headers
   * of its own.
   */
  ghost predicate Local(s: State, s': State, id: nat) {
    && id in s.allocators && id in s'.allocators && s'.allocators == s.allocators[id := s'.allocators[id]]
    && s'.cache !in Owned(s'.allocators[id])
    && var mine, mine' := Owned(s.allocators[id]) + {s.cache}, Owned(s'.allocators[id]) + {s'.cache};
       && (forall c <- mine' :: c == 0 || (c in s'.headers && (c in mine || c !in s.headers)))
       && (forall c <- s.headers :: c !in mine ==> c in s'.headers && s'.headers[c] == s.headers[c])
       && (forall c <- s'.headers :: c in mine' || (c in s.headers && c !in mine))
  }

  lemma OthersOwn(s: State, id: nat, jd: nat, c: int)
    requires Inv(s) && id in s.allocators && jd in s.allocators && jd != id && c in Owned(s.allocators[jd])
    ensures c > 0 && c in s.headers && c !in Owned(s.allocators[id]) + {s.cache}
  {
    hide AllocatorOk, Owned;
    OwnedHasHeader(s.headers, s.allocators[jd], c);
  }

  lemma OthersKept(s: State, s': State, id: nat, jd: nat)
    requires Inv(s) && Local(s, s', id) && jd in s.allocators && jd != id
    ensures jd in s'.allocators && AllocatorOk(s'.headers, s'.allocators[jd])
    ensures s'.cache !in Owned(s'.allocators[jd]) && Owned(s'.allocators[jd]) !! Owned(s'.allocators[id])
  {
    hide AllocatorOk, Owned, ChunksApart;
    var b := s.allocators[jd];
    forall c | c in Owned(b)
      ensures c in s.headers && c in s'.headers && s'.headers[c] == s.headers[c] && c != s'.cache &&
              c !in Owned(s'.allocators[id])
    {
      OthersOwn(s, id, jd, c);
    }
    HeadersElsewhere(s.headers, s'.headers, b);
  }

  lemma StillOwned(s: State, s': State, id: nat, c: int)
    requires Inv(s) && Local(s, s', id) && c in s'.headers
    ensures c == s'.cache || exists jd :: jd in s'.allocators && c in Owned(s'.allocators[jd])
  {
    hide AllocatorOk, Owned, ChunksApart;
    if c !in Owned(s'.allocators[id]) + {s'.cache} {
      var jd :| jd in s.allocators && c in Owned(s.allocators[jd]);
      assert jd != id && s'.allocators[jd] == s.allocators[jd];
    }
  }

  lemma LocalStep(s: State, s': State, id: nat)
    requires Inv(s) && Local(s, s', id) && ChunksApart(s'.headers) && AllocatorOk(s'.headers, s'.allocators[id])
    ensures Inv(s')
  {
    hide AllocatorOk, Owned, ChunksApart;
    forall jd | jd in s'.allocators && jd != id
      ensures AllocatorOk(s'.headers, s'.allocators[jd]) && s'.cache !in Owned(s'.allocators[jd]) &&
              Owned(s'.allocators[jd]) !! Owned(s'.allocators[id])
    {
      OthersKept(s, s', id, jd);
    }
    forall c | c in s'.headers
      ensures c == s'.cache || exists jd :: jd in s'.allocators && c in Owned(s'.allocators[jd])
    {
      StillOwned(s, s', id, c);
    }
    forall i, j | i in s'.allocators && j in s'.allocators && i != j
      ensures Owned(s'.allocators[i]) !! Owned(s'.allocators[j])
    {
      if i != id && j != id {
        assert s'.allocators[i] == s.allocators[i] && s'.allocators[j] == s.allocators[j];
      }
    }
  }

  /** A step that leaves all chunks where they are. */
  lemma QuietStep(s: State, id: nat, a: Allocator)
    requires Inv(s) && id in s.allocators && Owned(a) == Owned(s.allocators[id]) && AllocatorOk(s.headers, a)
    ensures Inv(Updated(s, id, a))
  {
    hide AllocatorOk, Owned, ChunksApart;
    forall c | c in Owned(a)
      ensures c in s.headers
    {
      OwnedHasHeader(s.headers, a, c);
    }
    LocalStep(s, Updated(s, id, a), id);
  }

  // ----- The steps -----

  lemma CreatedOk(headers: map<int, Header>)
    ensures var a := Allocator(0, 0, 0, Idle, [], []); AllocatorOk(headers, a) && Owned(a) == {}
  {
  }

  lemma CreateKeeps(s: State, id: nat)
    requires Inv(s) && id !in s.allocators
    ensures Inv(Next(s, Create(id)))
  {
    hide AllocatorOk, Owned, ChunksApart;
    var a := Allocator(0, 0, 0, Idle, [], []);
    var s' := Next(s, Create(id));
    CreatedOk(s.headers);
    assert s'.allocators[id] == a && forall jd <- s.allocators :: s'.allocators[jd] == s.allocators[jd];
    forall c | c in s'.headers
      ensures c == s'.cache || exists jd :: jd in s'.allocators && c in Owned(s'.allocators[jd])
    {
      if c != s.cache {
        var jd :| jd in s.allocators && c in Owned(s.allocators[jd]);
        assert jd in s'.allocators && c in Owned(s'.allocators[jd]);
      }
    }
  }

  lemma AllocatedOk(headers: map<int, Header>, a: Allocator, size: nat, align: nat)
    requires AllocatorOk(headers, a) && a.action.Idle? && align > 0
    ensures var a' := a.(action := if a.current == 0 then TakeFromCache(size, align) else Bump(size, align));
            AllocatorOk(headers, a') && Owned(a') == Owned(a)
  {
    SameBlocks(a, a.(action := if a.current == 0 then TakeFromCache(size, align) else Bump(size, align)));
  }

  lemma AllocateKeeps(s: State, id: nat, size: nat, align: nat)
    requires Inv(s) && Enabled(s, Allocate(id, size, align))
    ensures Inv(Next(s, Allocate(id, size, align)))
  {
    hide AllocatorOk, Owned;
    var a := s.allocators[id];
    AllocatedOk(s.headers, a, size, align);
    QuietStep(s, id, a.(action := if a.current == 0 then TakeFromCache(size, align) else Bump(size, align)));
  }

  lemma SameBlocks(a: Allocator, a': Allocator)
    requires BlocksOk(a) && a'.blocks == a.blocks && a'.chunks == a.chunks && a'.current == a.current &&
             a'.offset >= a.offset
    ensures BlocksOk(a')
  {
    assert forall i :: 0 <= i < |a.blocks| ==> Housed(a, a.blocks[i]);
  }

  lemma RefusedOk(headers: map<int, Header>, a: Allocator)
    requires AllocatorOk(headers, a) && a.action.AskSystem?
    ensures AllocatorOk(headers, a.(action := Idle)) && Owned(a.(action := Idle)) == Owned(a)
  {
    SameBlocks(a, a.(action := Idle));
  }

  lemma RefuseKeeps(s: State, id: nat)
    requires Inv(s) && Enabled(s, Refuse(id))
    ensures Inv(Next(s, Refuse(id)))
  {
    hide AllocatorOk, Owned;
    RefusedOk(s.headers, s.allocators[id]);
    QuietStep(s, id, s.allocators[id].(action := Idle));
  }

  lemma TakenOk(headers: map<int, Header>, a: Allocator, cache: int)
    requires AllocatorOk(headers, a) && a.action.TakeFromCache? && cache > 0 && cache in headers && cache !in Owned(a)
    ensures var a' := a.(action := Link(a.action.size, a.action.align, cache));
            AllocatorOk(headers, a') && Owned(a') == Owned(a) + {cache}
  {
    SameBlocks(a, a.(action := Link(a.action.size, a.action.align, cache)));
    assert cache in a.chunks ==> cache in Owned(a);
  }

  lemma NothingTakenOk(headers: map<int, Header>, a: Allocator)
    requires AllocatorOk(headers, a) && a.action.TakeFromCache?
    ensures var a' := a.(action := AskSystem(a.action.size, a.action.align));
            AllocatorOk(headers, a') && Owned(a') == Owned(a)
  {
    SameBlocks(a, a.(action := AskSystem(a.action.size, a.action.align)));
  }

  lemma TakeKeeps(s: State, id: nat)
    requires Inv(s) && Enabled(s, Take(id))
    ensures Inv(Next(s, Take(id)))
  {
    hide AllocatorOk, Owned;
    var a, s' := s.allocators[id], Next(s, Take(id));
    OwnedAll(s.headers, a);
    if s.cache == 0 {
      NothingTakenOk(s.headers, a);
    } else {
      TakenOk(s.headers, a, s.cache);
    }
    LocalStep(s, s', id);
  }

  lemma ProvidedOk(headers: map<int, Header>, a: Allocator, chunk: int, junk: Header)
    requires AllocatorOk(headers, a) && a.action.AskSystem? && chunk > 0 && chunk !in headers
    ensures var a' := a.(action := Link(a.action.size, a.action.align, chunk));
            AllocatorOk(headers[chunk := junk], a') && Owned(a') == Owned(a) + {chunk}
  {
    OwnedAll(headers, a);
    HeadersElsewhere(headers, headers[chunk := junk], a);
    SameBlocks(a, a.(action := Link(a.action.size, a.action.align, chunk)));
    assert chunk in a.chunks ==> chunk in Owned(a);
  }

  lemma ProvideKeeps(s: State, id: nat, chunk: int, junk: Header)
    requires Inv(s) && Enabled(s, Provide(id, chunk, junk))
    ensures Inv(Next(s, Provide(id, chunk, junk)))
  {
    hide AllocatorOk, Owned;
    assert chunk !in s.headers;
    OwnedAll(s.headers, s.allocators[id]);
    ProvidedOk(s.headers, s.allocators[id], chunk, junk);
    LocalStep(s, Next(s, Provide(id, chunk, junk)), id);
  }

  lemma LinkedOk(headers: map<int, Header>, a: Allocator)
    requires AllocatorOk(headers, a) && a.action.Link? && ChunksApart(headers)
    ensures a.head != 0 ==> a.current in headers
    ensures AllocatorOk(LinkedHeaders(headers, a), Linked(a)) && Owned(Linked(a)) == Owned(a)
    ensures LinkedHeaders(headers, a).Keys == headers.Keys
  {
    var chunk, n := a.action.chunk, |a.chunks|;
    assert chunk in Hand(a);
    if n > 0 {
      assert InChain(headers, a.chunks, n - 1);
      assert InChain(headers, a.chunks, 0);
    }
    var headers', chunks' := LinkedHeaders(headers, a), a.chunks + [chunk];
    forall k | 0 <= k < |chunks'|
      ensures InChain(headers', chunks', k)
    {
      if k < n {
        assert InChain(headers, a.chunks, k);
      }
    }
    LinkedBlocks(headers, a);
  }

  lemma LinkedBlocks(headers: map<int, Header>, a: Allocator)
    requires AllocatorOk(headers, a) && a.action.Link? && ChunksApart(headers)
    ensures BlocksOk(Linked(a))
  {
    var chunk, a' := a.action.chunk, Linked(a);
    assert chunk in Hand(a);
    forall i | 0 <= i < |a.blocks|
      ensures Housed(a', a.blocks[i])
    {
      assert Housed(a, a.blocks[i]);
      var k :| 0 <= k < |a.chunks| && Within(a.blocks[i], a.chunks[k]);
      assert InChain(headers, a.chunks, k) && a'.chunks[k] == a.chunks[k];
      assert Apart(a.chunks[k], chunk);
    }
  }

  lemma LinkKeeps(s: State, id: nat)
    requires Inv(s) && Enabled(s, LinkChunk(id))
    ensures Inv(Next(s, LinkChunk(id)))
  {
    hide AllocatorOk, Owned;
    var a, s' := s.allocators[id], Next(s, LinkChunk(id));
    LinkedOk(s.headers, a);
    var a' := Linked(a);
    LinkedTouches(s.headers, a);
    OwnedAll(s'.headers, a');
    LocalStep(s, s', id);
  }

  lemma LinkedTouches(headers: map<int, Header>, a: Allocator)
    requires AllocatorOk(headers, a) && a.action.Link? && (a.head != 0 ==> a.current in headers)
    ensures forall c <- headers :: c !in Owned(a) ==> LinkedHeaders(headers, a)[c] == headers[c]
  {
    assert a.action.chunk in Owned(a);
    assert a.head != 0 ==> a.current in a.chunks;
  }

  lemma RoundUpIsAligned(x: int, align: nat)
    requires align > 0
    ensures x <= RoundUp(x, align) < x + align && RoundUp(x, align) % align == 0
  {
    var q, r := (x + align - 1) / align, (x + align - 1) % align;
    DivMod(x + align - 1, align);
    DivModUnique(q * align, q, 0, align);
  }

  lemma RoundUpIsFirst(x: int, align: nat, address: int)
    requires align > 0 && address >= x && address % align == 0
    ensures RoundUp(x, align) <= address
  {
    var q, r := address / align, (x + align - 1) / align;
    DivMod(address, align);
    DivMod(x + align - 1, align);
    MulDist(r, q, align);
    if r != q {
      MulAway(r - q, align);
    }
  }

  lemma BumpedOk(headers: map<int, Header>, a: Allocator)
    requires AllocatorOk(headers, a) && a.action.Bump? && ChunksApart(headers)
    ensures a.action.align > 0 && AllocatorOk(headers, Bumped(a)) && Owned(Bumped(a)) == Owned(a)
  {
    var a' := Bumped(a);
    if a'.action.TakeFromCache? {
      SameBlocks(a, a');
    } else {
      RoundUpIsAligned(a.offset + a.current, a.action.align);
      BumpedBlocks(headers, a);
    }
  }

  lemma BumpedBlocks(headers: map<int, Header>, a: Allocator)
    requires AllocatorOk(headers, a) && a.action.Bump? && ChunksApart(headers) && Bumped(a).action.Idle?
    requires a.offset + a.current <= RoundUp(a.offset + a.current, a.action.align)
    requires RoundUp(a.offset + a.current, a.action.align) % a.action.align == 0
    ensures BlocksOk(Bumped(a))
  {
    hide RoundUp;
    var a', n := Bumped(a), |a.chunks|;
    var block := a'.blocks[|a.blocks|];
    assert InChain(headers, a.chunks, n - 1);
    assert Within(block, a.chunks[n - 1]);
    assert Housed(a', block);
    forall i | 0 <= i < |a.blocks|
      ensures Housed(a', a.blocks[i]) && Disjoint(a.blocks[i], block)
    {
      assert Housed(a, a.blocks[i]);
      var k :| 0 <= k < |a.chunks| && Within(a.blocks[i], a.chunks[k]);
      assert InChain(headers, a.chunks, k);
      assert k != n - 1 ==> Apart(a.chunks[k], a.current);
    }
  }

  lemma BumpKeeps(s: State, id: nat)
    requires Inv(s) && Enabled(s, BumpOffset(id))
    ensures Inv(Next(s, BumpOffset(id)))
  {
    hide AllocatorOk, Owned;
    BumpedOk(s.headers, s.allocators[id]);
    QuietStep(s, id, Bumped(s.allocators[id]));
  }

  lemma DeallocatedOk(headers: map<int, Header>, a: Allocator, guess: bool)
    requires AllocatorOk(headers, a) && a.action.Idle?
    ensures var a' := a.(blocks := [], action := if a.head == 0 then Finished else VisitChunk(a.head, guess));
            AllocatorOk(headers, a') && Owned(a') == Owned(a)
  {
    assert a.chunks != [] ==> InChain(headers, a.chunks, 0);
  }

  lemma DeallocateKeeps(s: State, id: nat, guess: bool)
    requires Inv(s) && Enabled(s, DeallocateAll(id, guess))
    ensures Inv(Next(s, DeallocateAll(id, guess)))
  {
    hide AllocatorOk, Owned;
    var a := s.allocators[id];
    DeallocatedOk(s.headers, a, guess);
    QuietStep(s, id, a.(blocks := [], action := if a.head == 0 then Finished else VisitChunk(a.head, guess)));
  }

  lemma VisitedOk(headers: map<int, Header>, headers': map<int, Header>, a: Allocator, action: Action)
    requires AllocatorOk(headers, a) && a.action.VisitChunk? && a.chunks != []
    requires action == PutIntoCache(a.chunks[0], At(a.chunks, 1)) ||
             action == ReturnToSystem(a.chunks[0], At(a.chunks, 1))
    requires forall c <- headers :: c in headers' && (c != a.chunks[0] ==> headers'[c] == headers[c])
    ensures var a' := a.(chunks := a.chunks[1..], action := action);
            AllocatorOk(headers', a') && Owned(a') == Owned(a) && a.chunks[0] in headers &&
              headers[a.chunks[0]].next == At(a.chunks, 1)
  {
    var a' := a.(chunks := a.chunks[1..], action := action);
    assert InChain(headers, a.chunks, 0);
    forall k | 0 <= k < |a'.chunks|
      ensures InChain(headers', a'.chunks, k)
    {
      assert InChain(headers, a.chunks, k + 1) && a.chunks[k + 1] != a.chunks[0];
    }
    assert a.chunks[0] !in a'.chunks;
    assert a.chunks == [a.chunks[0]] + a'.chunks;
    assert Owned(a') == Owned(a);
  }

  lemma VisitEndOk(headers: map<int, Header>, a: Allocator)
    requires AllocatorOk(headers, a) && a.action.VisitChunk?
    ensures a.action.chunk == 0 ==>
              AllocatorOk(headers, a.(action := Finished)) && Owned(a.(action := Finished)) == Owned(a)
    ensures a.action.chunk != 0 ==>
              a.chunks != [] && a.action.chunk == a.chunks[0] && a.chunks[0] in Owned(a) &&
                InChain(headers, a.chunks, 0)
  {
    assert a.chunks != [] ==> InChain(headers, a.chunks, 0);
  }

  lemma VisitKeeps(s: State, id: nat)
    requires Inv(s) && Enabled(s, Visit(id))
    ensures Inv(Next(s, Visit(id)))
  {
    hide AllocatorOk, Owned;
    var a, s' := s.allocators[id], Next(s, Visit(id));
    VisitEndOk(s.headers, a);
    if a.action.chunk == 0 {
      QuietStep(s, id, a.(action := Finished));
    } else {
      OwnedAll(s.headers, a);
      VisitedOk(s.headers, s'.headers, a, s'.allocators[id].action);
      LocalStep(s, s', id);
    }
  }

  /** Giving a chunk away, and possibly receiving another one for it. */
  lemma ParkedOk(headers: map<int, Header>, a: Allocator, cache: int)
    requires AllocatorOk(headers, a) && a.action.PutIntoCache? && cache !in Owned(a) &&
             (cache != 0 ==> cache > 0 && cache in headers)
    ensures a.action.chunk in Owned(a)
    ensures var action := if cache == 0 then VisitChunk(a.action.next, true) else ReturnToSystem(cache, a.action.next);
            var a' := a.(action := action);
            AllocatorOk(headers, a') && Owned(a') == Owned(a) - {a.action.chunk} + (if cache == 0 then {} else {cache})
  {
    assert a.action.chunk in Hand(a);
    assert cache in a.chunks ==> cache in Owned(a);
  }

  lemma ParkKeeps(s: State, id: nat)
    requires Inv(s) && Enabled(s, Park(id))
    ensures Inv(Next(s, Park(id)))
  {
    hide AllocatorOk, Owned;
    var a := s.allocators[id];
    OwnedAll(s.headers, a);
    ParkedOk(s.headers, a, s.cache);
    LocalStep(s, Next(s, Park(id)), id);
  }

  lemma ReturnedOk(headers: map<int, Header>, a: Allocator)
    requires AllocatorOk(headers, a) && a.action.ReturnToSystem?
    ensures a.action.chunk in Owned(a)
    ensures var a' := a.(action := VisitChunk(a.action.next, true));
            AllocatorOk(headers - {a.action.chunk}, a') && Owned(a') == Owned(a) - {a.action.chunk}
  {
    var chunk := a.action.chunk;
    assert chunk in Hand(a);
    forall k | 0 <= k < |a.chunks|
      ensures InChain(headers - {chunk}, a.chunks, k)
    {
      assert InChain(headers, a.chunks, k) && a.chunks[k] in a.chunks;
    }
  }

  lemma ReturnKeeps(s: State, id: nat)
    requires Inv(s) && Enabled(s, Return(id))
    ensures Inv(Next(s, Return(id)))
  {
    hide AllocatorOk, Owned;
    var a, s' := s.allocators[id], Next(s, Return(id));
    OwnedAll(s.headers, a);
    ReturnedOk(s.headers, a);
    LocalStep(s, s', id);
  }

  lemma StepKeepsInv(s: State, step: Step)
    requires Inv(s) && Enabled(s, step)
    ensures Inv(Next(s, step))
  {
    hide Inv, Next;
    match step
    case Create(id) => CreateKeeps(s, id);
    case Allocate(id, size, align) => AllocateKeeps(s, id, size, align);
    case Take(id) => TakeKeeps(s, id);
    case Provide(id, chunk, junk) => ProvideKeeps(s, id, chunk, junk);
    case Refuse(id) => RefuseKeeps(s, id);
    case LinkChunk(id) => LinkKeeps(s, id);
    case BumpOffset(id) => BumpKeeps(s, id);
    case DeallocateAll(id, guess) => DeallocateKeeps(s, id, guess);
    case Visit(id) => VisitKeeps(s, id);
    case Park(id) => ParkKeeps(s, id);
    case Return(id) => ReturnKeeps(s, id);
  }

  // ----- Runs -----

  const START := State(0, map[], map[])

  /** The states of a run: each is the result of a step enabled in the one before. */
  ghost predicate Run(states: seq<State>, steps: seq<Step>) {
    && |states| == |steps| + 1 && states[0] == START
    && forall i :: 0 <= i < |steps| ==> Enabled(states[i], steps[i]) && states[i + 1] == Next(states[i], steps[i])
  }

  lemma {:induction false} RunKeepsInv(states: seq<State>, steps: seq<Step>, i: nat)
    requires Run(states, steps) && i < |states|
    ensures Inv(states[i])
  {
    if i > 0 {
      RunKeepsInv(states, steps, i - 1);
      StepKeepsInv(states[i - 1], steps[i - 1]);
    }
  }

  /** At any time, any two allocations of any two allocators are aligned, past their chunk headers and disjoint. */
  lemma AllocationsAreDisjoint(s: State, id: nat, i: nat, jd: nat, j: nat)
    requires Inv(s) && id in s.allocators && jd in s.allocators && i < |s.allocators[id].blocks| &&
             j < |s.allocators[jd].blocks|
    ensures Aligned(s.allocators[id].blocks[i])
    ensures exists c :: c in Owned(s.allocators[id]) && c in s.headers && Within(s.allocators[id].blocks[i], c)
    ensures id != jd || i != j ==> Disjoint(s.allocators[id].blocks[i], s.allocators[jd].blocks[j])
  {
    var a := s.allocators[id];
    var c := ChunkOf(s, id, i);
    var d := ChunkOf(s, jd, j);
    assert BlocksOk(a) && Aligned(a.blocks[i]);
    if id == jd {
      assert i < j ==> Disjoint(a.blocks[i], a.blocks[j]);
      assert j < i ==> Disjoint(a.blocks[j], a.blocks[i]);
    } else {
      hide AllocatorOk, Owned;
      assert Apart(c, d);
    }
  }

  lemma ChunkOf(s: State, id: nat, i: nat) returns (c: int)
    requires Inv(s) && id in s.allocators && i < |s.allocators[id].blocks|
    ensures c in Owned(s.allocators[id]) && c in s.headers && Within(s.allocators[id].blocks[i], c)
  {
    var a := s.allocators[id];
    assert Housed(a, a.blocks[i]);
    var k :| 0 <= k < |a.chunks| && Within(a.blocks[i], a.chunks[k]);
    assert InChain(s.headers, a.chunks, k);
    c := a.chunks[k];
  }

  /** The conditions the code checks: a chunk to link comes after a proper last one, and a visited chunk is proper. */
  lemma ChecksHold(s: State, id: nat)
    requires Inv(s) && id in s.allocators
    ensures var a := s.allocators[id];
            && (a.action.Link? && a.head == 0 ==> a.current == 0)
            && (a.action.Link? && a.head != 0 ==>
                a.current != 0 && a.current in s.headers && s.headers[a.current] == Header(MAGIC, 0))
            && (a.action.Bump? ==> a.current != 0)
            && (a.action.VisitChunk? && a.action.chunk != 0 ==>
                a.chunks != [] && a.action.chunk in s.headers && s.headers[a.action.chunk].magic == MAGIC)
            && (a.action.VisitChunk? && a.action.chunk != 0 && |a.chunks| == 1 ==> s.headers[a.action.chunk].next == 0)
  {
    var a := s.allocators[id];
    if a.chunks != [] {
      assert InChain(s.headers, a.chunks, 0) && InChain(s.headers, a.chunks, |a.chunks| - 1);
    }
  }

  /**
   * `b` is `a` with one block more, of the size and alignment asked for, at the first fitting address of the
   * current chunk.
   */
  predicate Delivered(a: Allocator, b: Allocator)
    requires a.action.Bump?
  {
    |b.blocks| == |a.blocks| + 1 &&
    var block := b.blocks[|a.blocks|];
    && b == a.(blocks := a.blocks + [block], offset := block.address + block.size - a.current, action := Idle)
    && block.size == a.action.size && block.align == a.action.align && Aligned(block) && Within(block, a.current)
    && a.current + a.offset <= block.address < a.current + a.offset + block.align
  }

  /** `b` is `a` about to get another chunk, because the block asked for does not fit what is left. */
  predicate Postponed(a: Allocator, b: Allocator)
    requires a.action.Bump? && a.action.align > 0
  {
    && b == a.(action := TakeFromCache(a.action.size, a.action.align))
    && forall address :: address >= a.current + a.offset && address % a.action.align == 0 ==>
       address + a.action.size > a.current + CHUNK_SIZE
  }

  lemma BumpedDelivers(headers: map<int, Header>, a: Allocator)
    requires AllocatorOk(headers, a) && a.action.Bump?
    ensures Delivered(a, Bumped(a)) || Postponed(a, Bumped(a))
  {
    hide Chained, BlocksOk, Hand, RoundUp;
    var x, align := a.offset + a.current, a.action.align;
    RoundUpIsAligned(x, align);
    if Bumped(a).action.TakeFromCache? {
      forall address | address >= x && address % align == 0
        ensures address + a.action.size > a.current + CHUNK_SIZE
      {
        RoundUpIsFirst(x, align, address);
      }
    }
  }

  /** The step that hands out memory hands out a block exactly if one fits what is left of the chunk. */
  lemma BumpDelivers(s: State, id: nat)
    requires Inv(s) && Enabled(s, BumpOffset(id))
    ensures var a, b := s.allocators[id], Next(s, BumpOffset(id)).allocators[id]; Delivered(a, b) || Postponed(a, b)
  {
    hide AllocatorOk, OwnedOnce, ChunksApart, Bumped, Delivered, Postponed;
    BumpedDelivers(s.headers, s.allocators[id]);
  }

  /** An allocator that has finished owns no chunk: all went to the cache or back to the system. */
  lemma FinishedOwnsNothing(s: State, id: nat)
    requires Inv(s) && id in s.allocators && s.allocators[id].action.Finished?
    ensures Owned(s.allocators[id]) == {} && forall c <- s.headers ::
              c == s.cache || exists jd :: jd in s.allocators && jd != id && c in Owned(s.allocators[jd])
  {
    var a := s.allocators[id];
    assert Owned(a) == {};
    forall c | c in s.headers
      ensures c == s.cache || exists jd :: jd in s.allocators && jd != id && c in Owned(s.allocators[jd])
    {
      if c != s.cache {
        var jd :| jd in s.allocators && c in Owned(s.allocators[jd]);
      }
    }
  }

  /** No allocator gets stuck in the middle of an operation. */
  lemma StepsAreEnabled(s: State, id: nat)
    requires Inv(s) && id in s.allocators
    ensures var action := s.allocators[id].action;
            && (action.TakeFromCache? ==> Enabled(s, Take(id)))
            && (action.AskSystem? ==> Enabled(s, Refuse(id)))
            && (action.Link? ==> Enabled(s, LinkChunk(id)))
            && (action.Bump? ==> Enabled(s, BumpOffset(id)))
            && (action.VisitChunk? ==> Enabled(s, Visit(id)))
            && (action.PutIntoCache? ==> Enabled(s, Park(id)))
            && (action.ReturnToSystem? ==> Enabled(s, Return(id)))
  {
    ChecksHold(s, id);
    var a := s.allocators[id];
    assert a.action.Link? ==> a.action.chunk in Hand(a);
  }
}
