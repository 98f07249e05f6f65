/** Asynchronous input streams: the peek and read protocol, slices, and reading up to a delimiter. */
module AsyncStreams {
  import opened Common

  // ----- Streams as their subclasses see them -----

  /**
   * A stream with what it has buffered and what is still to arrive: chunk after chunk, then the end
   * or a failure. A slice is a stream of the next `length` bytes of another one.
   */
  datatype Stream =
    | Base(buffer: seq<Byte>, chunks: seq<seq<Byte>>, fails: bool)
    | Slice(inner: Stream, length: nat, encounteredEof: bool)
  {
    /** Chunks are not empty, and a slice knows whether the stream beneath has all of it. */
    predicate Valid() {
      match this
      case Base(_, chunks, _) => forall i :: 0 <= i < |chunks| ==> chunks[i] != []
      case Slice(inner, length, encounteredEof) => inner.Valid() && (encounteredEof <==> |inner.Buffered()| >= length)
    }

    /** buffered_data_unchecked */
    function Buffered(): seq<Byte> {
      match this
      case Base(buffer, _, _) => buffer
      case Slice(inner, length, _) => Upto(inner.Buffered(), length)
    }

    /** dequeue */
    function Dequeue(bytes: nat): Stream
      requires bytes <= |Buffered()|
    {
      match this
      case Base(buffer, chunks, fails) => Base(buffer[bytes..], chunks, fails)
      case Slice(inner, length, encounteredEof) => Slice(inner.Dequeue(bytes), length - bytes, encounteredEof)
    }

    /** enqueue_some, once what it waits for has happened */
    function EnqueueSome(): Enqueued {
      match this
      case Base(buffer, chunks, fails) =>
        if chunks != [] then More(Base(buffer + chunks[0], chunks[1..], fails)) else if fails then Failed else AtEof
      case Slice(inner, length, encounteredEof) =>
        if encounteredEof then AtEof else
        match inner.EnqueueSome()
        case More(stream) => More(Slice(stream, length, encounteredEof || |stream.Buffered()| >= length))
        case AtEof => Failed
        case Failed => Failed
    }

    /** All the bytes the stream has still to give. */
    ghost function Remaining(): seq<Byte> {
      match this
      case Base(buffer, chunks, _) => buffer + Joined(chunks)
      case Slice(inner, length, _) => Upto(inner.Remaining(), length)
    }

    /** It ends rather than fails. */
    ghost predicate Complete() {
      match this
      case Base(_, _, fails) => !fails
      case Slice(inner, length, _) => |inner.Remaining()| >= length
    }

    /** The number of chunks to come. */
    ghost function Chunks(): nat {
      match this
      case Base(_, chunks, _) => |chunks|
      case Slice(inner, _, _) => inner.Chunks()
    }
  }

  datatype Enqueued = More(stream: Stream) | AtEof | Failed

  function Upto(s: seq<Byte>, length: nat): seq<Byte> {
    s[..if |s| < length then |s| else length]
  }

  lemma UptoLength(s: seq<Byte>, length: nat)
    ensures |Upto(s, length)| == if |s| < length then |s| else length
  {
  }

  lemma UptoDrop(s: seq<Byte>, length: nat, bytes: nat)
    requires bytes <= |s| && bytes <= length
    ensures bytes <= |Upto(s, length)| && Upto(s[bytes..], length - bytes) == Upto(s, length)[bytes..]
  {
  }

  function Joined(chunks: seq<seq<Byte>>): seq<Byte> {
    if chunks == [] then [] else chunks[0] + Joined(chunks[1..])
  }

  /** A new slice, as its constructor makes it. */
  function MakeSlice(stream: Stream, length: nat): Stream {
    Slice(stream, length, |stream.Buffered()| >= length)
  }

  lemma {:induction false} BufferedIsPrefix(s: Stream)
    ensures s.Buffered() <= s.Remaining()
  {
    if s.Slice? {
      BufferedIsPrefix(s.inner);
    }
  }

  /**
   * What the protocol asks of enqueue_some: at least one byte more and nothing else changed; or the end, and
   * nothing changed.
   */
  lemma {:induction false} EnqueueKeepsContract(s: Stream)
    requires s.Valid()
    ensures match s.EnqueueSome()
            case More(s') =>
              && s'.Valid() && s'.Remaining() == s.Remaining() && (s'.Complete() <==> s.Complete())
              && s.Buffered() <= s'.Buffered() && |s.Buffered()| < |s'.Buffered()| && s'.Chunks() == s.Chunks() - 1
            case AtEof => s.Buffered() == s.Remaining() && s.Complete()
            case Failed => !s.Complete() && s.Buffered() == s.Remaining()
  {
    match s
    case Base(buffer, chunks, fails) =>
      if chunks != [] {
        assert (buffer + chunks[0]) + Joined(chunks[1..]) == buffer + Joined(chunks);
      } else {
        assert buffer + [] == buffer;
      }
    case Slice(inner, length, _) =>
      BufferedIsPrefix(inner);
      EnqueueKeepsContract(inner);
  }

  /** What it asks of dequeue: the bytes are gone from the front, and the flag of a slice stays right. */
  lemma {:induction false} DequeueKeepsContract(s: Stream, bytes: nat)
    requires s.Valid() && bytes <= |s.Buffered()|
    ensures var s' := s.Dequeue(bytes);
            && bytes <= |s.Remaining()| && s'.Valid() && s'.Buffered() == s.Buffered()[bytes..] &&
               s'.Remaining() == s.Remaining()[bytes..]
            && (s'.Complete() <==> s.Complete()) && s'.Chunks() == s.Chunks()
  {
    BufferedIsPrefix(s);
    match s
    case Base(buffer, chunks, _) =>
      assert (buffer + Joined(chunks))[bytes..] == buffer[bytes..] + Joined(chunks);
    case Slice(inner, length, _) =>
      hide Upto;
      UptoLength(inner.Buffered(), length);
      UptoLength(inner.Remaining(), length);
      BufferedIsPrefix(inner);
      DequeueKeepsContract(inner, bytes);
      UptoDrop(inner.Buffered(), length, bytes);
      UptoDrop(inner.Remaining(), length, bytes);
  }

  lemma {:induction false} DequeueNothing(s: Stream)
    ensures s.Dequeue(0) == s
  {
    if s.Slice? {
      DequeueNothing(s.inner);
    }
  }

  /**
   * After any number of bytes of a slice, the stream beneath has gone on by as many, and the slice has as many
   * fewer left.
   */
  lemma SliceAdvancesInner(s: Stream, bytes: nat)
    requires s.Slice? && s.Valid() && bytes <= |s.Buffered()|
    ensures var s' := s.Dequeue(bytes);
            bytes <= |s.inner.Remaining()| && s'.Slice? && s'.length == s.length - bytes && s'.inner.Valid() &&
              s'.inner.Remaining() == s.inner.Remaining()[bytes..]
  {
    BufferedIsPrefix(s.inner);
    DequeueKeepsContract(s.inner, bytes);
  }

  lemma EnqueueKeepsInner(s: Stream)
    requires s.Slice? && s.Valid()
    ensures var r := s.EnqueueSome();
            r.More? ==>
              r.stream.Slice? && r.stream.length == s.length && r.stream.inner.Remaining() == s.inner.Remaining()
  {
    EnqueueKeepsContract(s.inner);
  }

  // ----- Searching -----

  predicate OccursAt(data: seq<Byte>, delimiter: seq<Byte>, p: nat) {
    p + |delimiter| <= |data| && data[p..p + |delimiter|] == delimiter
  }

  /** StringUtils::find: the first occurrence from `start` on. */
  method Find(haystack: seq<Byte>, needle: seq<Byte>, start: nat) returns (position: Option<nat>)
    ensures position.Some? ==> start <= position.value && OccursAt(haystack, needle, position.value)
    ensures position.Some? ==> forall p :: start <= p < position.value ==> !OccursAt(haystack, needle, p)
    ensures position.None? ==> forall p :: start <= p ==> !OccursAt(haystack, needle, p)
  {
    var p := start;
    while p + |needle| <= |haystack|
      invariant start <= p && forall q :: start <= q < p ==> !OccursAt(haystack, needle, q)
    {
      if haystack[p..p + |needle|] == needle {
        return Some(p);
      }
      p := p + 1;
    }
    return None;
  }

  /** The delimiter ends within the first `length` bytes, and not before. */
  ghost predicate ShortestUntil(data: seq<Byte>, delimiter: seq<Byte>, length: nat) {
    && |delimiter| <= length && OccursAt(data, delimiter, length - |delimiter|)
    && forall p :: 0 <= p < length - |delimiter| ==> !OccursAt(data, delimiter, p)
  }

  /** The first peek shows what is buffered, and that is enough. */
  ghost predicate AtOnce(buffered: seq<Byte>, isReadingPeek: bool, delimiter: seq<Byte>, maxSize: Option<nat>) {
    !isReadingPeek && buffered != [] && Enough(buffered, delimiter, maxSize)
  }

  /** The delimiter is there, or as much as the maximum size. */
  ghost predicate Enough(buffered: seq<Byte>, delimiter: seq<Byte>, maxSize: Option<nat>) {
    !Absent(buffered, delimiter) || (maxSize.Some? && |buffered| >= maxSize.value)
  }

  /**
   * The stream as soon as it has enough, if it ever has. What is buffered counts only if it is not empty and has
   * not been peeked at already; otherwise at least one chunk is awaited.
   */
  ghost function Awaited(s: Stream, peeked: bool, delimiter: seq<Byte>, maxSize: Option<nat>): Option<Stream>
    requires s.Valid()
    decreases s.Chunks()
  {
    if AtOnce(s.Buffered(), peeked, delimiter, maxSize) then Some(s) else
    EnqueueKeepsContract(s);
    match s.EnqueueSome()
    case More(s') => Awaited(s', false, delimiter, maxSize)
    case AtEof => None
    case Failed => None
  }

  /** One peek, at what is buffered or at one chunk more, is one step towards the stream that has enough. */
  lemma AwaitedStep(s: Stream, peeked: bool, s': Stream, delimiter: seq<Byte>, maxSize: Option<nat>)
    requires s.Valid() && s'.Valid() && s'.Buffered() != []
    requires if peeked || s.Buffered() == [] then s.EnqueueSome() == More(s') else s' == s
    ensures Awaited(s, peeked, delimiter, maxSize)
            == if Enough(s'.Buffered(), delimiter, maxSize) then Some(s') else Awaited(s', true, delimiter, maxSize)
  {
    hide Stream.EnqueueSome, Stream.Valid, Stream.Buffered, Stream.Chunks, Enough;
  }

  lemma AwaitedEnds(s: Stream, peeked: bool, delimiter: seq<Byte>, maxSize: Option<nat>)
    requires s.Valid() && (peeked || s.Buffered() == []) && !s.EnqueueSome().More?
    ensures Awaited(s, peeked, delimiter, maxSize).None?
  {
  }

  /** What is awaited is all there is so far, and when it never comes: for every way the bytes are chunked. */
  lemma {:induction false} AwaitedMeans(s: Stream, peeked: bool, delimiter: seq<Byte>, maxSize: Option<nat>)
    requires s.Valid() && delimiter != []
    ensures var awaited := Awaited(s, peeked, delimiter, maxSize);
            && (awaited.None? <==> || (peeked && s.Buffered() == s.Remaining())
                                   || (Absent(s.Remaining(), delimiter) && TooFew(s.Remaining(), maxSize)))
            && (awaited.Some? ==> awaited.value.Valid() && s.Buffered() <= awaited.value.Buffered())
            && (AtOnce(s.Buffered(), peeked, delimiter, maxSize) ==> awaited == Some(s))
    decreases s.Chunks()
  {
    hide Stream.EnqueueSome, Stream.Valid, Stream.Buffered, Stream.Chunks, Stream.Remaining, Absent;
    BufferedIsPrefix(s);
    AbsentFromPrefix(s.Buffered(), s.Remaining(), delimiter);
    if !AtOnce(s.Buffered(), peeked, delimiter, maxSize) {
      EnqueueKeepsContract(s);
      match s.EnqueueSome()
      case More(s') =>
        BufferedIsPrefix(s');
        AwaitedMeans(s', false, delimiter, maxSize);
      case AtEof =>
      case Failed =>
    }
  }

  lemma AbsentFromPrefix(data: seq<Byte>, all: seq<Byte>, delimiter: seq<Byte>)
    requires data <= all && delimiter != []
    ensures Absent(all, delimiter) ==> Absent(data, delimiter)
    ensures Absent([], delimiter)
  {
    hide OccursAt;
    if Absent(all, delimiter) {
      forall p: nat ensures !OccursAt(data, delimiter, p) {
        if OccursAt(data, delimiter, p) {
          OccursThere(data, delimiter, p);
          OccursInPrefix(data, all, delimiter, p);
        }
      }
    }
    forall p: nat ensures !OccursAt([], delimiter, p) {
      if OccursAt([], delimiter, p) {
        OccursThere([], delimiter, p);
        assert false;
      }
    }
  }

  lemma OccursThere(data: seq<Byte>, delimiter: seq<Byte>, p: nat)
    requires OccursAt(data, delimiter, p)
    ensures p + |delimiter| <= |data|
  {
  }

  /** The data ends without reaching the maximum size, if there is one. */
  predicate TooFew(data: seq<Byte>, maxSize: Option<nat>) {
    maxSize.None? || |data| < maxSize.value || data == []
  }

  ghost predicate Absent(data: seq<Byte>, delimiter: seq<Byte>) {
    forall p: nat :: !OccursAt(data, delimiter, p)
  }

  lemma OccursInPrefix(data: seq<Byte>, all: seq<Byte>, delimiter: seq<Byte>, p: nat)
    requires data <= all && p + |delimiter| <= |data|
    ensures OccursAt(data, delimiter, p) <==> OccursAt(all, delimiter, p)
  {
    assert data[p..p + |delimiter|] == all[p..p + |delimiter|];
  }

  /** A slice and the stream beneath it have both gone on by this many bytes. */
  ghost predicate SliceAdvanced(was: Stream, now: Stream, bytes: nat) {
    && was.Slice? && now.Slice? && bytes <= was.length && now.length == was.length - bytes
    && bytes <= |was.inner.Remaining()| && now.inner.Remaining() == was.inner.Remaining()[bytes..]
  }

  lemma SliceStays(s: Stream)
    ensures s.Slice? ==> SliceAdvanced(s, s, 0)
  {
  }

  lemma SliceEnqueued(was: Stream, s: Stream)
    requires s.Valid() && (was.Slice? ==> s.Slice? && SliceAdvanced(was, s, 0))
    ensures var r := s.EnqueueSome(); r.More? && was.Slice? ==> r.stream.Slice? && SliceAdvanced(was, r.stream, 0)
  {
    hide Stream.Remaining, Stream.Buffered;
    if s.Slice? {
      EnqueueKeepsInner(s);
    }
  }

  lemma SliceDequeued(was: Stream, s: Stream, bytes: nat)
    requires s.Valid() && bytes <= |s.Buffered()| && (was.Slice? ==> s.Slice? && SliceAdvanced(was, s, 0))
    ensures was.Slice? ==> s.Dequeue(bytes).Slice? && SliceAdvanced(was, s.Dequeue(bytes), bytes)
  {
    if was.Slice? {
      SliceAdvancesInner(s, bytes);
    }
  }

  // ----- Streams as their users see them -----

  datatype Peeked = Peeked(data: seq<Byte>, isEof: bool) | PeekError
  datatype Result = Success(data: seq<Byte>) | Error

  class AsyncInputStream {
    var stream: Stream
    var isReadingPeek: bool
    var open: bool

    predicate Valid()
      reads this
    {
      open && stream.Valid()
    }

    constructor (stream: Stream)
      requires stream.Valid()
      ensures Valid() && this.stream == stream && !isReadingPeek
    {
      this.stream, isReadingPeek, open := stream, false, true;
    }

    /** peek_or_eof: what is buffered, and with each further call at least one byte more. */
    method PeekOrEof() returns (result: Peeked)
      requires Valid()
      modifies this
      ensures stream.Remaining() == old(stream.Remaining())
      ensures old(stream.Chunks()) - 1 <= stream.Chunks() <= old(stream.Chunks())
      ensures result.Peeked? ==>
                Valid() && isReadingPeek && result.data == stream.Buffered() && old(stream.Buffered()) <= result.data
      ensures result.Peeked? && !result.isEof && old(isReadingPeek) ==>
                stream.Chunks() < old(stream.Chunks()) && |old(stream.Buffered())| < |result.data|
      ensures result.Peeked? && result.isEof ==> stream == old(stream) && stream.Buffered() == stream.Remaining()
      ensures result.PeekError? ==> !open && stream.Buffered() == stream.Remaining()
      ensures result.PeekError? || result.isEof ==> old(isReadingPeek) || old(stream.Buffered()) == []
      ensures result.PeekError? || result.isEof ==> stream.Buffered() == old(stream.Buffered())
      ensures !old(isReadingPeek) && old(stream.Buffered()) != [] ==>
                result == Peeked(old(stream.Buffered()), false) && stream == old(stream)
      ensures result.Peeked? && !result.isEof ==> result.data != []
      ensures result.Peeked? && !result.isEof && (old(isReadingPeek) || old(stream.Buffered()) == []) ==>
                old(stream).EnqueueSome() == More(stream)
      ensures result.PeekError? || result.isEof ==> !old(stream).EnqueueSome().More?
      ensures result.PeekError? ==> !old(stream.Complete())
      ensures result.Peeked? && result.isEof ==> old(stream.Complete())
    {
      if !isReadingPeek {
        isReadingPeek := true;
        var data := stream.Buffered();
        if data != [] {
          return Peeked(data, false);
        }
      }
      EnqueueKeepsContract(stream);
      match stream.EnqueueSome()
      case Failed =>
        open := false;
        return PeekError;
      case AtEof => return Peeked(stream.Buffered(), true);
      case More(s) =>
        stream := s;
        return Peeked(stream.Buffered(), false);
    }

    /** peek: the end of the stream is an error. */
    method Peek() returns (result: Result)
      requires Valid()
      modifies this
      ensures stream.Remaining() == old(stream.Remaining())
      ensures old(stream.Chunks()) - 1 <= stream.Chunks() <= old(stream.Chunks())
      ensures result.Success? ==>
                Valid() && isReadingPeek && result.data == stream.Buffered() && old(stream.Buffered()) <= result.data
      ensures !old(isReadingPeek) && old(stream.Buffered()) != [] ==>
                result == Success(old(stream.Buffered())) && stream == old(stream)
      ensures result.Success? ==> result.data != []
      ensures result.Success? && (old(isReadingPeek) || old(stream.Buffered()) == []) ==>
                old(stream).EnqueueSome() == More(stream)
      ensures result.Success? && old(isReadingPeek) ==>
                stream.Chunks() < old(stream.Chunks()) && |old(stream.Buffered())| < |result.data|
      ensures result.Error? ==>
                !open && old(stream.Buffered()) == stream.Remaining() &&
                  (old(isReadingPeek) || stream.Remaining() == [])
      ensures result.Error? ==> !old(stream).EnqueueSome().More?
    {
      var peeked := PeekOrEof();
      if peeked.PeekError? {
        return Error;
      }
      if peeked.isEof {
        open := false;
        return Error;
      }
      return Success(peeked.data);
    }

    /** read: exactly this many bytes, or an error. It waits only for bytes it does not have. */
    method Read(bytes: nat) returns (result: Result, waited: bool)
      requires Valid()
      modifies this
      ensures result.Success? <==> bytes <= |old(stream.Remaining())|
      ensures result.Success? ==> Valid() && !isReadingPeek && result.data == old(stream.Remaining())[..bytes] &&
                                  stream.Remaining() == old(stream.Remaining())[bytes..]
      ensures result.Error? ==> !open
      ensures bytes <= |old(stream.Buffered())| ==>
                !waited && stream == old(stream).Dequeue(bytes) &&
                  stream.Buffered() == old(stream.Buffered())[bytes..] && stream.Chunks() == old(stream.Chunks())
      ensures result.Success? && old(stream).Slice? ==> SliceAdvanced(old(stream), stream, bytes)
    {
      hide Stream.Remaining, Stream.Buffered, Stream.Valid, Stream.Chunks, Stream.Complete, Stream.EnqueueSome,
        Stream.Dequeue;
      hide SliceAdvanced;
      isReadingPeek, waited := false, false;
      BufferedIsPrefix(stream);
      SliceStays(stream);
      if bytes == 0 {
        DequeueNothing(stream);
        return Success([]), false;
      }
      var buffer := stream.Buffered();
      while |buffer| < bytes
        invariant Valid() && !isReadingPeek &&
                  buffer == stream.Buffered() <= stream.Remaining() == old(stream.Remaining())
        invariant bytes <= |old(stream.Buffered())| ==> !waited && stream == old(stream)
        invariant old(stream).Slice? ==> stream.Slice? && SliceAdvanced(old(stream), stream, 0)
        decreases stream.Chunks()
      {
        waited := true;
        EnqueueKeepsContract(stream);
        SliceEnqueued(old(stream), stream);
        var enqueued := stream.EnqueueSome();
        if !enqueued.More? {
          open := false;
          return Error, waited;
        }
        stream := enqueued.stream;
        BufferedIsPrefix(stream);
        buffer := stream.Buffered();
      }
      DequeueKeepsContract(stream, bytes);
      SliceDequeued(old(stream), stream, bytes);
      stream := stream.Dequeue(bytes);
      assert buffer[..bytes] == old(stream.Remaining())[..bytes];
      return Success(buffer[..bytes]), waited;
    }

    /**
     * consume_until: everything up to and including the first delimiter, however the stream is
     * chunked; or, with a maximum size, all that is buffered once that much is there without one.
     */
    method ConsumeUntil(delimiter: seq<Byte>, maxSize: Option<nat>) returns (result: Result)
      requires Valid() && delimiter != []
      modifies this
      ensures result.Success? ==> Valid() && result.data + stream.Remaining() == old(stream.Remaining())
      ensures result.Success? ==> || ShortestUntil(old(stream.Remaining()), delimiter, |result.data|)
                                  || (maxSize.Some? && |result.data| >= maxSize.value &&
                                      Absent(result.data, delimiter) &&
                                      old(stream.Buffered()) <= result.data && stream.Buffered() == [])
      ensures old(AtOnce(stream.Buffered(), isReadingPeek, delimiter, maxSize)) ==>
                && result.Success? && stream.Chunks() == old(stream.Chunks())
                && (Absent(old(stream.Buffered()), delimiter) ==> result.data == old(stream.Buffered()))
                && result.data <= old(stream.Buffered())
      ensures result.Success? ==>
                var awaited := old(Awaited(stream, isReadingPeek, delimiter, maxSize));
                && !isReadingPeek && awaited.Some? && |result.data| <= |awaited.value.Buffered()|
                && stream == awaited.value.Dequeue(|result.data|)
      ensures result.Error? ==> !open
      ensures result.Error? <==> || (old(isReadingPeek) && old(stream.Buffered()) == old(stream.Remaining()))
                                 || (Absent(old(stream.Remaining()), delimiter) &&
                                     TooFew(old(stream.Remaining()), maxSize))
    {
      hide Stream.Remaining, Stream.Buffered, Stream.Valid, Stream.Chunks, OccursAt, ShortestUntil, Absent, Unsearched;
      hide Enough, Awaited, Stream.EnqueueSome, Stream.Dequeue, TooFew;
      var startPosition: nat := 0;
      ghost var all, awaited := stream.Remaining(), Awaited(stream, isReadingPeek, delimiter, maxSize);
      AwaitedMeans(stream, isReadingPeek, delimiter, maxSize);
      UnsearchedNone(all, delimiter);
      while true
        invariant Valid() && stream.Remaining() == all && Unsearched(all, delimiter, startPosition)
        invariant Awaited(stream, isReadingPeek, delimiter, maxSize) == awaited
        decreases stream.Chunks(), !isReadingPeek
      {
        ghost var was, pending := stream, isReadingPeek;
        var peeked := Peek();
        if peeked.Error? {
          AwaitedEnds(was, pending, delimiter, maxSize);
          return Error;
        }
        AwaitedStep(was, pending, stream, delimiter, maxSize);
        BufferedIsPrefix(stream);
        var buffer := peeked.data;
        var endPosition := EndPosition(buffer, delimiter, startPosition, maxSize, all);
        if endPosition.Some? {
          var waited;
          result, waited := Read(endPosition.value);
          assert !waited && result.Success?;
          Cut(buffer, all, endPosition.value);
          return;
        }
        startPosition := (if |buffer| < |delimiter| - 1 then |delimiter| - 1 else |buffer|) - |delimiter| + 1;
      }
    }
  }

  /** Where to end, if what is buffered is enough: after the first delimiter, or after all of it. */
  method EndPosition(buffer: seq<Byte>, delimiter: seq<Byte>, startPosition: nat, maxSize: Option<nat>,
                     ghost all: seq<Byte>)
    returns (endPosition: Option<nat>)
    requires buffer <= all && delimiter != [] && Unsearched(all, delimiter, startPosition)
    ensures endPosition.Some? <==> Enough(buffer, delimiter, maxSize)
    ensures endPosition.Some? && Absent(buffer, delimiter) ==>
              endPosition.value == |buffer| && maxSize.Some? && |buffer| >= maxSize.value
    ensures endPosition.Some? && !Absent(buffer, delimiter) ==>
              && endPosition.value <= |buffer| && ShortestUntil(all, delimiter, endPosition.value)
              && !Absent(all, delimiter)
    ensures endPosition.None? && maxSize.Some? ==> |buffer| < maxSize.value
    ensures endPosition.None? ==> forall s: nat :: s + |delimiter| <= |buffer| + 1 ==> Unsearched(all, delimiter, s)
  {
    hide OccursAt, ShortestUntil, Absent, Unsearched;
    var position := Find(buffer, delimiter, startPosition);
    endPosition := if position.Some? then Some(position.value + |delimiter|) else None;
    SearchedPrefix(buffer, all, delimiter, startPosition, position);
    if maxSize.Some? && endPosition.None? && |buffer| >= maxSize.value {
      endPosition := Some(|buffer|);
    }
  }

  lemma Cut(buffer: seq<Byte>, all: seq<Byte>, n: nat)
    requires buffer <= all && n <= |buffer|
    ensures all[..n] + all[n..] == all && all[..n] == buffer[..n] && (n == |buffer| ==> buffer[..n] == buffer)
  {
  }

  function Total(sizes: seq<nat>): nat {
    if sizes == [] then 0 else sizes[0] + Total(sizes[1..])
  }

  /**
   * Reading a slice in pieces of any sizes, however the bytes arrive, and then looking for the end. The
   * pieces are those of the stream beneath, which goes on right after them; reading fails exactly if
   * the slice or the stream beneath has too few bytes. The end comes right after the last byte of the
   * slice, and is an error where the stream beneath is shorter than the slice.
   */
  method ReadSlice(beneath: Stream, length: nat, sizes: seq<nat>)
    returns (data: seq<Byte>, failed: bool, end: Peeked, rest: Stream)
    requires beneath.Valid()
    ensures failed <==> Total(sizes) > length || Total(sizes) > |beneath.Remaining()|
    ensures data <= beneath.Remaining() && |data| <= length && (!failed ==> |data| == Total(sizes))
    ensures !failed ==> rest.Valid() && rest.Remaining() == beneath.Remaining()[|data|..]
    ensures !failed && Total(sizes) == length ==> end == Peeked([], true)
    ensures !failed && Total(sizes) == |beneath.Remaining()| < length ==> end == PeekError
    ensures !failed && Total(sizes) < length && Total(sizes) < |beneath.Remaining()| ==>
              end.Peeked? && !end.isEof && end.data != [] && end.data <= beneath.Remaining()[|data|..]
  {
    hide Stream.Remaining, Stream.Buffered, Stream.Complete, Stream.Chunks, Stream.Valid, Total, Along, SliceAdvanced;
    AlongNone(beneath, length);
    AlongMeans(MakeSlice(beneath, length), beneath.Remaining(), length, 0);
    var input := new AsyncInputStream(MakeSlice(beneath, length));
    ghost var all := beneath.Remaining();
    data := [];
    TotalStep(sizes);
    for i := 0 to |sizes|
      invariant input.Valid() && fresh(input) && !input.isReadingPeek && |data| + Total(sizes[i..]) == Total(sizes)
      invariant data <= all && Along(input.stream, all, length, |data|)
    {
      TotalStep(sizes[i..]);
      assert sizes[i..][1..] == sizes[i + 1..];
      AlongMeans(input.stream, all, length, |data|);
      ghost var before := input.stream;
      var piece, _ := input.Read(sizes[i]);
      if piece.Error? {
        return data, true, PeekError, beneath;
      }
      AlongStep(before, input.stream, all, length, |data|, sizes[i]);
      data := data + piece.data;
    }
    TotalStep(sizes[|sizes|..]);
    AlongMeans(input.stream, all, length, |data|);
    rest, failed := input.stream.inner, false;
    end := input.PeekOrEof();
    BufferedIsPrefix(input.stream);
  }

  /** `s` is what is left of the slice of `length` bytes of `all` after `n` bytes of it. */
  ghost predicate Along(s: Stream, all: seq<Byte>, length: nat, n: nat) {
    && s.Valid() && s.Slice? && n <= |all| && n <= length
    && s.length == length - n && s.inner.Remaining() == all[n..]
  }

  lemma AlongNone(stream: Stream, length: nat)
    requires stream.Valid()
    ensures Along(MakeSlice(stream, length), stream.Remaining(), length, 0)
  {
  }

  lemma AlongMeans(s: Stream, all: seq<Byte>, length: nat, n: nat)
    requires Along(s, all, length, n)
    ensures s.Valid() && s.Slice? && s.inner.Valid() && n <= |all| && n <= length && s.inner.Remaining() == all[n..]
    ensures s.Remaining() == all[n..][..Min(|all| - n, length - n)] && (s.Complete() <==> length <= |all|)
  {
  }

  lemma AlongStep(s: Stream, s': Stream, all: seq<Byte>, length: nat, n: nat, bytes: nat)
    requires Along(s, all, length, n) && s'.Valid() && SliceAdvanced(s, s', bytes)
    ensures Along(s', all, length, n + bytes)
  {
  }

  /** Peeked already, with everything buffered: the delimiter is there, and yet nothing more arrives. */
  method PeekedAlready() returns (result: Result)
    ensures OccursAt([1, 2], [1], 0) && result.Error?
  {
    var input := new AsyncInputStream(Base([1, 2], [], false));
    assert Joined([]) == [] && input.stream.Remaining() == [1, 2];
    var _ := input.Peek();
    BufferedIsPrefix(input.stream);
    result := input.ConsumeUntil([1], None);
  }

  lemma TotalStep(sizes: seq<nat>)
    ensures Total(sizes) == if sizes == [] then 0 else sizes[0] + Total(sizes[1..])
  {
  }

  /** No occurrence starts before `start`. */
  ghost predicate Unsearched(all: seq<Byte>, delimiter: seq<Byte>, start: nat) {
    forall p :: 0 <= p < start ==> !OccursAt(all, delimiter, p)
  }

  lemma UnsearchedNone(all: seq<Byte>, delimiter: seq<Byte>)
    ensures Unsearched(all, delimiter, 0)
  {
  }

  /** Searching the buffer is searching the stream as far as the buffer goes. */
  lemma SearchedPrefix(buffer: seq<Byte>, all: seq<Byte>, delimiter: seq<Byte>, start: nat, position: Option<nat>)
    requires buffer <= all && delimiter != [] && Unsearched(all, delimiter, start)
    requires position.Some? ==> start <= position.value && OccursAt(buffer, delimiter, position.value)
    requires position.Some? ==> forall p :: start <= p < position.value ==> !OccursAt(buffer, delimiter, p)
    requires position.None? ==> forall p :: start <= p ==> !OccursAt(buffer, delimiter, p)
    ensures position.Some? ==>
              position.value + |delimiter| <= |buffer| && ShortestUntil(all, delimiter, position.value + |delimiter|)
    ensures position.Some? ==> !Absent(all, delimiter)
    ensures position.None? <==> Absent(buffer, delimiter)
    ensures position.None? ==> forall s: nat :: s + |delimiter| <= |buffer| + 1 ==> Unsearched(all, delimiter, s)
  {
    forall p: nat | p + |delimiter| <= |buffer|
      ensures OccursAt(buffer, delimiter, p) <==> OccursAt(all, delimiter, p)
    {
      OccursInPrefix(buffer, all, delimiter, p);
    }
  }
}
