/** Buffered reading and writing of a seekable stream. */
module BufferedStreams {
  import opened CircularBuffers
  import opened Common

  datatype SeekMode = SetPosition | FromCurrentPosition | FromEndPosition

  /** What the system answers to one read or write: a limit on the bytes it handles, or an error. */
  datatype Answer = UpTo(count: nat) | Interrupted | WouldBlock | Failed

  datatype ReadResult = Read(count: nat) | NotConnected | ReadError

  /** What the system answers next to a request for `count` bytes; without more to say it handles all. */
  function NextAnswer(answers: seq<Answer>, count: nat): Answer {
    if answers == [] then UpTo(count) else answers[0]
  }

  function Later(answers: seq<Answer>): seq<Answer> {
    if answers == [] then [] else answers[1..]
  }

  /** How many bytes one read of up to `count` brings while `rest` bytes of the file are left. */
  function Brought(answers: seq<Answer>, count: nat, rest: int): int {
    var answer := NextAnswer(answers, count);
    if answer.UpTo? then Min(Min(answer.count, count), Max(0, rest)) else 0
  }

  /** The answers from the first that is not an interruption on. */
  function Uninterrupted(answers: seq<Answer>): seq<Answer> {
    if answers != [] && answers[0].Interrupted? then Uninterrupted(answers[1..]) else answers
  }

  /** The system never fails a request, though it may handle only part of it. */
  predicate AllGranted(answers: seq<Answer>) {
    forall answer <- answers :: answer.UpTo?
  }

  /** Nor does it ever handle nothing of it. */
  predicate AllTaken(answers: seq<Answer>) {
    forall answer <- answers :: answer.UpTo? && answer.count > 0
  }

  /** The target of a seek from `position`, if the stream allows it. */
  function Resolve(allows: (SeekMode, int) -> bool, size: nat, position: nat, offset: int,
                   mode: SeekMode): Option<nat>
  {
    var base := match mode case SetPosition => 0 case FromCurrentPosition => position case FromEndPosition => size;
    var target := base + offset;
    if target >= 0 && allows(mode, target) then Some(target) else None
  }

  /** The stream beneath: a file whose reads may be short or fail. */
  class SeekableStream {
    const content: array<Byte>
    /** Which targets seek accepts. */
    const allows: (SeekMode, int) -> bool
    var position: nat
    var open: bool
    /** What the system will answer; without more to say it reads all it can. */
    var answers: seq<Answer>

    constructor (content: array<Byte>, allows: (SeekMode, int) -> bool, answers: seq<Answer>)
      ensures this.content == content && this.allows == allows && this.answers == answers && position == 0 && open
    {
      this.content, this.allows, this.answers, position, open := content, allows, answers, 0, true;
    }

    /** read_some: says which answer the system gave; the bytes are those before the new position. */
    method ReadSome(count: nat) returns (answer: Answer)
      modifies this`position, this`answers
      ensures answer.UpTo? ==>
                answer.count <= count && position == old(position) + answer.count &&
                  (answer.count > 0 ==> position <= content.Length)
      ensures !answer.UpTo? ==> position == old(position) && old(answers) != [] && answer == old(answers)[0]
      ensures answers == Later(old(answers)) && (answer.UpTo? <==> NextAnswer(old(answers), count).UpTo?)
      ensures answer.UpTo? ==> answer.count == Brought(old(answers), count, content.Length - old(position))
    {
      answer := NextAnswer(answers, count);
      answers := Later(answers);
      if answer.UpTo? {
        answer := UpTo(Min(Min(answer.count, count), Max(0, content.Length - position)));
        position := position + answer.count;
      }
    }

    method Seek(offset: int, mode: SeekMode) returns (result: Option<nat>)
      modifies this`position
      ensures result == Resolve(allows, content.Length, old(position), offset, mode)
      ensures position == if result.Some? then result.value else old(position)
    {
      result := Resolve(allows, content.Length, position, offset, mode);
      if result.Some? {
        position := result.value;
      }
    }

    /** tell: a seek that goes nowhere. */
    function Tell(): Option<nat>
      reads this
    {
      Resolve(allows, content.Length, position, 0, FromCurrentPosition)
    }
  }

  lemma OverlaidAtStart(was: seq<Byte>, data: seq<Byte>)
    requires |data| <= |was|
    ensures Overlaid(was, 0, data) == data + was[|data|..]
  {
  }

  /** `unread` is what comes just before `position`. */
  ghost predicate Mirrors(unread: seq<Byte>, content: seq<Byte>, position: nat) {
    |unread| <= position && (unread != [] ==> position <= |content| && unread == content[position - |unread|..position])
  }

  lemma SameItself(a: seq<Byte>, i: nat, n: nat)
    requires i + n <= |a|
    ensures Same(a, i, a, i, n)
  {
  }

  lemma MirrorsNone(unread: seq<Byte>, content: seq<Byte>, position: nat)
    requires unread == []
    ensures Mirrors(unread, content, position)
  {
  }

  lemma MirrorsMore(history: seq<Byte>, used: nat, content: seq<Byte>, position: nat, count: nat)
    requires used <= |history| && Mirrors(history[|history| - used..], content, position) &&
             position + count <= |content|
    ensures Mirrors((history + content[position..position + count])[|history| - used..], content, position + count)
  {
    var unread := history[|history| - used..];
    assert (history + content[position..position + count])[|history| - used..]
           == unread + content[position..position + count];
  }

  lemma MirrorsBound(history: seq<Byte>, used: nat, content: seq<Byte>, position: nat)
    requires used <= |history| && Mirrors(history[|history| - used..], content, position)
    ensures used <= position && (used > 0 ==> position <= |content|)
  {
  }

  lemma MirrorsLess(history: seq<Byte>, used: nat, content: seq<Byte>, position: nat, count: nat)
    requires count <= used <= |history| && Mirrors(history[|history| - used..], content, position)
    ensures Mirrors(history[|history| - (used - count)..], content, position)
    ensures count > 0 ==>
              position <= |content| &&
                history[|history| - used..][..count] == content[position - used..position - used + count]
  {
    var unread := history[|history| - used..];
    assert history[|history| - (used - count)..] == unread[count..];
  }

  /** A read gives nothing: the system would block, gives nothing, or there is nothing left. */
  predicate Exhausted(answers: seq<Answer>, position: nat, size: nat) {
    position >= size || NextAnswer(answers, 1).WouldBlock? || NextAnswer(answers, 1) == UpTo(0)
  }

  class InputBufferedSeekable {
    const stream: SeekableStream
    const buffer: CircularBuffer

    /** The buffered bytes are those of the file just before the position of the stream. */
    ghost predicate Valid()
      reads this, stream, stream.content, buffer, buffer.buffer
    {
      && stream.content != buffer.buffer && buffer.Valid()
      && buffer.usedSpace <= stream.position && Mirrors(buffer.Unread(), stream.content[..], stream.position)
    }

    /** Where the user of the buffered stream is. */
    function Position(): int
      reads stream, buffer
    {
      stream.position - buffer.usedSpace
    }

    constructor (stream: SeekableStream, bufferSize: nat)
      requires bufferSize > 0
      ensures Valid() && this.stream == stream && fresh(buffer) && fresh(buffer.buffer) && Position() == stream.position
      ensures buffer.buffer.Length == bufferSize && buffer.usedSpace == 0
    {
      hide Holds, Slot, Mirrors;
      this.stream := stream;
      buffer := new CircularBuffer(bufferSize);
      new;
      MirrorsNone(buffer.Unread(), stream.content[..], stream.position);
    }

    /** fill_from_stream: one read into the next write span. */
    method FillFromStream() returns (answer: Answer)
      requires Valid()
      modifies stream`position, stream`answers, buffer, buffer.buffer
      ensures Valid() && Position() == old(Position())
      ensures !answer.UpTo? ==>
                buffer.usedSpace == old(buffer.usedSpace) && old(stream.answers) != [] &&
                  answer == old(stream.answers)[0]
      ensures answer.UpTo? ==> buffer.usedSpace == old(buffer.usedSpace) + answer.count
      ensures buffer.readingHead == old(buffer.readingHead)
      ensures old(buffer.EmptySpace()) > 0 && answer.UpTo? ==>
                answer.count == Brought(old(stream.answers), old(buffer.NextWriteSpan().length),
                                        stream.content.Length - old(stream.position))
      ensures old(buffer.EmptySpace()) > 0 ==>
                stream.answers == Later(old(stream.answers)) &&
                  (answer.UpTo? <==> NextAnswer(old(stream.answers), 1).UpTo?)
      ensures old(buffer.EmptySpace()) > 0 && answer == UpTo(0) ==>
                Exhausted(old(stream.answers), old(stream.position), stream.content.Length)
    {
      hide Holds, Slot, Same, Mirrors, CircularBuffer.Valid, CircularBuffer.NextWriteSpan;
      buffer.Bounds();
      buffer.WriteSpanAt();
      var span := buffer.NextWriteSpan();
      if span.length == 0 {
        return UpTo(0);
      }
      ghost var history, used, position := buffer.history, buffer.usedSpace, stream.position;
      answer := stream.ReadSome(span.length);
      if answer.UpTo? && answer.count > 0 {
        SameItself(stream.content[..], position, answer.count);
        buffer.Append(stream.content, stream.position - answer.count, answer.count, stream.content[..], position);
        MirrorsMore(history, used, stream.content[..], position, answer.count);
      }
    }

    /** populate_read_buffer: reads once, again if interrupted. */
    method PopulateReadBuffer() returns (ok: bool)
      requires Valid() && buffer.usedSpace == 0
      modifies stream`position, stream`answers, buffer, buffer.buffer
      ensures Valid() && Position() == old(Position())
      ensures ok <==> !NextAnswer(Uninterrupted(old(stream.answers)), 1).Failed?
      ensures stream.answers == Later(Uninterrupted(old(stream.answers)))
      ensures !ok ==> buffer.usedSpace == 0
      ensures buffer.usedSpace
              == Brought(Uninterrupted(old(stream.answers)), buffer.buffer.Length - old(buffer.readingHead),
                                          stream.content.Length - old(stream.position))
      ensures ok && buffer.usedSpace == 0 ==>
                Exhausted(Uninterrupted(old(stream.answers)), old(stream.position), stream.content.Length)
    {
      hide Holds, Slot, CircularBuffer.NextWriteSpan, Mirrors;
      if buffer.EmptySpace() == 0 {
        return true;
      }
      while true
        invariant Valid() && Position() == old(Position()) && buffer.usedSpace == 0 &&
                  stream.position == old(stream.position)
        invariant Uninterrupted(stream.answers) == Uninterrupted(old(stream.answers))
        invariant buffer.readingHead == old(buffer.readingHead)
        decreases |stream.answers|
      {
        buffer.EmptyWriteSpan();
        var answer := FillFromStream();
        match answer
        case Interrupted => continue;
        case WouldBlock => return true;
        case Failed => return false;
        case UpTo(_) => return true;
      }
    }

    /** read_some: bytes of the file from the position on, as an unbuffered read would give them. */
    method ReadSome(dst: array<Byte>) returns (result: ReadResult)
      requires Valid() && dst != buffer.buffer && dst != stream.content
      modifies stream`position, stream`answers, buffer, buffer.buffer, dst
      ensures Valid()
      ensures stream.answers == if stream.open && dst.Length > 0 && old(buffer.usedSpace) == 0
                then Later(Uninterrupted(old(stream.answers))) else old(stream.answers)
      ensures result.NotConnected? <==> !stream.open
      ensures !result.Read? ==> Position() == old(Position()) && dst[..] == old(dst[..])
      ensures result.Read? ==> Position() == old(Position()) + result.count && result.count <= dst.Length
      ensures result.Read? && result.count > 0 ==> Position() <= stream.content.Length &&
                                                   dst[..] == stream.content[old(Position())..Position()]
                                                     + old(dst[result.count..])
      ensures result.Read? && dst.Length > 0 ==>
                result.count == Min(dst.Length, if old(buffer.usedSpace) > 0 then old(buffer.usedSpace) else
                                      Brought(Uninterrupted(old(stream.answers)),
                                              buffer.buffer.Length - old(buffer.readingHead),
                                              stream.content.Length - old(stream.position)))
      ensures result == Read(0) ==> dst[..] == old(dst[..])
      ensures result.ReadError? <==> stream.open && dst.Length > 0 && old(buffer.usedSpace) == 0 &&
                                     NextAnswer(Uninterrupted(old(stream.answers)), 1).Failed?
      ensures result == Read(0) && dst.Length > 0 ==>
                old(buffer.usedSpace) == 0 &&
                  Exhausted(Uninterrupted(old(stream.answers)), old(stream.position), stream.content.Length)
    {
      hide Holds, Slot, Mirrors;
      if !stream.open {
        return NotConnected;
      }
      if dst.Length == 0 {
        return Read(0);
      }
      if buffer.usedSpace == 0 {
        var ok := PopulateReadBuffer();
        if !ok {
          return ReadError;
        }
      }
      var count := Deliver(dst);
      return Read(count);
    }

    /** Hands out what the buffer has. */
    method Deliver(dst: array<Byte>) returns (count: nat)
      requires Valid() && dst != buffer.buffer && dst != stream.content
      modifies buffer, dst
      ensures Valid() && count == Min(dst.Length, old(buffer.usedSpace)) &&
              buffer.usedSpace == old(buffer.usedSpace) - count
      ensures stream.answers == old(stream.answers)
      ensures count > 0 ==>
                Position() <= stream.content.Length &&
                  dst[..] == stream.content[old(Position())..Position()] + old(dst[count..])
      ensures count == 0 ==> dst[..] == old(dst[..])
    {
      hide Holds, Slot, Overlaid, Mirrors;
      ghost var was, before, used := buffer.Unread(), dst[..], buffer.usedSpace;
      count := buffer.Read(dst, 0, dst.Length);
      OverlaidAtStart(before, was[..count]);
      MirrorsLess(buffer.history, used, stream.content[..], stream.position, count);
    }

    /** The seek stays among the buffered bytes. */
    predicate StaysInBuffer(offset: int, mode: SeekMode)
      reads buffer
    {
      mode == FromCurrentPosition && 0 <= offset <= buffer.usedSpace
    }

    /**
     * seek: as an unbuffered seek from the position would, unless it stays in the buffer and the stream
     * treats its own position unlike the target. Then the bytes are dropped before the stream is asked.
     */
    method Seek(offset: int, mode: SeekMode) returns (result: Option<nat>)
      requires Valid()
      modifies stream`position, buffer
      ensures Valid() && stream.answers == old(stream.answers) && stream.open == old(stream.open)
      ensures old(StaysInBuffer(offset, mode)) ==>
                && Position() == old(Position()) + offset
                && result == if stream.allows(FromCurrentPosition, old(stream.position)) then Some(Position()) else None
      ensures (&& result == Resolve(stream.allows, stream.content.Length, old(Position()), offset, mode)
               && Position() == if result.Some? then result.value else old(Position()))
              <==> (|| !old(StaysInBuffer(offset, mode))
                    || (stream.allows(FromCurrentPosition, old(stream.position)) &&
                        stream.allows(mode, old(Position()) + offset))
                    || (!stream.allows(FromCurrentPosition, old(stream.position)) &&
                        !stream.allows(mode, old(Position())) && offset == 0))
    {
      hide Holds, Slot, Mirrors, CircularBuffer.Valid, CircularBuffer.Unread;
      var o := offset;
      if mode == FromCurrentPosition {
        if StaysInBuffer(offset, mode) {
          result := SeekInBuffer(offset);
          return;
        }
        o := offset - buffer.usedSpace;
      }
      result := stream.Seek(o, mode);
      if result.None? {
        return;
      }
      buffer.Clear();
      buffer.NothingUnread();
      MirrorsNone(buffer.Unread(), stream.content[..], stream.position);
    }

    /** Seeking forward over buffered bytes only. */
    method SeekInBuffer(offset: nat) returns (result: Option<nat>)
      requires Valid() && offset <= buffer.usedSpace
      modifies buffer
      ensures Valid() && Position() == old(Position()) + offset
      ensures result == if stream.allows(FromCurrentPosition, stream.position) then Some(Position()) else None
    {
      hide Holds, Slot, Mirrors, CircularBuffer.Valid;
      buffer.Bounds();
      MirrorsLess(buffer.history, buffer.usedSpace, stream.content[..], stream.position, offset);
      var _ := buffer.Discard(offset);
      var told := stream.Tell();
      return if told.Some? then Some(told.value - buffer.usedSpace) else None;
    }
  }

  // ----- Any run of reads and seeks -----

  datatype Request = ReadRequest(size: nat) | SeekRequest(offset: int, mode: SeekMode)
  datatype Response = Bytes(data: seq<Byte>) | Error | Sought(position: Option<nat>)

  /** Where a reader is, and what the system will still answer. */
  datatype Moment = Moment(position: nat, answers: seq<Answer>)

  /** Where an unbuffered reader is after this response. */
  function Moved(position: nat, response: Response): nat {
    match response
    case Bytes(data) => position + |data|
    case Error => position
    case Sought(target) => if target.Some? then target.value else position
  }

  /** These bytes follow `position`. */
  predicate Follow(data: seq<Byte>, content: seq<Byte>, position: nat) {
    data == [] || (position + |data| <= |content| && data == content[position..position + |data|])
  }

  /**
   * What an unbuffered reader gives. A read gives bytes that follow: some, without asking again, if an
   * earlier answer brought them; else what the first answer that is no interruption says, an error or
   * nothing only if that is why. A seek gives its target. The reader moves as its response says.
   */
  predicate Gives(allows: (SeekMode, int) -> bool, content: seq<Byte>, before: Moment,
                  request: Request, response: Response, after: Moment)
  {
    after.position == Moved(before.position, response) &&
    match request
    case ReadRequest(size) =>
      var answers, position := Uninterrupted(before.answers), before.position;
      && (response.Error? || (response.Bytes? && |response.data| <= size && Follow(response.data, content, position)))
      && if after.answers == before.answers && response.Bytes? && (response.data != [] || size == 0) then true else
         && size > 0 && after.answers == Later(answers)
         && (response.Error? <==> NextAnswer(answers, 1).Failed?)
         && (response == Bytes([]) ==> Exhausted(answers, position, |content|))
    case SeekRequest(offset, mode) =>
      && after.answers == before.answers
      && response == Sought(Resolve(allows, |content|, before.position, offset, mode))
  }

  /** Every place in the file can be reached from every other. */
  ghost predicate Sound(allows: (SeekMode, int) -> bool, size: nat) {
    forall target :: 0 <= target <= size ==> allows(FromCurrentPosition, target)
  }

  /** The request is no seek that may stay in the buffer, or the stream allows every place of the file. */
  ghost predicate Safe(allows: (SeekMode, int) -> bool, size: nat, bufferSize: nat, request: Request) {
    request.SeekRequest? && request.mode == FromCurrentPosition && 0 <= request.offset <= bufferSize ==>
      Sound(allows, size)
  }

  /** A seek that stays in the buffer: it moves first, and then asks whether the stream allows the place it is at. */
  ghost predicate Slips(allows: (SeekMode, int) -> bool, bufferSize: nat, before: Moment,
                        request: Request, response: Response, after: Moment)
  {
    && request.SeekRequest? && request.mode == FromCurrentPosition && request.offset >= 0
    && after == before.(position := before.position + request.offset)
    && exists place :: && after.position <= place <= before.position + bufferSize
                       && response == Sought(if allows(FromCurrentPosition, place) then Some(after.position) else None)
  }

  /** Every response takes the reader from one moment of the trace to the next. */
  ghost predicate RespondsAll(allows: (SeekMode, int) -> bool, content: seq<Byte>, bufferSize: nat, start: Moment,
                              requests: seq<Request>, responses: seq<Response>, trace: seq<Moment>)
  {
    && |responses| == |requests| && |trace| == |requests| + 1 && trace[0] == start
    && forall i :: 0 <= i < |requests| ==>
         Responds(allows, content, bufferSize, trace[i], requests[i], responses[i], trace[i + 1])
  }

  /**
   * The response of an unbuffered reader, or of a seek within the buffer of a stream that does not allow every
   * place.
   */
  ghost predicate Responds(allows: (SeekMode, int) -> bool, content: seq<Byte>, bufferSize: nat, before: Moment,
                           request: Request, response: Response, after: Moment)
  {
    || Gives(allows, content, before, request, response, after)
    || (!Safe(allows, |content|, bufferSize, request) && Slips(allows, bufferSize, before, request, response, after))
  }

  /** Every response is that of an unbuffered reader. */
  ghost predicate GivesAll(allows: (SeekMode, int) -> bool, content: seq<Byte>,
                           requests: seq<Request>, responses: seq<Response>, trace: seq<Moment>)
  {
    && |responses| == |requests| && |trace| == |requests| + 1
    && forall i :: 0 <= i < |requests| ==> Gives(allows, content, trace[i], requests[i], responses[i], trace[i + 1])
  }

  lemma RespondsAllMore(allows: (SeekMode, int) -> bool, content: seq<Byte>, bufferSize: nat, start: Moment,
                        requests: seq<Request>, responses: seq<Response>, trace: seq<Moment>,
                        request: Request, response: Response, after: Moment)
    requires RespondsAll(allows, content, bufferSize, start, requests, responses, trace)
    requires Responds(allows, content, bufferSize, trace[|requests|], request, response, after)
    ensures RespondsAll(allows, content, bufferSize, start, requests + [request], responses + [response],
                        trace + [after])
  {
    hide Responds;
  }

  /** Without seeks that may slip, the responses are those of an unbuffered reader. */
  lemma SafeGivesAll(allows: (SeekMode, int) -> bool, content: seq<Byte>, bufferSize: nat, start: Moment,
                     requests: seq<Request>, responses: seq<Response>, trace: seq<Moment>)
    requires RespondsAll(allows, content, bufferSize, start, requests, responses, trace)
    requires forall request <- requests :: Safe(allows, |content|, bufferSize, request)
    ensures GivesAll(allows, content, requests, responses, trace)
  {
    hide Gives, Safe, Slips;
    forall i | 0 <= i < |requests|
      ensures Gives(allows, content, trace[i], requests[i], responses[i], trace[i + 1])
    {
      assert Responds(allows, content, bufferSize, trace[i], requests[i], responses[i], trace[i + 1]);
    }
  }

  /**
   * Whatever is asked of the buffered reader, whatever the system answers and whatever places the stream
   * allows: it responds as an unbuffered one, except to seeks that may stay in the buffer on a stream that
   * does not allow every place of the file.
   */
  method Run(content: array<Byte>, allows: (SeekMode, int) -> bool, answers: seq<Answer>, bufferSize: nat,
             requests: seq<Request>)
    returns (responses: seq<Response>)
    requires bufferSize > 0
    ensures exists trace ::
              && RespondsAll(allows, content[..], bufferSize, Moment(0, answers), requests, responses, trace)
              && ((forall request <- requests :: Safe(allows, content.Length, bufferSize, request)) ==>
                    GivesAll(allows, content[..], requests, responses, trace))
  {
    hide Mirrors, Holds, Slot, Gives, Slips, Safe, RespondsAll, GivesAll, Responds;
    var stream := new SeekableStream(content, allows, answers);
    var reader := new InputBufferedSeekable(stream, bufferSize);
    responses := [];
    ghost var trace := [Moment(0, answers)];
    RespondsNone(allows, content[..], bufferSize, trace[0]);
    for i := 0 to |requests|
      invariant reader.Valid() && reader.stream == stream && stream.content == content && stream.allows == allows
      invariant stream.open && reader.buffer.buffer.Length == bufferSize
      invariant fresh(stream) && fresh(reader) && fresh(reader.buffer) && fresh(reader.buffer.buffer)
      invariant |trace| == i + 1 && trace[i] == Moment(reader.Position(), stream.answers)
      invariant RespondsAll(allows, content[..], bufferSize, Moment(0, answers), requests[..i], responses, trace)
    {
      var response := Respond(reader, requests[i]);
      ghost var after := Moment(reader.Position(), stream.answers);
      RespondsAllMore(allows, content[..], bufferSize, Moment(0, answers), requests[..i], responses, trace,
                      requests[i], response, after);
      responses, trace := responses + [response], trace + [after];
      assert requests[..i + 1] == requests[..i] + [requests[i]];
    }
    assert requests[..|requests|] == requests;
    if forall request <- requests :: Safe(allows, content.Length, bufferSize, request) {
      SafeGivesAll(allows, content[..], bufferSize, Moment(0, answers), requests, responses, trace);
    }
  }

  lemma RespondsNone(allows: (SeekMode, int) -> bool, content: seq<Byte>, bufferSize: nat, start: Moment)
    ensures RespondsAll(allows, content, bufferSize, start, [], [], [start])
  {
  }

  method Respond(reader: InputBufferedSeekable, request: Request) returns (response: Response)
    requires reader.Valid() && reader.stream.open
    modifies reader.stream`position, reader.stream`answers, reader.buffer, reader.buffer.buffer
    ensures reader.Valid()
    ensures Responds(reader.stream.allows, reader.stream.content[..], reader.buffer.buffer.Length,
                     old(Moment(reader.Position(), reader.stream.answers)), request, response,
                     Moment(reader.Position(), reader.stream.answers))
  {
    hide Mirrors, Holds, Slot, Exhausted, Uninterrupted, Resolve, Slips, Sound;
    match request
    case ReadRequest(size) =>
      var dst := new Byte[size];
      var result := reader.ReadSome(dst);
      if result.Read? {
        response := Bytes(dst[..result.count]);
        if result.count > 0 {
          SplitArray(reader.stream.content, 0, old(reader.Position()), reader.Position());
          assert response.data == reader.stream.content[..][old(reader.Position())..reader.Position()];
        }
      } else {
        response := Error;
      }
    case SeekRequest(offset, mode) =>
      ghost var place, used := reader.stream.position, reader.buffer.usedSpace;
      reader.buffer.Bounds();
      MirrorsBound(reader.buffer.history, used, reader.stream.content[..], place);
      var target := reader.Seek(offset, mode);
      response := Sought(target);
      if mode == FromCurrentPosition && 0 <= offset <= used {
        StayedInBuffer(reader.stream.allows, reader.stream.content.Length, reader.buffer.buffer.Length, place, used,
                       request, response, reader.stream.answers);
      }
  }

  /** What a seek within `used` buffered bytes before `place` comes to. */
  lemma StayedInBuffer(allows: (SeekMode, int) -> bool, size: nat, bufferSize: nat, place: nat, used: nat,
                       request: Request, response: Response, answers: seq<Answer>)
    requires used <= place && used <= bufferSize && (used > 0 ==> place <= size)
    requires request.SeekRequest? && request.mode == FromCurrentPosition && 0 <= request.offset <= used
    requires response == Sought(if allows(FromCurrentPosition, place) then Some(place - used + request.offset)
                                else None)
    ensures var before := Moment(place - used, answers);
            var after := before.(position := before.position + request.offset);
            && Slips(allows, bufferSize, before, request, response, after)
            && (Sound(allows, size) ==>
                  && allows(FromCurrentPosition, place) == allows(FromCurrentPosition, after.position)
                  && (request.offset > 0 ==> allows(FromCurrentPosition, place)))
  {
  }

  /** On a stream that allows no place, such as a pipe, a seek over one buffered byte fails and yet moves on. */
  method SlipExample() returns (reader: InputBufferedSeekable, result: Option<nat>)
    ensures result == Resolve(reader.stream.allows, 2, 0, 1, FromCurrentPosition) == None && reader.Position() == 1
  {
    hide Mirrors, Holds, Slot;
    var content := new Byte[2](_ => 0);
    var stream := new SeekableStream(content, (_, _) => false, []);
    reader := new InputBufferedSeekable(stream, 2);
    var _ := reader.PopulateReadBuffer();
    result := reader.Seek(1, FromCurrentPosition);
  }

  // ----- Buffered writing -----

  /** `content` with `data` written at `position`; a gap before it is filled with zeros. */
  function Overwrite(content: seq<Byte>, position: nat, data: seq<Byte>): seq<Byte> {
    if data == [] then content else
    seq(Max(|content|, position + |data|), i requires 0 <= i => Overwritten(content, position, data, i))
  }

  function Overwritten(content: seq<Byte>, position: nat, data: seq<Byte>, i: nat): Byte {
    if position <= i < position + |data| then data[i - position] else if i < |content| then content[i] else 0
  }

  /** Writing in two pieces is writing at once. */
  lemma OverwriteTwice(content: seq<Byte>, position: nat, first: seq<Byte>, second: seq<Byte>)
    ensures Overwrite(Overwrite(content, position, first), position + |first|, second)
            == Overwrite(content, position, first + second)
  {
    hide Overwrite;
    var once, twice := Overwrite(content, position, first + second),
                       Overwrite(Overwrite(content, position, first), position + |first|, second);
    OverwriteLength(content, position, first);
    OverwriteLength(content, position, first + second);
    OverwriteLength(Overwrite(content, position, first), position + |first|, second);
    forall i | 0 <= i < |once|
      ensures once[i] == twice[i]
    {
      OverwriteAt(content, position, first + second, i);
      OverwriteAt(Overwrite(content, position, first), position + |first|, second, i);
      if i < |Overwrite(content, position, first)| {
        OverwriteAt(content, position, first, i);
      }
    }
  }

  lemma OverwriteLength(content: seq<Byte>, position: nat, data: seq<Byte>)
    ensures |Overwrite(content, position, data)| == if data == [] then |content| else Max(|content|, position + |data|)
  {
  }

  lemma OverwriteAt(content: seq<Byte>, position: nat, data: seq<Byte>, i: nat)
    requires i < |Overwrite(content, position, data)|
    ensures Overwrite(content, position, data)[i] == Overwritten(content, position, data, i)
  {
  }

  class WritableStream {
    var content: seq<Byte>
    var position: nat
    var open: bool
    const allows: (SeekMode, int) -> bool
    var answers: seq<Answer>

    constructor (content: seq<Byte>, allows: (SeekMode, int) -> bool, answers: seq<Answer>)
      ensures this.content == content && this.allows == allows && this.answers == answers && position == 0 && open
    {
      this.content, this.allows, this.answers, position, open := content, allows, answers, 0, true;
    }

    /** write_some: as many of the bytes as the system takes. */
    method WriteSome(src: array<Byte>, from: nat, count: nat) returns (answer: Answer)
      requires from + count <= src.Length
      modifies this`content, this`position, this`answers
      ensures answers == Later(old(answers)) && (answer.UpTo? <==> NextAnswer(old(answers), count).UpTo?)
      ensures answer.UpTo? ==> answer.count == Min(NextAnswer(old(answers), count).count, count)
      ensures answer.UpTo? ==> content == Overwrite(old(content), old(position), src[from..from + answer.count])
      ensures answer.UpTo? ==> position == old(position) + answer.count
      ensures !answer.UpTo? ==> position == old(position) && content == old(content)
    {
      answer := NextAnswer(answers, count);
      answers := Later(answers);
      if answer.UpTo? {
        answer := UpTo(Min(answer.count, count));
        content := Overwrite(content, position, src[from..from + answer.count]);
        position := position + answer.count;
      }
    }

    method Seek(offset: int, mode: SeekMode) returns (result: Option<nat>)
      modifies this`position
      ensures result == Resolve(allows, |content|, old(position), offset, mode)
      ensures position == if result.Some? then result.value else old(position)
    {
      result := Resolve(allows, |content|, position, offset, mode);
      if result.Some? {
        position := result.value;
      }
    }
  }

  lemma Flushed(content: seq<Byte>, position: nat, history: seq<Byte>, used: nat, n: nat)
    requires n <= used <= |history|
    ensures var unread, start := history[|history| - used..], |history| - used;
            Overwrite(Overwrite(content, position, history[start..start + n]), position + n,
                      history[|history| - (used - n)..]) == Overwrite(content, position, unread)
  {
    var unread := history[|history| - used..];
    assert history[|history| - (used - n)..] == unread[n..] && unread == unread[..n] + unread[n..];
    assert history[|history| - used..|history| - used + n] == unread[..n];
    OverwriteTwice(content, position, unread[..n], unread[n..]);
  }

  /** How many bytes the next flush hands on: those up to the end of the ring, as far as the system takes them. */
  function Taken(answers: seq<Answer>, head: nat, used: nat, capacity: nat): int
    requires head < capacity && (answers == [] || answers[0].UpTo?)
  {
    var span := Min(capacity - head, used);
    Min(NextAnswer(answers, span).count, span)
  }

  /** Flush after flush, the system takes all that is buffered before it fails one of them. */
  predicate FlushSucceeds(answers: seq<Answer>, head: nat, used: nat, capacity: nat)
    requires head < capacity
  {
    used == 0 || answers == [] ||
    (answers[0].UpTo? &&
     var n := Taken(answers, head, used, capacity);
     FlushSucceeds(answers[1..], Advanced(head, n, capacity), used - n, capacity))
  }

  /** However little it takes at a time, a system that never fails a request takes everything. */
  lemma {:induction false} GrantedFlushSucceeds(answers: seq<Answer>, head: nat, used: nat, capacity: nat)
    requires head < capacity && AllGranted(answers)
    ensures FlushSucceeds(answers, head, used, capacity)
    decreases |answers|
  {
    if used > 0 && answers != [] {
      var n := Taken(answers, head, used, capacity);
      GrantedFlushSucceeds(answers[1..], Advanced(head, n, capacity), used - n, capacity);
    }
  }

  lemma FlushStep(answers: seq<Answer>, head: nat, used: nat, capacity: nat)
    requires head < capacity && used > 0
    ensures FlushSucceeds(answers, head, used, capacity) ==> NextAnswer(answers, 1).UpTo?
    ensures NextAnswer(answers, 1).UpTo? ==>
              var n := Taken(answers, head, used, capacity);
              && 0 <= n <= used && 0 <= Advanced(head, n, capacity) < capacity
              && (n > 0 || answers != [])
              && (FlushSucceeds(answers, head, used, capacity) <==>
                  FlushSucceeds(Later(answers), Advanced(head, n, capacity), used - n, capacity))
  {
  }

  lemma FlushDone(answers: seq<Answer>, head: nat, capacity: nat)
    requires head < capacity
    ensures FlushSucceeds(answers, head, 0, capacity)
  {
  }

  class OutputBufferedSeekable {
    const stream: WritableStream
    const buffer: CircularBuffer

    ghost predicate Valid()
      reads this, stream, buffer, buffer.buffer
    {
      buffer.Valid() && buffer.buffer.Length > 0 && buffer.readingHead < buffer.buffer.Length
    }

    /** What the file would be without buffering. */
    ghost function Content(): seq<Byte>
      requires Valid()
      reads this, stream, buffer, buffer.buffer
    {
      Overwrite(stream.content, stream.position, buffer.Unread())
    }

    /** tell */
    function Position(): nat
      reads this, stream, buffer
    {
      stream.position + buffer.usedSpace
    }

    constructor (stream: WritableStream, bufferSize: nat)
      requires bufferSize > 0
      ensures Valid() && this.stream == stream && fresh(buffer) && fresh(buffer.buffer)
      ensures Content() == stream.content && Position() == stream.position && buffer.usedSpace == 0 &&
              buffer.EmptySpace() > 0
    {
      this.stream := stream;
      buffer := new CircularBuffer(bufferSize);
    }

    /** flush_to_stream: offers the next read span to the stream. */
    method FlushToStream() returns (ok: bool)
      requires Valid()
      modifies stream, buffer
      ensures Valid() && Content() == old(Content()) && Position() == old(Position())
      ensures buffer.usedSpace <= old(buffer.usedSpace) && buffer.seekbackLimit == old(buffer.seekbackLimit) &&
              buffer.history == old(buffer.history)
      ensures stream.open == old(stream.open)
      ensures stream.answers == if old(buffer.usedSpace) == 0 then old(stream.answers) else Later(old(stream.answers))
      ensures ok <==> old(buffer.usedSpace) == 0 || NextAnswer(old(stream.answers), 1).UpTo?
      ensures ok && old(buffer.usedSpace) > 0 ==>
                && buffer.usedSpace == old(buffer.usedSpace) - Taken(old(stream.answers), old(buffer.readingHead),
                                                                     old(buffer.usedSpace), buffer.buffer.Length)
                && buffer.readingHead
                   == Advanced(old(buffer.readingHead), old(buffer.usedSpace) - buffer.usedSpace, buffer.buffer.Length)
    {
      hide Holds, Slot, Same, Overwrite, CircularBuffer.Valid, CircularBuffer.NextReadSpan;
      buffer.Bounds();
      buffer.HeadInside();
      buffer.ReadEmpty();
      var span := buffer.NextReadSpan(0);
      if span.length == 0 {
        return true;
      }
      buffer.ReadSpanAt(0);
      ghost var content, position := stream.content, stream.position;
      var answer := stream.WriteSome(buffer.buffer, span.offset, span.length);
      if !answer.UpTo? {
        return false;
      }
      SamePart(buffer.buffer[..], span.offset, buffer.history, |buffer.history| - buffer.usedSpace, span.length, 0,
               answer.count);
      SameMeans(buffer.buffer, span.offset, buffer.history, |buffer.history| - buffer.usedSpace, answer.count);
      Flushed(content, position, buffer.history, buffer.usedSpace, answer.count);
      buffer.Advance(answer.count);
      return true;
    }

    /** flush_buffer */
    method FlushBuffer() returns (ok: bool)
      requires Valid()
      modifies stream, buffer
      ensures Valid() && Content() == old(Content()) && Position() == old(Position()) && stream.open == old(stream.open)
      ensures ok ==> buffer.usedSpace == 0 && stream.content == old(Content()) && stream.position == old(Position())
      ensures ok <==> FlushSucceeds(old(stream.answers), old(buffer.readingHead), old(buffer.usedSpace),
                                    buffer.buffer.Length)
      ensures AllGranted(old(stream.answers)) ==> ok && AllGranted(stream.answers)
      ensures AllTaken(old(stream.answers)) ==> AllTaken(stream.answers)
    {
      hide Holds, Slot, FlushSucceeds, Taken;
      if AllGranted(stream.answers) {
        GrantedFlushSucceeds(stream.answers, buffer.readingHead, buffer.usedSpace, buffer.buffer.Length);
      }
      while buffer.usedSpace > 0
        invariant Valid() && Content() == old(Content()) && Position() == old(Position()) &&
                  stream.open == old(stream.open)
        invariant FlushSucceeds(stream.answers, buffer.readingHead, buffer.usedSpace, buffer.buffer.Length)
                  <==> FlushSucceeds(old(stream.answers), old(buffer.readingHead), old(buffer.usedSpace),
                                     buffer.buffer.Length)
        invariant AllGranted(old(stream.answers)) ==> AllGranted(stream.answers)
        invariant AllTaken(old(stream.answers)) ==> AllTaken(stream.answers)
        decreases |stream.answers|, buffer.usedSpace
      {
        FlushStep(stream.answers, buffer.readingHead, buffer.usedSpace, buffer.buffer.Length);
        ok := FlushToStream();
        if !ok {
          return;
        }
      }
      FlushDone(stream.answers, buffer.readingHead, buffer.buffer.Length);
      return true;
    }

    /**
     * write_some: what fits into the buffer is written, as far as the user can tell. The error of a
     * flush is reported, but the bytes were taken.
     */
    method WriteSome(src: array<Byte>) returns (result: ReadResult, ghost taken: nat)
      requires Valid() && src != buffer.buffer
      modifies stream, buffer, buffer.buffer
      ensures Valid() && (result.NotConnected? <==> !old(stream.open))
      ensures taken == if result.NotConnected? then 0 else Min(src.Length, old(buffer.EmptySpace()))
      ensures Content() == Overwrite(old(Content()), old(Position()), src[..taken]) &&
              Position() == old(Position()) + taken
      ensures result.Read? ==> result.count == taken
      ensures result.ReadError? <==> old(stream.open) && src.Length >= old(buffer.EmptySpace()) &&
                                     !NextAnswer(old(stream.answers), 1).UpTo?
      ensures stream.open == old(stream.open) && (AllGranted(old(stream.answers)) ==> AllGranted(stream.answers))
      ensures AllTaken(old(stream.answers)) && old(buffer.EmptySpace()) > 0 ==>
                AllTaken(stream.answers) && buffer.EmptySpace() > 0
    {
      hide Holds, Slot, Overwrite;
      taken := 0;
      if !stream.open {
        NothingWritten(Content(), Position());
        assert src[..0] == [];
        return NotConnected, 0;
      }
      ghost var unread := buffer.Unread();
      var written := buffer.Write(src, 0, src.Length, 0);
      taken := written;
      assert src[0..src.Length][..written] == src[..written];
      assert buffer.Unread() == unread + src[..written];
      OverwriteTwice(stream.content, stream.position, unread, src[..written]);
      if buffer.EmptySpace() == 0 {
        var ok := FlushToStream();
        if !ok {
          return ReadError, taken;
        }
      }
      return Read(written), taken;
    }

    /** seek: flushes first. */
    method Seek(offset: int, mode: SeekMode) returns (flushed: bool, result: Option<nat>)
      requires Valid()
      modifies stream, buffer
      ensures Valid() && Content() == old(Content()) && stream.open == old(stream.open)
      ensures AllGranted(old(stream.answers)) ==> flushed && AllGranted(stream.answers)
      ensures AllTaken(old(stream.answers)) && old(buffer.EmptySpace()) > 0 ==>
                AllTaken(stream.answers) && buffer.EmptySpace() > 0
      ensures flushed <==>
                FlushSucceeds(old(stream.answers), old(buffer.readingHead), old(buffer.usedSpace), buffer.buffer.Length)
      ensures !flushed ==> result == None && Position() == old(Position())
      ensures flushed ==> result == Resolve(stream.allows, |old(Content())|, old(Position()), offset, mode)
      ensures flushed ==> Position() == if result.Some? then result.value else old(Position())
    {
      hide Holds, Slot;
      flushed := FlushBuffer();
      if !flushed {
        return false, None;
      }
      result := stream.Seek(offset, mode);
    }
  }

  lemma NothingWritten(content: seq<Byte>, position: nat)
    ensures Overwrite(content, position, []) == content
  {
  }

  // ----- Any run of writes and seeks -----

  datatype WriteRequest = Write(data: seq<Byte>) | SeekTo(offset: int, mode: SeekMode)
  datatype WriteResponse = Wrote(count: nat) | WriteFailed | SoughtTo(target: Option<nat>) | FlushFailed
  datatype File = File(content: seq<Byte>, position: nat)

  /**
   * What an unbuffered writer does: a write puts the first bytes of its data into the file, as many as
   * it says unless it fails; a seek moves to its target, or fails and does nothing.
   */
  ghost predicate Writes(allows: (SeekMode, int) -> bool, file: File, request: WriteRequest, response: WriteResponse,
                         file': File)
  {
    match request
    case Write(data) =>
      exists n :: && 0 <= n <= |data| && (response == Wrote(n) || response == WriteFailed)
                  && file' == File(Overwrite(file.content, file.position, data[..n]), file.position + n)
    case SeekTo(offset, mode) =>
      var target := Resolve(allows, |file.content|, file.position, offset, mode);
      || (response == FlushFailed && file' == file)
      || (response == SoughtTo(target) &&
          file' == file.(position := if target.Some? then target.value else file.position))
  }

  /** Request after request the file goes from one of `files` to the next. */
  ghost predicate WritesAll(allows: (SeekMode, int) -> bool, start: File, requests: seq<WriteRequest>,
                            responses: seq<WriteResponse>, files: seq<File>)
  {
    && |responses| == |requests| && |files| == |requests| + 1 && files[0] == start
    && forall i :: 0 <= i < |requests| ==> Writes(allows, files[i], requests[i], responses[i], files[i + 1])
  }

  lemma WritesAllMore(allows: (SeekMode, int) -> bool, start: File, requests: seq<WriteRequest>,
                      responses: seq<WriteResponse>, files: seq<File>,
                      request: WriteRequest, response: WriteResponse, file: File)
    requires WritesAll(allows, start, requests, responses, files)
    requires Writes(allows, files[|requests|], request, response, file)
    ensures WritesAll(allows, start, requests + [request], responses + [response], files + [file])
  {
    hide Writes;
  }

  predicate Succeeded(response: WriteResponse) {
    response.Wrote? || response.SoughtTo?
  }

  /** A write of anything wrote something. */
  predicate Progressed(request: WriteRequest, response: WriteResponse) {
    request.Write? && request.data != [] ==> response.Wrote? && response.count > 0
  }

  /**
   * Whatever is asked of the buffered writer and however much of it the system takes at a time, once it
   * has flushed its buffer the file is as an unbuffered writer leaves it. It fails only if the system
   * does, and stalls only if the system takes nothing.
   */
  method WriteRun(content: seq<Byte>, allows: (SeekMode, int) -> bool, answers: seq<Answer>, bufferSize: nat,
                  requests: seq<WriteRequest>)
    returns (responses: seq<WriteResponse>, flushed: bool, result: seq<Byte>)
    requires bufferSize > 0
    ensures exists files: seq<File> :: && WritesAll(allows, File(content, 0), requests, responses, files)
                            && (flushed ==> result == files[|requests|].content)
    ensures AllGranted(answers) ==> flushed && forall response <- responses :: Succeeded(response)
    ensures |responses| == |requests|
    ensures AllTaken(answers) ==> forall i :: 0 <= i < |requests| ==> Progressed(requests[i], responses[i])
  {
    hide Holds, Slot, Overwrite, Writes, WritesAll, FlushSucceeds;
    var stream := new WritableStream(content, allows, answers);
    var writer := new OutputBufferedSeekable(stream, bufferSize);
    responses := [];
    ghost var files := [File(content, 0)];
    WritesNone(allows, files[0]);
    for i := 0 to |requests|
      invariant writer.Valid() && writer.stream == stream && stream.allows == allows && stream.open
      invariant fresh(stream) && fresh(writer) && fresh(writer.buffer) && fresh(writer.buffer.buffer)
      invariant |files| == i + 1 && files[i] == File(writer.Content(), writer.Position())
      invariant WritesAll(allows, files[0], requests[..i], responses, files) && files[0] == File(content, 0)
      invariant AllGranted(answers) ==>
                  AllGranted(stream.answers) && forall response <- responses :: Succeeded(response)
      invariant |responses| == i && (AllTaken(answers) ==> AllTaken(stream.answers) && writer.buffer.EmptySpace() > 0)
      invariant AllTaken(answers) ==> forall k :: 0 <= k < i ==> Progressed(requests[k], responses[k])
    {
      var response := Carry(writer, requests[i]);
      ghost var file := File(writer.Content(), writer.Position());
      WritesAllMore(allows, files[0], requests[..i], responses, files, requests[i], response, file);
      responses, files := responses + [response], files + [file];
      assert requests[..i + 1] == requests[..i] + [requests[i]];
    }
    assert requests[..|requests|] == requests;
    flushed := writer.FlushBuffer();
    result := stream.content;
  }

  lemma WritesNone(allows: (SeekMode, int) -> bool, file: File)
    ensures WritesAll(allows, file, [], [], [file])
  {
  }

  method Carry(writer: OutputBufferedSeekable, request: WriteRequest) returns (response: WriteResponse)
    requires writer.Valid() && writer.stream.open
    modifies writer.stream, writer.buffer, writer.buffer.buffer
    ensures writer.Valid() && writer.stream.open
    ensures Writes(writer.stream.allows, File(old(writer.Content()), old(writer.Position())), request, response,
                   File(writer.Content(), writer.Position()))
    ensures AllGranted(old(writer.stream.answers)) ==> AllGranted(writer.stream.answers) && Succeeded(response)
    ensures AllTaken(old(writer.stream.answers)) && old(writer.buffer.EmptySpace()) > 0 ==>
              AllTaken(writer.stream.answers) && writer.buffer.EmptySpace() > 0 && Progressed(request, response)
  {
    hide Holds, Slot, Overwrite, FlushSucceeds, Resolve;
    match request
    case Write(data) =>
      var src := new Byte[|data|](i requires 0 <= i < |data| => data[i]);
      var result, taken := writer.WriteSome(src);
      assert src[..taken] == data[..taken];
      response := if result.Read? then Wrote(result.count) else WriteFailed;
    case SeekTo(offset, mode) =>
      var flushed, target := writer.Seek(offset, mode);
      response := if flushed then SoughtTo(target) else FlushFailed;
  }
}
