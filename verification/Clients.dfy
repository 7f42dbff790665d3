/** One plaintext client: its rings, the decoded front response, and the popping of sent responses (send.c). */
module Clients {
  import opened Bytes
  import opened Values
  import opened Rings
  import opened LowLevel
  import opened Frames
  import opened Pipeline

  /** What the parser leaves behind for a complete request. */
  datatype Request = Request(streamSize: nat, method_: Location, resource: Location, protocol: Location,
                             keepAlive: bool)

  const NO_REQUEST := Request(0, Location(0, 0), Location(0, 0), Location(0, 0), false)

  const NO_RESPONSE := Response(0, 0, Location(0, 0), Location(0, 0), Location(0, 0), Location(0, 0), false, false, 0)

  const MAX_REQUEST_STREAM_SIZE := 0x10_0000

  datatype SendResult = Done | SocketFailed | Panicked

  /** The parser's result lies inside the request stream, whose size is limited when it is read. */
  ghost predicate RequestInside(request: Request, size: nat) {
    && size <= MAX_REQUEST_STREAM_SIZE
    && request.streamSize <= size
    && request.method_.offset + request.method_.size <= size
    && request.resource.offset + request.resource.size <= size
    && request.protocol.offset + request.protocol.size <= size
  }

  /** The queue entry for an answer of `size` bytes to a request. */
  function AnswerFrame(size: nat, keepAlive: bool, request: Request, stream: seq<byte>): Frame {
    NewFrame(size, keepAlive, 0, 0, Part(stream, request.method_), Part(stream, request.resource),
      Part(stream, request.protocol))
  }

  class Client {
    const requestStream: Ring
    const stream: Ring
    const queue: Ring
    var dead: bool
    var request: Request
    var response: Response
    var count: nat

    ghost var frames: seq<Frame>
    ghost var wire: seq<byte>
    ghost var bodies: seq<seq<byte>>
    ghost var asked: seq<Key>
    ghost var log: seq<Key>

    ghost function Repr(): set<object>
      reads this, requestStream, stream, queue
    {
      {this, requestStream, stream, queue, requestStream.p, stream.p, queue.p}
    }

    /** All objects are different, and the queue is the image of `frames`. */
    ghost predicate Valid()
      reads this, requestStream, stream, queue, requestStream.p, stream.p, queue.p
    {
      && requestStream != stream && requestStream != queue && stream != queue
      && requestStream.p != stream.p && requestStream.p != queue.p && stream.p != queue.p
      && requestStream.Valid() && stream.Valid() && queue.Valid()
      && QueueValid()
    }

    /** client->response is the header of the first frame, except for the bytes already sent. */
    ghost predicate QueueValid()
      reads this, queue, queue.p
      requires queue.Valid()
    {
      !dead ==>
      && queue.Content() == EncodeFrames(frames)
      && (forall i | 0 <= i < |frames| :: frames[i].WellFormed())
      && count == |frames|
      && (frames == [] ==> response.streamSize == 0)
      && (frames != [] ==> response == frames[0].header.(streamSize := response.streamSize))
    }

    ghost function View(): Conn
      reads this, stream, stream.p
      requires stream.Valid()
    {
      Conn(!dead, stream.Content(), frames, if dead then 0 else response.streamSize, wire, bodies, asked, log)
    }

    constructor ()
      ensures Valid() && fresh(Repr()) && View() == NEW_CONN
      ensures request == NO_REQUEST && requestStream.Content() == []
    {
      requestStream := new Ring();
      stream := new Ring();
      queue := new Ring();
      dead, request, response, count := false, NO_REQUEST, NO_RESPONSE, 0;
      frames, wire, bodies, asked, log := [], [], [], [], [];
    }

    /** The loop body of server_pop_responses for a response that was sent completely: takes the front frame off the
        queue, logs it, and decodes the next header. */
    method PopFront() returns (r: Result, logged: Key)
      requires Valid() && !dead
      modifies this`response, this`count, this`frames, this`log, queue`size, queue`begin
      ensures r == Ok <==> old(frames) != []
      ensures r == Ok ==>
        && Valid()
        && frames == old(frames)[1..] && response.streamSize == FrontSize(frames)
        && logged == KeyOf(old(frames[0])) && log == old(log) + [logged]
      ensures r == Err ==> frames == old(frames) && log == old(log)
    {
      hide Unroll, EncodeFrames;
      r, logged := PopResponse(queue, response, frames);
      if r == Err { return; }
      log := log + [logged];
      frames := frames[1..];
      count := count - 1;
      response := response.(streamSize := 0);
      NoFrames(frames);
      if queue.size > 0 {
        response := LoadFront(queue, frames);
      }
    }

    /** server_pop_responses: accounts for bytes that went on the wire; fatal when they are more than the queue knows
        of. */
    method PopResponses(sentStreamSize: nat) returns (r: Result)
      requires Valid() && !dead
      modifies this`response, this`count, this`frames, this`log, queue`size, queue`begin
      ensures var d := Drain(old(frames), old(response.streamSize), sentStreamSize);
        && (r == Err <==> d.panic)
        && (r == Ok ==> Valid() && frames == d.frames && response.streamSize == d.left && log == old(log) + d.log)
    {
      hide Unroll, EncodeFrames, Drain, Prepend;
      r := Ok;
      var sent := sentStreamSize;
      ghost var logged: seq<Key> := [];
      NothingLogged(Drain(frames, response.streamSize, sent));
      while sent > 0
        invariant Valid() && 0 <= sent && r == Ok && log == old(log) + logged
        invariant Drain(old(frames), old(response.streamSize), sentStreamSize)
               == Prepend(logged, Drain(frames, response.streamSize, sent))
        decreases |frames|, sent
      {
        DrainNext(logged, frames, response.streamSize, sent);
        if sent >= response.streamSize {
          var size := response.streamSize;
          var key;
          r, key := PopFront();
          if r == Err { return; }
          logged := logged + [key];
          sent := sent - size;
        } else {
          SendPart(sent);
          sent := 0;
        }
      }
      DrainNothing(logged, frames, response.streamSize);
    }

    /** The front response is not complete yet. */
    method SendPart(sent: nat)
      requires Valid() && !dead && sent < response.streamSize
      modifies this`response
      ensures Valid() && response.streamSize == old(response.streamSize) - sent
    {
      response := response.(streamSize := response.streamSize - sent);
    }

    /** server_reserve_push_value on the client's own stream. */
    method AppendToStream(data: Value)
      requires Valid()
      modifies stream, stream.p
      ensures Valid() && fresh(Repr() - old(Repr()))
      ensures View() == Flush(old(View()), data.Bytes())
    {
      ReservePushValue(stream, data);
    }

    /** processor_process and the lines behind it: queues the metadata of an answer and drops the request. */
    method QueueAnswer(size: nat, keepAlive: bool, ghost body: seq<byte>)
      requires Valid() && !dead && size == |body| < SIZE_MODULUS
      requires RequestInside(request, requestStream.size)
      modifies this`response, this`count, this`frames, this`bodies, this`asked, queue, queue.p, requestStream
      ensures Valid() && !dead && fresh(Repr() - old(Repr()))
      ensures requestStream.Content() == old(requestStream.Content())[old(request).streamSize..]
      ensures View()
        == Answer(old(View()), AnswerFrame(size, keepAlive, old(request), old(requestStream.Content())), body, true)
      ensures AnswerFrame(size, keepAlive, old(request), old(requestStream.Content())).WellFormed()
    {
      hide Unroll, EncodeFrame, EncodeFrames, AnswerFrame, Frame.WellFormed;
      ghost var frame := AnswerFrame(size, keepAlive, request, requestStream.Content());
      var newResponse := PushAnswer(queue, requestStream, request, size, keepAlive, frames);
      var r := requestStream.Pop(request.streamSize);
      Enqueue(newResponse, frame, body);
    }

    /** The fields that go with a frame that was just pushed. */
    method Enqueue(newResponse: Response, ghost frame: Frame, ghost body: seq<byte>)
      requires !dead && queue.Valid() && stream.Valid() && queue.Content() == EncodeFrames(frames + [frame])
      requires forall i | 0 <= i < |frames| :: frames[i].WellFormed()
      requires frame.WellFormed() && newResponse == frame.header
      requires count == |frames| && (frames != [] ==> response == frames[0].header.(streamSize := response.streamSize))
      requires frames == [] ==> response.streamSize == 0
      modifies this`response, this`count, this`frames, this`bodies, this`asked
      ensures QueueValid() && View() == Answer(old(View()), frame, body, true)
    {
      hide Unroll, EncodeFrames, Frame.WellFormed;
      if count == 0 { response := newResponse; }
      count := count + 1;
      frames := frames + [frame];
      bodies := bodies + [body];
      asked := asked + [KeyOf(frame)];
    }

    /** Queues an answer, and its bytes as well if the client still has bytes of its own to send. */
    method TakeAnswer(size: nat, keepAlive: bool, data: Value) returns (direct: bool)
      requires Valid() && !dead && size == |data.Bytes()| < SIZE_MODULUS
      requires RequestInside(request, requestStream.size)
      modifies this`response, this`count, this`frames, this`bodies, this`asked
      modifies queue, queue.p, requestStream, stream, stream.p
      ensures Valid() && fresh(Repr() - old(Repr()))
      ensures direct <==> old(View()).stream == []
      ensures requestStream.Content() == old(requestStream.Content())[old(request).streamSize..]
      ensures View() == Answer(old(View()), AnswerFrame(size, keepAlive, old(request), old(requestStream.Content())),
        data.Bytes(), direct)
      ensures AnswerFrame(size, keepAlive, old(request), old(requestStream.Content())).WellFormed()
    {
      hide Unroll, EncodeFrames, AnswerFrame, QueueValid;
      QueueAnswer(size, keepAlive, data.Bytes());
      direct := stream.size == 0;
      if !direct { AppendToStream(data); }
    }

    /** The end of server_process_traffic: a connection that goes on starts with a new request. */
    method Forget()
      requires Valid()
      modifies this`request
      ensures Valid() && View() == old(View()) && Repr() == old(Repr())
      ensures request == if response.keepAlive then NO_REQUEST else old(request)
    {
      hide Unroll, EncodeFrames;
      if response.keepAlive { request := NO_REQUEST; }
    }

    /** Accounts for bytes handed to the socket. */
    method Account(sent: seq<byte>) returns (r: Result)
      requires Valid() && !dead
      modifies this`response, this`count, this`frames, this`log, this`wire, queue`size, queue`begin
      ensures r == Err <==> Drain(old(frames), old(response.streamSize), |sent|).panic
      ensures r == Ok ==> Valid() && !dead && View() == Transmit(old(View()), |sent|, sent, old(stream.Content()))
    {
      hide Unroll, Drain, EncodeFrames;
      wire := wire + sent;
      r := PopResponses(|sent|);
    }

    /** server_send_long_output_buffer for a connection: sends from the client's own stream. */
    method SendLong(outcome0: SendOutcome, outcome1: SendOutcome) returns (r: SendResult, saturated: bool, ghost n: nat)
      requires Valid() && !dead
      modifies this`response, this`count, this`frames, this`log, this`wire
      modifies stream`size, stream`begin, queue`size, queue`begin
      ensures Repr() == old(Repr())
      ensures n == TakenInOrder(old(stream.Parts()), outcome0, outcome1) <= |old(stream.Content())|
      ensures r == SocketFailed <==> SendFails(old(stream.Parts()), outcome0, outcome1)
      ensures r == SocketFailed ==> Valid() && Repr() == old(Repr()) && View() == old(View())
      ensures r == Panicked ==> Drain(old(frames), old(response.streamSize), n).panic
      ensures r == Done ==>
        && Valid() && !dead && Repr() == old(Repr())
        && View() == Transmit(old(View()), n, old(stream.Content())[..n], old(stream.Content())[n..])
        && !Drain(old(frames), old(response.streamSize), n).panic
    {
      hide Unroll, Drain, EncodeFrames, TakenInOrder, SendFails, Ring.Parts;
      var result, sent;
      result, saturated, sent := SendRing(stream, outcome0, outcome1);
      n := |sent|;
      if result == Err { return SocketFailed, saturated, n; }
      result := Account(sent);
      r := if result == Err then Panicked else Done;
    }

    /** client_finalize, the part about the client itself. */
    method Finalize()
      requires Valid()
      modifies this`dead, this`frames, requestStream, stream, queue
      ensures Valid() && fresh({requestStream.p, stream.p, queue.p})
      ensures View() == Pipeline.Finalize(old(View()))
    {
      dead := true;
      requestStream.Finalize();
      queue.Finalize();
      stream.Finalize();
      frames := [];
    }
  }

  lemma PendingOfRing(value: Spans, buffer: seq<byte>)
    requires value.Fits(|buffer|)
    ensures InBuffers(buffer, buffer, value) && Pending(buffer, buffer, value) == value.View(buffer).Bytes()
  {
  }

  /** Sends from the front of a ring and pops what was sent; after a socket error nothing is popped. */
  method SendRing(stream: Ring, outcome0: SendOutcome, outcome1: SendOutcome)
    returns (r: Result, saturated: bool, sent: seq<byte>)
    requires stream.Valid()
    modifies stream`size, stream`begin
    ensures stream.Valid() && sent <= old(stream.Content())
    ensures r == Ok ==> stream.Content() == old(stream.Content())[|sent|..]
    ensures r == Err ==> stream.Content() == old(stream.Content())
    ensures |sent| == TakenInOrder(old(stream.Parts()), outcome0, outcome1)
    ensures r == Err <==> SendFails(old(stream.Parts()), outcome0, outcome1)
    ensures saturated <==> r == Ok && stream.Content() != []
  {
    hide TakenInOrder, SendFails, Ring.Parts;
    hide Unroll, Covers, Pending, InBuffers;
    ghost var content := stream.Content();
    var value := stream.GetAll();
    PendingOfRing(value, stream.p[..]);
    var rest;
    r, rest, saturated, sent := SendStream(stream.p[..], stream.p[..], value, outcome0, outcome1);
    assert content == sent + Pending(stream.p[..], stream.p[..], rest);
    if r == Err { return; }
    r := stream.Pop(value.Size() - rest.Size());
  }

  /** processor_construct_response for a parsed request. */
  method PushAnswer(queue: Ring, requestStream: Ring, request: Request, size: nat, keepAlive: bool,
                    ghost frames: seq<Frame>)
    returns (response: Response)
    requires queue.Valid() && requestStream.Valid() && size < SIZE_MODULUS
    requires queue != requestStream && queue.p != requestStream.p
    requires RequestInside(request, requestStream.size) && queue.Content() == EncodeFrames(frames)
    modifies queue, queue.p
    ensures queue.Valid() && (queue.p == old(queue.p) || fresh(queue.p))
    ensures var frame := AnswerFrame(size, keepAlive, request, requestStream.Content());
      frame.WellFormed() && response == frame.header && queue.Content() == EncodeFrames(frames + [frame])
  {
    hide Unroll, EncodeFrame, EncodeFrames, Frame.WellFormed;
    var method_ := GetValue(requestStream, request.method_);
    var resource := GetValue(requestStream, request.resource);
    var protocol := GetValue(requestStream, request.protocol);
    response := ConstructResponse(queue, size, keepAlive, 0, 0, method_, resource, protocol);
    EncodeFramesAppend(frames, AnswerFrame(size, keepAlive, request, requestStream.Content()));
  }

  /** server_reserve_push_value: appends both parts to a response stream; with room reserved, pushing cannot fail. */
  method ReservePushValue(stream: Ring, data: Value)
    requires stream.Valid()
    modifies stream, stream.p
    ensures stream.Valid() && (stream.p == old(stream.p) || fresh(stream.p))
    ensures stream.Content() == old(stream.Content()) + data.Bytes()
  {
    hide Unroll;
    var size := Values.Size(data);
    stream.Reserve(stream.size + size);
    var r := PushValue(stream, data);
    assert r == Ok;
  }

  /** The rest of a drain, after some frames were logged. */
  function Prepend(logged: seq<Key>, d: Drained): Drained {
    d.(log := logged + d.log)
  }

  lemma DrainNothing(logged: seq<Key>, frames: seq<Frame>, left: nat)
    ensures Prepend(logged, Drain(frames, left, 0)) == Drained(frames, left, logged, false)
  {
  }

  lemma NothingLogged(d: Drained)
    ensures Prepend([], d) == d
  {
  }

  /** One round of server_pop_responses. */
  lemma DrainNext(logged: seq<Key>, frames: seq<Frame>, left: nat, sent: nat)
    requires sent > 0
    ensures frames == [] ==> Prepend(logged, Drain(frames, left, sent)).panic
    ensures frames != [] && sent >= left ==>
      Prepend(logged, Drain(frames, left, sent))
        == Prepend(logged + [KeyOf(frames[0])], Drain(frames[1..], FrontSize(frames[1..]), sent - left))
    ensures frames != [] && sent < left ==>
      Prepend(logged, Drain(frames, left, sent)) == Prepend(logged, Drain(frames, left - sent, 0))
  {
  }

  /** server_pop_response: the front frame goes; its method and resource are what the log shows. */
  method PopResponse(queue: Ring, response: Response, ghost frames: seq<Frame>) returns (r: Result, logged: Key)
    requires queue.Valid() && queue.Content() == EncodeFrames(frames)
    requires forall i | 0 <= i < |frames| :: frames[i].WellFormed()
    requires frames != [] ==> response == frames[0].header.(streamSize := response.streamSize)
    modifies queue`size, queue`begin
    ensures queue.Valid()
    ensures r == Ok <==> frames != []
    ensures r == Ok ==> queue.Content() == EncodeFrames(frames[1..]) && logged == KeyOf(frames[0])
  {
    hide Unroll, EncodeFrames;
    NoFrames(frames);
    logged := Key([], []);
    r := queue.Pop(HEADER_SIZE);
    if r == Err {
      FrontFrame(frames);
      return;
    }
    FrontFrame(frames);
    assert !response.silent;
    var value;
    r, value := queue.Get(response.method_, false);
    var method_ := value.View(queue.p[..]).Bytes();
    r, value := queue.Get(response.resource, false);
    var resource := value.View(queue.p[..]).Bytes();
    logged := Key(method_, resource);
    r := queue.Pop(response.size);
  }

  /** Decodes the header at the front of the queue. */
  method LoadFront(queue: Ring, ghost frames: seq<Frame>) returns (response: Response)
    requires queue.Valid() && queue.Content() == EncodeFrames(frames) && queue.size > 0
    requires forall i | 0 <= i < |frames| :: frames[i].WellFormed()
    ensures frames != [] && response == frames[0].header
  {
    hide Unroll, EncodeFrames;
    NoFrames(frames);
    FrontFrame(frames);
    var r, value := queue.Get(Location(0, HEADER_SIZE), false);
    response := DecodeHeader(value.View(queue.p[..]).Bytes());
  }

  /** How the front frame lies at the start of the queue. */
  lemma FrontFrame(frames: seq<Frame>)
    requires frames != [] ==> frames[0].WellFormed()
    ensures frames != [] ==>
      var s := EncodeFrames(frames); var f := frames[0];
      && HEADER_SIZE + f.header.size <= |s|
      && DecodeHeader(s[..HEADER_SIZE]) == f.header
      && Part(s[HEADER_SIZE..], f.header.method_) == f.method_
      && Part(s[HEADER_SIZE..], f.header.resource) == f.resource
      && s[HEADER_SIZE..][f.header.size..] == EncodeFrames(frames[1..])
  {
    hide DecodeHeader, EncodeHeader, Part;
    if frames != [] {
      var s := EncodeFrames(frames);
      var f := frames[0];
      HeaderRoundTrip(f.header);
      BodyParts(f, s);
      assert s[..HEADER_SIZE] == EncodeHeader(f.header);
      assert s[HEADER_SIZE..] == f.Body() + EncodeFrames(frames[1..]);
    }
  }
}
