/** low_level.c: moving bytes between sockets and two-part values. */
module LowLevel {
  import opened Bytes
  import opened Values
  import opened Rings

  type pos = n: nat | n > 0 witness 1

  /** What one call of send() does. If it takes no byte, whether it returned 0 or -1, errno decides between the other
      two: after a 0 that is whatever errno held before. */
  datatype SendOutcome = Accepted(n: pos) | WouldBlock | SendFailed

  /** What one call of read() does; Arrived([]) is the end of the stream. */
  datatype ReadOutcome = Arrived(data: seq<byte>) | NothingYet | ReadFailed

  /** The bytes of a value whose parts lie in two buffers. */
  function Pending(memory0: seq<byte>, memory1: seq<byte>, stream: Spans): (s: seq<byte>)
    requires InBuffers(memory0, memory1, stream)
    ensures |s| == stream.Size()
  {
    memory0[stream.span0.offset..stream.span0.offset + stream.span0.size]
    + memory1[stream.span1.offset..stream.span1.offset + stream.span1.size]
  }

  predicate InBuffers(memory0: seq<byte>, memory1: seq<byte>, stream: Spans) {
    stream.span0.offset + stream.span0.size <= |memory0| && stream.span1.offset + stream.span1.size <= |memory1|
  }

  /** The value after `sent` bytes of part i were taken. */
  function Advance(stream: Spans, i: nat, sent: nat): Spans
    requires sent <= (if i == 0 then stream.span0 else stream.span1).size
  {
    if i == 0 then Spans(Span(stream.span0.offset + sent, stream.span0.size - sent), stream.span1)
    else Spans(stream.span0, Span(stream.span1.offset + sent, stream.span1.size - sent))
  }

  lemma TakenFirst(memory0: seq<byte>, memory1: seq<byte>, stream: Spans, i: nat, sent: nat)
    requires InBuffers(memory0, memory1, stream) && (i > 0 ==> stream.span0.size == 0)
    requires sent <= (if i == 0 then stream.span0 else stream.span1).size
    ensures var part := if i == 0 then stream.span0 else stream.span1;
      && part.offset + sent <= |if i == 0 then memory0 else memory1|
      && InBuffers(memory0, memory1, Advance(stream, i, sent))
      && (if i == 0 then memory0 else memory1)[part.offset..part.offset + sent]
        + Pending(memory0, memory1, Advance(stream, i, sent))
        == Pending(memory0, memory1, stream)
  {
  }

  /** How much of a part one call of send() takes. */
  function Taken(size: nat, outcome: SendOutcome): (n: nat)
    ensures n <= size
  {
    if outcome.Accepted? then Min(outcome.n, size) else 0
  }

  /** The second part is only offered once the first one is gone. */
  function TakenInOrder(stream: Spans, outcome0: SendOutcome, outcome1: SendOutcome): nat {
    var first := Taken(stream.span0.size, outcome0);
    if first < stream.span0.size then first else first + Taken(stream.span1.size, outcome1)
  }

  /** A call of send() is made that fails. */
  predicate SendFails(stream: Spans, outcome0: SendOutcome, outcome1: SendOutcome) {
    || (stream.span0.size > 0 && outcome0 == SendFailed)
    || (Taken(stream.span0.size, outcome0) == stream.span0.size && stream.span1.size > 0 && outcome1 == SendFailed)
  }

  /** What the first call of send() says, if there is one. */
  function FirstOffered(stream: Spans, outcome0: SendOutcome, outcome1: SendOutcome): SendOutcome {
    if stream.span0.size > 0 then outcome0 else outcome1
  }

  /** Nothing is sent of nothing, and a failed call leaves something unsent. A socket that takes something gets
      something, and one that takes all it is offered gets everything. */
  lemma Unsent(stream: Spans, outcome0: SendOutcome, outcome1: SendOutcome)
    ensures TakenInOrder(stream, outcome0, outcome1) <= stream.Size()
    ensures SendFails(stream, outcome0, outcome1) ==> TakenInOrder(stream, outcome0, outcome1) < stream.Size()
    ensures stream.Size() > 0 && FirstOffered(stream, outcome0, outcome1).Accepted? ==>
      TakenInOrder(stream, outcome0, outcome1) > 0
    ensures outcome0.Accepted? && outcome1.Accepted? && outcome0.n >= stream.Size() && outcome1.n >= stream.Size() ==>
      TakenInOrder(stream, outcome0, outcome1) == stream.Size() && !SendFails(stream, outcome0, outcome1)
  {
  }

  /** Before part i is offered: all earlier parts are on the wire. */
  ghost predicate Sending(memory0: seq<byte>, memory1: seq<byte>, stream: Spans, outcome0: SendOutcome,
                          outcome1: SendOutcome, i: nat, rest: Spans, wire: seq<byte>)
    requires InBuffers(memory0, memory1, stream)
  {
    && InBuffers(memory0, memory1, rest)
    && wire + Pending(memory0, memory1, rest) == Pending(memory0, memory1, stream)
    && (i == 0 ==> rest == stream && wire == [])
    && (i >= 1 ==> rest.span0.size == 0 && Taken(stream.span0.size, outcome0) == stream.span0.size)
    && (i == 1 ==> rest.span1 == stream.span1 && |wire| == stream.span0.size)
    && (i >= 2 ==> rest.span1.size == 0 && |wire| == TakenInOrder(stream, outcome0, outcome1))
  }

  /** One call of send() for part i, which takes `sent` bytes: either the part is gone, or sending is over for now. */
  lemma PartTaken(memory0: seq<byte>, memory1: seq<byte>, stream: Spans, outcome0: SendOutcome, outcome1: SendOutcome,
                  i: nat, rest: Spans, wire: seq<byte>, sent: nat)
    requires i < VALUE_PARTS && InBuffers(memory0, memory1, stream)
    requires Sending(memory0, memory1, stream, outcome0, outcome1, i, rest, wire)
    requires var part := if i == 0 then rest.span0 else rest.span1;
      sent == Taken(part.size, if i == 0 then outcome0 else outcome1)
    ensures var part := if i == 0 then rest.span0 else rest.span1;
      var r := Advance(rest, i, sent);
      && part.offset + sent <= |if i == 0 then memory0 else memory1|
      && var w := wire + (if i == 0 then memory0 else memory1)[part.offset..part.offset + sent];
      && InBuffers(memory0, memory1, r) && w + Pending(memory0, memory1, r) == Pending(memory0, memory1, stream)
      && (sent == part.size ==> Sending(memory0, memory1, stream, outcome0, outcome1, i + 1, r, w))
      && (sent < part.size ==> |w| == TakenInOrder(stream, outcome0, outcome1) && r.Size() > 0)
      && (sent == 0 ==> r == rest && w == wire)
  {
    hide Pending, InBuffers;
    TakenFirst(memory0, memory1, rest, i, sent);
  }

  lemma AllTaken(memory0: seq<byte>, memory1: seq<byte>, stream: Spans, outcome0: SendOutcome, outcome1: SendOutcome,
                 rest: Spans, wire: seq<byte>)
    requires InBuffers(memory0, memory1, stream)
    requires Sending(memory0, memory1, stream, outcome0, outcome1, VALUE_PARTS, rest, wire)
    ensures InBuffers(memory0, memory1, rest)
      && wire + Pending(memory0, memory1, rest) == Pending(memory0, memory1, stream)
    ensures |wire| == TakenInOrder(stream, outcome0, outcome1) && rest.Size() == 0
    ensures !SendFails(stream, outcome0, outcome1)
  {
    hide Pending, InBuffers;
  }

  /** server_send_stream: hands the parts to send() in order and advances past what was taken.
      What went on the wire is always the front of what was pending, even when send() fails. */
  method SendStream(memory0: seq<byte>, memory1: seq<byte>, stream: Spans, outcome0: SendOutcome, outcome1: SendOutcome)
    returns (r: Result, rest: Spans, saturated: bool, wire: seq<byte>)
    requires InBuffers(memory0, memory1, stream)
    ensures InBuffers(memory0, memory1, rest)
    ensures wire + Pending(memory0, memory1, rest) == Pending(memory0, memory1, stream)
    ensures |wire| == TakenInOrder(stream, outcome0, outcome1)
    ensures r == Err <==> SendFails(stream, outcome0, outcome1)
    ensures saturated <==> r == Ok && rest.Size() > 0
  {
    hide Pending, InBuffers, TakenInOrder;
    r, rest, saturated, wire := Ok, stream, false, [];
    for i := 0 to VALUE_PARTS
      invariant Sending(memory0, memory1, stream, outcome0, outcome1, i, rest, wire)
    {
      var part := if i == 0 then rest.span0 else rest.span1;
      var outcome := if i == 0 then outcome0 else outcome1;
      PartTaken(memory0, memory1, stream, outcome0, outcome1, i, rest, wire, Taken(part.size, outcome));
      if part.size == 0 { continue; }
      if outcome.Accepted? {
        var sent := Min(outcome.n, part.size);
        wire := wire + (if i == 0 then memory0 else memory1)[part.offset..part.offset + sent];
        rest := Advance(rest, i, sent);
        if part.size > sent { saturated := true; return; }
      } else {
        if outcome == SendFailed { return Err, rest, saturated, wire; }
        saturated := true;
        return;
      }
    }
    AllTaken(memory0, memory1, stream, outcome0, outcome1, rest, wire);
  }

  /** The first n bytes of a span, as a value of its own. */
  function Front(span: Span, n: nat): Spans
    requires n <= span.size
  {
    Spans(Span(span.offset, n), Span(0, 0))
  }

  /** read() puts data into the front of part i, behind what was received before. */
  method ReadInto(stream: Ring, value: Spans, i: nat, ghost before: seq<byte>, ghost received: seq<byte>,
                  data: seq<byte>)
    requires stream.Valid() && i < VALUE_PARTS && |before| + value.Size() <= stream.size
    requires Covers(value, stream.p.Length, stream.begin, |before|) && before + received <= stream.Content()
    requires |received| == (if i == 0 then 0 else value.span0.size)
    requires |data| <= (if i == 0 then value.span0 else value.span1).size
    modifies stream.p
    ensures stream.Valid() && before + (received + data) <= stream.Content()
  {
    hide Unroll, Covers;
    var part := if i == 0 then value.span0 else value.span1;
    FrontCovers(value, stream.p.Length, stream.begin, |before|, i, |data|);
    stream.Overwrite(Front(part, |data|), |before + received|, data);
    assert before + (received + data) == before + received + data;
  }

  /** What one call of read() puts into a part of that size. */
  function ReadPart(outcome: ReadOutcome, size: nat): (s: seq<byte>)
    ensures |s| <= size
  {
    if outcome.Arrived? then outcome.data[..Min(|outcome.data|, size)] else []
  }

  /** The second part is only read into once the first one is full. */
  function ReadInOrder(a: nat, b: nat, read0: ReadOutcome, read1: ReadOutcome): seq<byte> {
    var first := ReadPart(read0, a);
    if |first| < a then first else first + ReadPart(read1, b)
  }

  /** A call of read() is made that has this outcome. */
  predicate Meets(a: nat, b: nat, read0: ReadOutcome, read1: ReadOutcome, outcome: ReadOutcome) {
    (a > 0 && read0 == outcome) || (|ReadPart(read0, a)| == a && b > 0 && read1 == outcome)
  }

  /** A socket that holds data hands it over in order, as far as there is room, wherever the ring wraps. */
  lemma SocketReads(a: nat, b: nat, data: seq<byte>, read0: ReadOutcome, read1: ReadOutcome)
    requires data != [] && (a > 0 ==> read0 == Arrived(data))
    requires read1 == if |data| > a then Arrived(data[a..]) else NothingYet
    ensures ReadInOrder(a, b, read0, read1) == if |data| <= a + b then data else data[..a + b]
    ensures !Meets(a, b, read0, read1, Arrived([])) && !Meets(a, b, read0, read1, ReadFailed)
  {
    if |data| > a {
      assert data[a..][..Min(|data| - a, b)] == data[a..a + Min(|data| - a, b)];
      if a == 0 { assert data[a..] == data; }
    }
  }

  /** Before part i is read into: all earlier parts are full. */
  ghost predicate Reading(a: nat, b: nat, read0: ReadOutcome, read1: ReadOutcome, i: nat, received: seq<byte>) {
    && (i == 0 ==> received == [])
    && (i >= 1 ==> |ReadPart(read0, a)| == a)
    && (i == 1 ==> received == ReadPart(read0, a))
    && (i >= 2 ==> |ReadPart(read1, b)| == b && received == ReadPart(read0, a) + ReadPart(read1, b))
  }

  /** One call of read() for part i: either the part is full, or reading is over for now. */
  lemma PartRead(a: nat, b: nat, read0: ReadOutcome, read1: ReadOutcome, i: nat, received: seq<byte>)
    requires i < VALUE_PARTS && Reading(a, b, read0, read1, i, received)
    ensures var size, outcome := if i == 0 then a else b, if i == 0 then read0 else read1;
      var all := received + ReadPart(outcome, size);
      && |all| <= a + b
      && (|ReadPart(outcome, size)| == size ==> Reading(a, b, read0, read1, i + 1, all))
      && (|ReadPart(outcome, size)| < size ==>
            && all == ReadInOrder(a, b, read0, read1) && |all| < a + b
            && (Meets(a, b, read0, read1, ReadFailed) <==> outcome == ReadFailed)
            && (Meets(a, b, read0, read1, Arrived([])) <==> outcome == Arrived([])))
  {
    assert received + [] == received;
  }

  lemma AllRead(a: nat, b: nat, read0: ReadOutcome, read1: ReadOutcome, received: seq<byte>)
    requires Reading(a, b, read0, read1, VALUE_PARTS, received)
    ensures received == ReadInOrder(a, b, read0, read1) && |received| == a + b
    ensures !Meets(a, b, read0, read1, ReadFailed) && !Meets(a, b, read0, read1, Arrived([]))
  {
  }

  /** The loop of server_receive_stream: read() fills the parts of value in order. */
  method ReadParts(stream: Ring, value: Spans, n: nat, ghost before: seq<byte>, read0: ReadOutcome, read1: ReadOutcome)
    returns (r: Result, received: seq<byte>, exhausted: bool, closed: bool)
    requires stream.Valid() && stream.size == |before| + n && before <= stream.Content()
    requires Covers(value, stream.p.Length, stream.begin, |before|) && value.Size() == n
    modifies stream.p
    ensures stream.Valid() && before + received <= stream.Content()
    ensures received == ReadInOrder(value.span0.size, value.span1.size, read0, read1)
    ensures r == Err <==> Meets(value.span0.size, value.span1.size, read0, read1, ReadFailed)
    ensures closed <==> Meets(value.span0.size, value.span1.size, read0, read1, Arrived([]))
    ensures exhausted <==> r == Ok && !closed && |received| < n
  {
    hide Unroll, Covers, Reading, ReadInOrder, Meets;
    r, received, exhausted, closed := Ok, [], false, false;
    ghost var a, b := value.span0.size, value.span1.size;
    assert Reading(a, b, read0, read1, 0, received) by { NothingRead(a, b, read0, read1); }
    for i := 0 to VALUE_PARTS
      invariant Reading(a, b, read0, read1, i, received)
      invariant stream.Valid() && before + received <= stream.Content() && !exhausted && !closed
    {
      PartRead(a, b, read0, read1, i, received);
      var part := if i == 0 then value.span0 else value.span1;
      var outcome := if i == 0 then read0 else read1;
      assert received + [] == received;
      if part.size == 0 { continue; }
      if outcome == Arrived([]) { closed := true; return; }
      if outcome.Arrived? {
        var data := outcome.data[..Min(|outcome.data|, part.size)];
        PartSize(a, b, read0, read1, i, received);
        ReadInto(stream, value, i, before, received, data);
        received := received + data;
        if |data| < part.size { exhausted := true; return; }
      } else {
        if outcome == ReadFailed { return Err, received, exhausted, closed; }
        exhausted := true;
        return;
      }
    }
    AllRead(a, b, read0, read1, received);
  }

  lemma NothingRead(a: nat, b: nat, read0: ReadOutcome, read1: ReadOutcome)
    ensures Reading(a, b, read0, read1, 0, [])
  {
  }

  lemma PartSize(a: nat, b: nat, read0: ReadOutcome, read1: ReadOutcome, i: nat, received: seq<byte>)
    requires i < VALUE_PARTS && Reading(a, b, read0, read1, i, received)
    ensures |received| == if i == 0 then 0 else a
  {
  }

  /** server_receive_stream: reads straight into the ring, where the room for n bytes is split after the first `split`
      of them, and gives the unused bytes back. */
  method ReceiveStream(stream: Ring, n: nat, read0: ReadOutcome, read1: ReadOutcome)
    returns (r: Result, received: seq<byte>, exhausted: bool, closed: bool, ghost split: nat)
    requires stream.Valid()
    modifies stream, stream.p
    ensures stream.Valid() && (stream.p == old(stream.p) || fresh(stream.p))
    ensures split <= n && received == ReadInOrder(split, n - split, read0, read1)
    ensures r == Ok ==> stream.Content() == old(stream.Content()) + received
    ensures r == Err ==> old(stream.Content()) + received <= stream.Content()
    ensures r == Err <==> Meets(split, n - split, read0, read1, ReadFailed)
    ensures closed <==> Meets(split, n - split, read0, read1, Arrived([]))
    ensures exhausted <==> r == Ok && !closed && |received| < n
  {
    hide Unroll, Meets;
    ghost var before := stream.Content();
    stream.Reserve(stream.size + n);
    var value;
    r, value := stream.PushGet(n);
    assert r == Ok;
    split := value.span0.size;
    r, received, exhausted, closed := ReadParts(stream, value, n, before, read0, read1);
    if r == Err { return; }
    r := stream.Unpush(n - |received|);
  }

  lemma FrontCovers(value: Spans, capacity: nat, begin: nat, offset: nat, i: nat, n: nat)
    requires Covers(value, capacity, begin, offset) && i < VALUE_PARTS
    requires n <= (if i == 0 then value.span0 else value.span1).size
    ensures Covers(Front(if i == 0 then value.span0 else value.span1, n), capacity, begin,
                   offset + if i == 0 then 0 else value.span0.size)
  {
    var front := Front(if i == 0 then value.span0 else value.span1, n);
    var skip := if i == 0 then 0 else value.span0.size;
    forall j | 0 <= j < n
      ensures front.At(j) == Phys(capacity, begin, offset + skip + j)
    {
      assert value.At(skip + j) == front.At(j);
    }
  }
}
