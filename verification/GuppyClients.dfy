/** send.c: sending the message of a Guppy client, whose chunk counters lie in the front entry of its response queue. */
module GuppyClients {
  import opened Bytes
  import opened Values
  import opened Rings
  import opened Frames
  import opened Pipeline
  import opened Clients
  import opened GuppySend

  /** What one round of sending comes to: bytes are still to be acknowledged, everything is, the message was given up,
      accounting failed, or int_length never returned. */
  datatype RoundResult = Waiting | Complete | Abandoned | Fatal | Hangs

  /** The front entry with other counters. */
  function Recounted(frames: seq<Frame>, counters: seq<byte>): (r: seq<Frame>)
    requires frames != []
  {
    [frames[0].(counters := counters)] + frames[1..]
  }

  /** Where the counters of the front entry are: what the location handed to ring_get says. */
  function CountersAt(f: Frame): nat {
    HEADER_SIZE + f.header.chunks.offset
  }

  lemma FrontCounters(frames: seq<Frame>)
    requires frames != [] && frames[0].WellFormed()
    ensures var f, s := frames[0], EncodeFrames(frames); var at := CountersAt(f);
      && f.header.chunks.size == |f.counters| && at + |f.counters| <= |s| && s[at..at + |f.counters|] == f.counters
  {
    hide EncodeHeader;
    var f, s := frames[0], EncodeFrames(frames);
    var front := EncodeHeader(f.header) + f.method_ + f.resource + f.protocol;
    assert s == front + f.counters + EncodeFrames(frames[1..]);
    assert |front| == CountersAt(f);
  }

  /** Writing counters where they are gives the queue with other counters, and nothing else. */
  lemma CountersInPlace(frames: seq<Frame>, content: seq<byte>)
    requires frames != [] && frames[0].WellFormed()
    requires CountersAt(frames[0]) + |frames[0].counters| <= |EncodeFrames(frames)|
    requires SameOutside(content, EncodeFrames(frames), CountersAt(frames[0]), |frames[0].counters|)
    ensures var at := CountersAt(frames[0]); var counters := content[at..at + |frames[0].counters|];
      && content == EncodeFrames(Recounted(frames, counters)) && Recounted(frames, counters)[0].WellFormed()
      && Counters(content, at, |counters|) == Counters(counters, 0, |counters|)
  {
    hide EncodeHeader;
    var f, s := frames[0], EncodeFrames(frames);
    var at, n := CountersAt(f), |f.counters|;
    var counters := content[at..at + n];
    var front := EncodeHeader(f.header) + f.method_ + f.resource + f.protocol;
    assert s == front + f.counters + EncodeFrames(frames[1..]);
    assert |front| == at && s[..at] == front && s[at + n..] == EncodeFrames(frames[1..]);
    assert content == front + counters + EncodeFrames(frames[1..]);
    var r := Recounted(frames, counters);
    assert r[1..] == frames[1..];
    assert EncodeFrame(r[0]) == front + counters;
  }

  /** The counters of a front entry as server_send_message reads them. */
  function FrontCount(frames: seq<Frame>): seq<int>
    requires frames != []
  {
    Counters(frames[0].counters, 0, |frames[0].counters|)
  }

  lemma CountersOf(s: seq<byte>, at: nat, counters: seq<byte>)
    requires at + |counters| <= |s| && s[at..at + |counters|] == counters
    ensures Counters(s, at, |counters|) == Counters(counters, 0, |counters|)
  {
    forall k | 0 <= k < |counters|
      ensures s[at + k] == counters[k]
    {
      assert s[at..at + |counters|][k] == s[at + k];
    }
  }

  /** The scan that a round does, and what is in the queue afterwards: the same entries, with the front counters that
      the scan says. */
  ghost predicate Scanned(before: seq<Frame>, after: seq<Frame>, dry: bool, message: seq<byte>, last: nat,
                          failed: bool, datagrams: seq<Datagram>)
    requires before != []
  {
    var n, scan := |before[0].counters|, ScanFrom(FrontCount(before), 0, dry, []);
    && (exists counters | |counters| == n :: after == Recounted(before, counters))
    && FrontCount(after) == scan.counters && scan.failed == failed
    && datagrams == Datagrams(message, n, last, scan.sent)
  }

  lemma ScanFromPerformed(before: seq<Frame>, content: seq<byte>, dry: bool, sent: seq<nat>, failed: bool,
                          message: seq<byte>, last: nat, datagrams: seq<Datagram>)
    requires before != [] && (forall i | 0 <= i < |before| :: before[i].WellFormed())
    requires CountersAt(before[0]) + |before[0].counters| <= |EncodeFrames(before)|
    requires Performed(EncodeFrames(before), content, CountersAt(before[0]),
                       Counters(EncodeFrames(before), CountersAt(before[0]), |before[0].counters|),
                       dry, sent, failed, message, last, datagrams)
    ensures var at := CountersAt(before[0]); var after := Recounted(before, content[at..at + |before[0].counters|]);
      && content == EncodeFrames(after) && (forall i | 0 <= i < |after| :: after[i].WellFormed())
      && Scanned(before, after, dry, message, last, failed, datagrams)
  {
    hide EncodeFrames, EncodeFrame, ScanFrom, Datagrams, Counters, Frame.WellFormed;
    var at := CountersAt(before[0]);
    var counters := content[at..at + |before[0].counters|];
    FrontCounters(before);
    CountersOf(EncodeFrames(before), at, before[0].counters);
    CountersInPlace(before, content);
    var after := Recounted(before, counters);
    forall i | 0 <= i < |after|
      ensures after[i].WellFormed()
    {
      if i > 0 { assert after[i] == before[i]; }
    }
  }

  /** The lines of server_send_short_response_stream and server_send_long_output_buffer that a message takes: the
      location in the front header leads to the front counters, so ring_get cannot fail. */
  method ScanFront(c: Client, message: Value, dry: bool, last: nat)
    returns (r: Result, rest: Value, datagrams: seq<Datagram>)
    requires c.Valid() && !c.dead && c.frames != [] && |c.frames[0].counters| <= UINT_MAX
    requires Copyable(message, message.Bytes(), |c.frames[0].counters|, last)
    modifies c`frames, c.queue.p
    ensures c.Valid() && c.frames != []
      && Scanned(old(c.frames), c.frames, dry, message.Bytes(), last, r == Err, datagrams)
    ensures rest.Bytes() == if r == Ok && AllAcked(FrontCount(old(c.frames))) then [] else message.Bytes()
  {
    hide Unroll, EncodeFrames, EncodeFrame, Scanned, Performed, Copyable, AllAcked, Counters, Covers, Frame.WellFormed;
    ghost var frames, at := c.frames, CountersAt(c.frames[0]);
    FrontCounters(frames);
    CountersOf(EncodeFrames(frames), at, frames[0].counters);
    var location := Location(HEADER_SIZE + c.response.chunks.offset, c.response.chunks.size);
    var chunks;
    r, chunks := c.queue.Get(location, false);
    assert r == Ok;
    ghost var sent;
    r, rest, datagrams, sent := SendMessage(message, c.queue, chunks, at, dry, last);
    ghost var content := c.queue.Content();
    ScanFromPerformed(frames, content, dry, sent, r == Err, message.Bytes(), last, datagrams);
    c.frames := Recounted(frames, content[at..at + |frames[0].counters|]);
  }

  /** The sender of the retransmission runs that a round leaves behind. */
  ghost function SenderAfter(r: RoundResult, frames: seq<Frame>): Sender {
    match r
    case Waiting => if frames == [] then GivenUp else Sending(FrontCount(frames))
    case Complete => Delivered
    case _ => GivenUp
  }

  /** A round does what a tick of those runs does. */
  lemma RoundIsTick(before: seq<Frame>, after: seq<Frame>, dry: bool, message: seq<byte>, last: nat, failed: bool,
                    datagrams: seq<Datagram>)
    requires before != [] && Scanned(before, after, dry, message, last, failed, datagrams)
    ensures after != []
    ensures Step(Sending(FrontCount(before)), if dry then DryTick else Tick)
      == if failed then GivenUp else if AllAcked(FrontCount(before)) then Delivered else Sending(FrontCount(after))
  {
    hide FrontCount, Datagrams, AllAcked;
  }

  /** receive.c: an acknowledgement for a Guppy client. If it is accepted, the counter of that chunk in the front entry
      says so, which is the acknowledgement event of the retransmission runs, and nothing else has changed. */
  method AcknowledgeFront(c: Client, seqNo: nat, endsWithCrlf: bool) returns (r: Result)
    requires c.Valid() && !c.dead && c.frames != []
    modifies c`frames, c.queue.p
    ensures c.Valid()
    ensures r == Ok <==>
      !endsWithCrlf && c.response.firstChunk <= seqNo < c.response.firstChunk + |old(c.frames[0].counters)|
    ensures r == Err ==> c.frames == old(c.frames)
    ensures r == Ok ==>
      (var k := seqNo - c.response.firstChunk;
       && c.frames == Recounted(old(c.frames), old(c.frames[0].counters)[k := 255])
       && Step(Sending(FrontCount(old(c.frames))), Ack(k)) == Sending(FrontCount(c.frames)))
  {
    hide Unroll, EncodeFrames, EncodeFrame, Counters, Frame.WellFormed;
    ghost var frames, content := c.frames, c.queue.Content();
    FrontFields(frames[0]);
    FrontCounters(frames);
    r := Acknowledge(c.queue, c.response, seqNo, endsWithCrlf);
    if r == Ok {
      ghost var k := seqNo - c.response.firstChunk;
      AckInPlace(frames, k);
      c.frames := Recounted(frames, frames[0].counters[k := 255]);
    }
  }

  lemma AckInPlace(frames: seq<Frame>, k: nat)
    requires frames != [] && (forall i | 0 <= i < |frames| :: frames[i].WellFormed()) && k < |frames[0].counters|
    ensures var at, s := CountersAt(frames[0]), EncodeFrames(frames);
      var after := Recounted(frames, frames[0].counters[k := 255]);
      && at + k < |s| && s[at + k := 255] == EncodeFrames(after)
      && (forall i | 0 <= i < |after| :: after[i].WellFormed())
      && Step(Sending(FrontCount(frames)), Ack(k)) == Sending(FrontCount(after))
  {
    hide EncodeFrames, EncodeFrame, Frame.WellFormed, Counters, SameOutside;
    var at, n, s := CountersAt(frames[0]), |frames[0].counters|, EncodeFrames(frames);
    FrontCounters(frames);
    AcknowledgeIsAck(s, at, n, k);
    CountersInPlace(frames, s[at + k := 255]);
    assert s[at + k := 255][at..at + n] == frames[0].counters[k := 255];
    CountersOf(s, at, frames[0].counters);
    var after := Recounted(frames, frames[0].counters[k := 255]);
    forall i | 0 <= i < |after|
      ensures after[i].WellFormed()
    {
      if i > 0 { assert after[i] == frames[i]; }
    }
  }

  /** One round of sending the message of a Guppy client: datagrams for the chunks of the scan, then the accounting.
      When all chunks were acknowledged the message is dropped, and with it exactly the response it belongs to. */
  method SendFront(c: Client, message: Value, dry: bool) returns (r: RoundResult, datagrams: seq<Datagram>)
    requires c.Valid() && !c.dead && c.frames != []
    requires |c.frames[0].counters| <= UINT_MAX && message.Bytes() != [] && |message.Bytes()| == c.response.streamSize
    requires c.response.firstChunk + |c.frames[0].counters| >= 1 ==>
      Copyable(message, message.Bytes(), |c.frames[0].counters|, LastOf(c.frames[0]))
    modifies c`response, c`count, c`frames, c`log, c.queue`size, c.queue`begin, c.queue.p
    ensures c.Valid() && r != Fatal
    ensures r == Hangs <==> old(c.response.firstChunk) + |old(c.frames[0].counters)| == 0
    ensures r == Hangs ==> c.frames == old(c.frames) && c.log == old(c.log)
    ensures r != Hangs
      ==> Step(Sending(FrontCount(old(c.frames))), if dry then DryTick else Tick) == SenderAfter(r, c.frames)
    ensures r == Complete ==>
      && AllAcked(FrontCount(old(c.frames)))
      && c.frames == old(c.frames)[1..] && c.log == old(c.log) + [KeyOf(old(c.frames[0]))]
    ensures r == Waiting || r == Abandoned ==>
      && (r == Waiting ==> !AllAcked(FrontCount(old(c.frames))))
      && c.log == old(c.log)
      && Scanned(old(c.frames), c.frames, dry, message.Bytes(), LastOf(old(c.frames[0])), r == Abandoned, datagrams)
  {
    hide Unroll, EncodeFrames, EncodeFrame, Scanned, Copyable, AllAcked, Counters, Drain, Frame.WellFormed, FrontCount;
    datagrams := [];
    FrontFields(c.frames[0]);
    var size := LastChunkSize(c.response.firstChunk, c.response.chunks.size);
    if size == NeverReturns { return Hangs, datagrams; }
    ghost var before := c.frames;
    var result, rest;
    result, rest, datagrams := ScanFront(c, message, dry, size.length);
    RoundIsTick(before, c.frames, dry, message.Bytes(), size.length, result == Err, datagrams);
    if result == Err { return Abandoned, datagrams; }
    OnlyCounters(before, c.frames, dry, message.Bytes(), size.length, false, datagrams);
    var oldSize := Values.Size(message);
    var newSize := Values.Size(rest);
    r := Settle(c, oldSize, newSize);
  }

  /** The accounting behind server_send_message, for a message that is still there or was dropped as a whole. */
  method Settle(c: Client, oldSize: nat, newSize: nat) returns (r: RoundResult)
    requires c.Valid() && !c.dead && c.frames != []
    requires oldSize == c.response.streamSize > 0 && (newSize == 0 || newSize == oldSize)
    modifies c`response, c`count, c`frames, c`log, c.queue`size, c.queue`begin
    ensures c.Valid()
    ensures r == if newSize == 0 then Complete else Waiting
    ensures r == Complete ==> c.frames == old(c.frames)[1..] && c.log == old(c.log) + [KeyOf(old(c.frames[0]))]
    ensures r == Waiting ==> c.frames == old(c.frames) && c.log == old(c.log)
  {
    hide Unroll, EncodeFrames, Drain, Frame.WellFormed;
    DrainAll(c.frames, oldSize);
    DrainNone(c.frames, oldSize);
    var result := c.PopResponses(oldSize - newSize);
    r := if result == Err then Fatal else if newSize == 0 then Complete else Waiting;
  }

  /** The size of the last chunk of an entry's message, where it can be computed. */
  function LastOf(f: Frame): nat
    requires f.header.firstChunk + |f.counters| >= 1
  {
    |Decimal(f.header.firstChunk + |f.counters| - 1)| + 2
  }

  lemma FrontFields(f: Frame)
    requires f.WellFormed()
    ensures f.header.chunks.size == |f.counters| && f.header.firstChunk <= UINT_MAX
  {
  }

  lemma OnlyCounters(before: seq<Frame>, after: seq<Frame>, dry: bool, message: seq<byte>, last: nat, failed: bool,
                     datagrams: seq<Datagram>)
    requires before != [] && Scanned(before, after, dry, message, last, failed, datagrams)
    ensures after != [] && after[1..] == before[1..] && KeyOf(after[0]) == KeyOf(before[0])
    ensures after[0].header == before[0].header
  {
  }

  /** All bytes of the front response pop exactly the front entry. */
  lemma DrainAll(frames: seq<Frame>, size: nat)
    requires frames != [] && size > 0
    ensures Drain(frames, size, size) == Drained(frames[1..], FrontSize(frames[1..]), [KeyOf(frames[0])], false)
  {
    assert Drain(frames[1..], FrontSize(frames[1..]), 0).log == [];
  }

  lemma DrainNone(frames: seq<Frame>, left: nat)
    ensures Drain(frames, left, 0) == Drained(frames, left, [], false)
  {
  }
}
