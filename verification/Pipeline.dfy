/** The response pipeline of all clients as a state machine: the specification that Server.dfy implements. */
module Pipeline {
  import opened Bytes
  import opened Values
  import opened Frames

  /** What the log shows of a request. */
  datatype Key = Key(method_: seq<byte>, resource: seq<byte>)

  function KeyOf(f: Frame): Key {
    Key(f.method_, f.resource)
  }

  function Keys(frames: seq<Frame>): (k: seq<Key>)
    ensures |k| == |frames|
  {
    seq(|frames|, i requires 0 <= i < |frames| => KeyOf(frames[i]))
  }

  /** One plaintext client. `wire`, `bodies`, `asked` and `log` record its whole life: bytes handed to the socket,
      responses generated, requests answered, requests logged as completely sent. */
  datatype Conn = Conn(
    live: bool,
    stream: seq<byte>,          // response_stream
    frames: seq<Frame>,         // response_queue
    left: nat,                  // response.stream_size: unsent bytes of the front response
    wire: seq<byte>,
    bodies: seq<seq<byte>>,
    asked: seq<Key>,
    log: seq<Key>)

  const NEW_CONN := Conn(true, [], [], 0, [], [], [], [])

  /** All clients, the short stream with the index of its owner, the index of the client for whom a short request
      message waits, and whether the server died because a response could not be popped. An index is -1 when there is
      nobody. */
  datatype State = State(conns: seq<Conn>, owner: int, short: seq<byte>, message: int, panic: bool)

  const START := State([], -1, [], -1, false)

  function Flatten(bodies: seq<seq<byte>>): (s: seq<byte>) {
    if bodies == [] then [] else Flatten(bodies[..|bodies| - 1]) + bodies[|bodies| - 1]
  }

  // ---- Accounting of one client ----

  function FrontSize(frames: seq<Frame>): nat {
    if frames == [] then 0 else frames[0].header.streamSize
  }

  /** Unsent bytes that the queue accounts for, when `left` bytes of its front response are unsent. */
  function Due(frames: seq<Frame>, left: nat): nat {
    if frames == [] then 0 else left + Due(frames[1..], FrontSize(frames[1..]))
  }

  datatype Drained = Drained(frames: seq<Frame>, left: nat, log: seq<Key>, panic: bool)

  /** server_pop_responses: what the queue looks like after `sent` more bytes. Popping from an empty queue is fatal. */
  function Drain(frames: seq<Frame>, left: nat, sent: nat): (d: Drained)
    decreases |frames|
  {
    if sent == 0 then Drained(frames, left, [], false)
    else if frames == [] then Drained(frames, left, [], true)
    else if sent >= left then
      var d := Drain(frames[1..], FrontSize(frames[1..]), sent - left);
      d.(log := [KeyOf(frames[0])] + d.log)
    else Drained(frames, left - sent, [], false)
  }

  /** The queue holds the answers that are not yet logged, with their sizes and requests, in order. */
  ghost predicate QueueMatches(c: Conn) {
    && |c.asked| == |c.bodies| == |c.log| + |c.frames|
    && c.log + Keys(c.frames) == c.asked
    && (forall i | 0 <= i < |c.frames| ::
          c.frames[i].WellFormed() && c.frames[i].header.streamSize == |c.bodies[|c.log| + i]|)
    && FrontOpen(c.frames, c.left)
  }

  /** The front response has unsent bytes, unless it is empty altogether. */
  predicate FrontOpen(frames: seq<Frame>, left: nat) {
    left <= FrontSize(frames) && (left == 0 ==> FrontSize(frames) == 0)
  }

  /** FIFO conservation and accounting of one client, `short` being its part of the short stream. */
  ghost predicate ConnInv(c: Conn, short: seq<byte>) {
    && QueueMatches(c)
    && c.wire + short + c.stream == Flatten(c.bodies)
    && |short| + |c.stream| == Due(c.frames, c.left)
  }

  function ShortOf(s: State, i: nat): seq<byte> {
    if s.owner == i then s.short else []
  }

  /** The invariant of the whole server. A live owner of pending short bytes has nothing in its own stream: this is what
      keeps its bytes in order. A dead owner is allowed: its bytes are flushed into a ring that nobody sends from. */
  ghost predicate Inv(s: State) {
    && -1 <= s.owner && (s.owner == -1 ==> s.short == [])
    && (s.short != [] ==> s.owner < |s.conns| && (s.conns[s.owner].live ==> s.conns[s.owner].stream == []))
    && (forall i | 0 <= i < |s.conns| && s.conns[i].live :: ConnInv(s.conns[i], ShortOf(s, i)))
    && !s.panic
  }

  /** What the clients see of it: what a live client got on the wire, then its short bytes, then its own stream, is the
      concatenation of its answers in order; the queue accounts for exactly the unsent bytes; the server is not dead. */
  ghost predicate Conserved(s: State) {
    && !s.panic
    && forall i | 0 <= i < |s.conns| && s.conns[i].live ::
         && s.conns[i].wire + ShortOf(s, i) + s.conns[i].stream == Flatten(s.conns[i].bodies)
         && |ShortOf(s, i)| + |s.conns[i].stream| == Due(s.conns[i].frames, s.conns[i].left)
  }

  /** A dead client owns bytes in the short stream. */
  predicate OwnerLost(s: State) {
    0 <= s.owner < |s.conns| && !s.conns[s.owner].live && s.short != []
  }

  // ---- Steps ----

  /** The owner's short bytes move behind its own stream. */
  function Flush(c: Conn, short: seq<byte>): Conn {
    c.(stream := c.stream + short)
  }

  /** A new answer is queued; `direct` answers go to the short stream instead of the client's own. */
  function Answer(c: Conn, frame: Frame, body: seq<byte>, direct: bool): Conn {
    c.(frames := c.frames + [frame],
       left := if c.frames == [] then frame.header.streamSize else c.left,
       stream := if direct then c.stream else c.stream + body,
       bodies := c.bodies + [body],
       asked := c.asked + [KeyOf(frame)])
  }

  /** n pending bytes go on the wire. */
  function Transmit(c: Conn, n: nat, bytes: seq<byte>, stream: seq<byte>): Conn {
    var d := Drain(c.frames, c.left, n);
    c.(wire := c.wire + bytes, stream := stream, frames := d.frames, left := d.left, log := c.log + d.log)
  }

  function Finalize(c: Conn): Conn {
    c.(live := false, stream := [], frames := [], left := 0)
  }

  /** client_finalize: the rings of client i are emptied. If a request message waits for it, the short *response* stream
      is cleared, whoever owns it; the message stays where it is. */
  function FinalizeAt(s: State, i: nat): State
    requires i < |s.conns|
  {
    var t := s.(conns := s.conns[i := Finalize(s.conns[i])]);
    if s.message == i then t.(owner := -1, short := []) else t
  }

  function LiveOnly(conns: seq<Conn>): (r: seq<Conn>)
    ensures |r| <= |conns|
  {
    if conns == [] then []
    else LiveOnly(conns[..|conns| - 1]) + if conns[|conns| - 1].live then [conns[|conns| - 1]] else []
  }

  datatype Event =
    | Accept
    | Process(i: nat, frame: Frame, body: seq<byte>)
    | Send(i: nat, n: nat)
    | Close(i: nat)
    | Abort(i: nat)
    | Compact
    | Message(i: nat) // a Guppy message arrives for client i
    | Received(i: nat) // client i takes it

  function PendingSize(s: State, i: nat): nat
    requires i < |s.conns|
  {
    |ShortOf(s, i)| + |s.conns[i].stream|
  }

  predicate Live(s: State, i: nat) {
    i < |s.conns| && s.conns[i].live
  }

  /** Which events can happen: a normal close needs an empty pipeline, an abort happens at any time.
      Nothing happens after a panic. */
  predicate Enabled(s: State, e: Event) {
    !s.panic &&
    match e
    case Accept => true
    case Process(i, frame, body) => Live(s, i) && frame.WellFormed() && frame.header.streamSize == |body|
    case Send(i, n) => Live(s, i) && n <= if s.owner == i then |s.short| else |s.conns[i].stream|
    case Close(i) => Live(s, i) && PendingSize(s, i) == 0 && s.conns[i].frames == []
    case Abort(i) => Live(s, i)
    case Compact => true
    case Message(i) => s.message == -1 && i < |s.conns|
    case Received(i) => Live(s, i) && s.message == i
  }

  /** The short stream goes to its owner, dead or alive; an owner outside the table is no client of the model. */
  function FlushOwner(s: State): State {
    s.(conns := if 0 <= s.owner < |s.conns| then s.conns[s.owner := Flush(s.conns[s.owner], s.short)] else s.conns,
       owner := -1, short := [])
  }

  /** The new answer becomes the short stream, unless its client still has bytes of its own to send. */
  function Place(s: State, i: nat, frame: Frame, body: seq<byte>): State
    requires i < |s.conns|
  {
    var direct := s.conns[i].stream == [];
    s.(conns := s.conns[i := Answer(s.conns[i], frame, body, direct)],
       owner := if direct then i else -1, short := if direct then body else [])
  }

  function Apply(s: State, e: Event): (r: State)
    requires Enabled(s, e)
  {
    match e
    case Accept => s.(conns := s.conns + [NEW_CONN])
    case Process(i, frame, body) =>
      Place(FlushOwner(s), i, frame, body)
    case Send(i, n) =>
      var c := s.conns[i];
      var panic := Drain(c.frames, c.left, n).panic;
      if s.owner == i then
        s.(conns := s.conns[i := Transmit(c, n, s.short[..n], c.stream)],
           owner := if n == |s.short| then -1 else i, short := s.short[n..], panic := panic)
      else
        s.(conns := s.conns[i := Transmit(c, n, c.stream[..n], c.stream[n..])], panic := panic)
    case Close(i) => FinalizeAt(s, i)
    case Abort(i) => FinalizeAt(s, i)
    case Compact =>
      s.(conns := LiveOnly(s.conns),
         owner :=
           if Live(s, if s.owner < 0 then |s.conns| else s.owner) then |LiveOnly(s.conns[..s.owner])|
           else s.owner)
    case Message(i) => s.(message := i)
    case Received(i) => s.(message := -1)
  }

  /** A run; events that cannot happen are skipped. */
  function Run(s: State, events: seq<Event>): State
    decreases |events|
  {
    if events == [] then s
    else Run(if Enabled(s, events[0]) then Apply(s, events[0]) else s, events[1..])
  }

  /** Finalizing client i would clear the short stream of another live client. */
  predicate ClearsOther(s: State, i: nat) {
    s.message == i && s.owner != i && s.short != [] && 0 <= s.owner < |s.conns| && s.conns[s.owner].live
  }

  /** The events that lose or misplace bytes: compaction while a dead client owns bytes in the short stream, and
      finalizing a client for whom a message waits while another live client owns bytes there. */
  predicate Loses(s: State, e: Event) {
    match e
    case Compact => OwnerLost(s)
    case Close(i) => ClearsOther(s, i)
    case Abort(i) => ClearsOther(s, i)
    case _ => false
  }

  /** A run without such events. */
  predicate NoLoss(s: State, events: seq<Event>)
    decreases |events|
  {
    events == [] ||
    if Enabled(s, events[0]) then !Loses(s, events[0]) && NoLoss(Apply(s, events[0]), events[1..])
    else NoLoss(s, events[1..])
  }

  // ---- Draining the queue ----

  lemma {:induction false} DueAppend(frames: seq<Frame>, left: nat, f: Frame)
    ensures Due(frames + [f], if frames == [] then f.header.streamSize else left)
      == Due(frames, left) + f.header.streamSize
  {
    if frames == [] {
      assert [f][1..] == [];
    } else {
      assert (frames + [f])[1..] == frames[1..] + [f];
      DueAppend(frames[1..], FrontSize(frames[1..]), f);
    }
  }

  /** Popping fails exactly when more was sent than the queue accounts for. */
  lemma {:induction false} DrainPanics(frames: seq<Frame>, left: nat, sent: nat)
    ensures Drain(frames, left, sent).panic <==> sent > Due(frames, left)
    decreases |frames|
  {
    if frames != [] && sent >= left && sent > 0 {
      DrainPanics(frames[1..], FrontSize(frames[1..]), sent - left);
    }
  }

  /** Draining pops whole frames from the front and logs them in order; the rest still accounts for the unsent bytes. */
  lemma {:induction false} DrainPops(frames: seq<Frame>, left: nat, sent: nat) returns (m: nat)
    requires sent <= Due(frames, left) && FrontOpen(frames, left)
    ensures var d := Drain(frames, left, sent);
      && m <= |frames| && d.frames == frames[m..] && d.log == Keys(frames[..m])
      && FrontOpen(d.frames, d.left) && !d.panic
      && Due(d.frames, d.left) == Due(frames, left) - sent
    decreases |frames|
  {
    m := 0;
    if sent > 0 && sent >= left {
      var k := DrainPops(frames[1..], FrontSize(frames[1..]), sent - left);
      m := k + 1;
      PopKeys(frames, k);
    }
  }

  lemma PopKeys(frames: seq<Frame>, k: nat)
    requires k < |frames|
    ensures Keys(frames[..k + 1]) == [KeyOf(frames[0])] + Keys(frames[1..][..k])
    ensures frames[1..][k..] == frames[k + 1..]
  {
  }

  /** When nothing is pending, the queue is empty exactly if no queued response is empty. */
  lemma QueueEmptyAtEnd(frames: seq<Frame>, left: nat)
    requires Due(frames, left) == 0 && FrontOpen(frames, left)
    ensures frames == [] <==> forall i | 0 <= i < |frames| :: frames[i].header.streamSize > 0
  {
    assert frames != [] ==> !(frames[0].header.streamSize > 0);
  }

  // ---- What each step keeps ----

  lemma FlattenAppend(bodies: seq<seq<byte>>, body: seq<byte>)
    ensures Flatten(bodies + [body]) == Flatten(bodies) + body
  {
    assert (bodies + [body])[..|bodies|] == bodies;
  }

  lemma KeysConcat(a: seq<Frame>, b: seq<Frame>)
    ensures Keys(a + b) == Keys(a) + Keys(b)
  {
  }

  lemma NothingDue(frames: seq<Frame>, left: nat)
    ensures frames == [] ==> Due(frames, left) == 0
  {
  }

  /** Sending from the short stream keeps its owner's accounts. */
  lemma TransmitShort(c: Conn, short: seq<byte>, n: nat)
    requires ConnInv(c, short) && c.stream == [] && n <= |short|
    ensures !Drain(c.frames, c.left, n).panic
    ensures ConnInv(Transmit(c, n, short[..n], c.stream), short[n..])
    ensures n < |short| ==> Transmit(c, n, short[..n], c.stream).frames != []
  {
    hide Flatten, Due, Keys, Drain;
    var m := DrainPops(c.frames, c.left, n);
    var t := Transmit(c, n, short[..n], c.stream);
    NothingDue(t.frames, t.left);
    MatchesAfterPop(c, m, t);
    assert c.wire + short + c.stream == c.wire + short[..n] + short[n..] + c.stream;
  }

  /** Sending from a client's own stream keeps its accounts. */
  lemma TransmitStream(c: Conn, n: nat)
    requires ConnInv(c, []) && n <= |c.stream|
    ensures !Drain(c.frames, c.left, n).panic
    ensures ConnInv(Transmit(c, n, c.stream[..n], c.stream[n..]), [])
  {
    hide Flatten, Due, Keys, Drain;
    var m := DrainPops(c.frames, c.left, n);
    var t := Transmit(c, n, c.stream[..n], c.stream[n..]);
    MatchesAfterPop(c, m, t);
    assert c.wire + [] + c.stream == c.wire + c.stream[..n] + [] + c.stream[n..];
  }

  lemma MatchesAfterPop(c: Conn, m: nat, t: Conn)
    requires QueueMatches(c) && m <= |c.frames|
    requires t.frames == c.frames[m..] && t.log == c.log + Keys(c.frames[..m])
    requires t.asked == c.asked && t.bodies == c.bodies && FrontOpen(t.frames, t.left)
    ensures QueueMatches(t)
  {
    assert c.frames == c.frames[..m] + c.frames[m..];
    KeysConcat(c.frames[..m], c.frames[m..]);
    forall i | 0 <= i < |t.frames|
      ensures t.frames[i].WellFormed() && t.frames[i].header.streamSize == |t.bodies[|t.log| + i]|
    {
      assert t.frames[i] == c.frames[m + i];
    }
  }

  /** Queueing an answer keeps a client's accounts. */
  lemma AnswerKeeps(c: Conn, frame: Frame, body: seq<byte>, direct: bool)
    requires ConnInv(c, []) && frame.WellFormed() && frame.header.streamSize == |body|
    requires direct ==> c.stream == []
    ensures ConnInv(Answer(c, frame, body, direct), if direct then body else [])
    ensures Answer(c, frame, body, direct).frames != []
  {
    hide Flatten, Due, Keys, Frame.WellFormed;
    var a := Answer(c, frame, body, direct);
    DueAppend(c.frames, c.left, frame);
    FlattenAppend(c.bodies, body);
    AnswerMatches(c, frame, body, direct);
    assert c.wire + [] + c.stream + body == c.wire + (if direct then body else []) + a.stream;
  }

  lemma AnswerMatches(c: Conn, frame: Frame, body: seq<byte>, direct: bool)
    requires QueueMatches(c) && frame.WellFormed() && frame.header.streamSize == |body|
    ensures QueueMatches(Answer(c, frame, body, direct))
  {
    hide Frame.WellFormed;
    var a := Answer(c, frame, body, direct);
    KeysConcat(c.frames, [frame]);
    assert Keys([frame]) == [KeyOf(frame)];
    assert a.log + Keys(a.frames) == c.log + Keys(c.frames) + [KeyOf(frame)];
    forall i | 0 <= i < |a.frames|
      ensures a.frames[i].WellFormed() && a.frames[i].header.streamSize == |a.bodies[|a.log| + i]|
    {
      if i < |c.frames| { assert a.frames[i] == c.frames[i]; }
    }
  }

  lemma FlushKeeps(c: Conn, short: seq<byte>)
    requires ConnInv(c, short) && c.stream == []
    ensures ConnInv(Flush(c, short), [])
  {
    assert c.wire + short + c.stream == c.wire + [] + (c.stream + short);
  }

  lemma FlushNothing(c: Conn)
    ensures Flush(c, []) == c
  {
  }

  lemma FlushOwnerKeeps(s: State)
    requires Inv(s)
    ensures Inv(FlushOwner(s)) && FlushOwner(s).owner == -1 && |FlushOwner(s).conns| == |s.conns|
    ensures forall i | 0 <= i < |s.conns| :: FlushOwner(s).conns[i].live == s.conns[i].live
  {
    var f := FlushOwner(s);
    forall i | 0 <= i < |f.conns| && f.conns[i].live
      ensures ConnInv(f.conns[i], ShortOf(f, i))
    {
      assert ConnInv(s.conns[i], ShortOf(s, i));
      if i == s.owner {
        if s.short == [] { FlushNothing(s.conns[i]); } else { FlushKeeps(s.conns[i], s.short); }
      }
    }
  }

  lemma ProcessKeeps(s: State, i: nat, frame: Frame, body: seq<byte>)
    requires Inv(s) && Enabled(s, Process(i, frame, body))
    ensures Inv(Apply(s, Process(i, frame, body)))
  {
    FlushOwnerKeeps(s);
    var f := FlushOwner(s);
    var t := Apply(s, Process(i, frame, body));
    assert ConnInv(f.conns[i], ShortOf(f, i));
    AnswerKeeps(f.conns[i], frame, body, f.conns[i].stream == []);
    forall j | 0 <= j < |t.conns| && t.conns[j].live
      ensures ConnInv(t.conns[j], ShortOf(t, j))
    {
      if j != i { assert ConnInv(f.conns[j], ShortOf(f, j)); }
    }
  }

  /** Sending nothing changes nothing in a client. */
  lemma TransmitNothing(c: Conn, none: seq<byte>)
    requires none == []
    ensures Transmit(c, 0, none, c.stream) == c && !Drain(c.frames, c.left, 0).panic
  {
    assert c.wire + [] == c.wire && c.log + [] == c.log;
  }

  lemma SendKeeps(s: State, i: nat, n: nat)
    requires Inv(s) && Enabled(s, Send(i, n))
    ensures Inv(Apply(s, Send(i, n)))
  {
    var t := Apply(s, Send(i, n));
    assert ConnInv(s.conns[i], ShortOf(s, i));
    if s.owner != i { TransmitStream(s.conns[i], n); }
    else if s.short != [] { TransmitShort(s.conns[i], s.short, n); }
    else { TransmitNothing(s.conns[i], s.short[..n]); }
    forall j | 0 <= j < |t.conns| && t.conns[j].live
      ensures ConnInv(t.conns[j], ShortOf(t, j))
    {
      if j != i { assert ConnInv(s.conns[j], ShortOf(s, j)); }
      else if s.owner == i && n == |s.short| { assert s.short[n..] == []; }
    }
  }

  /** Finalizing a client keeps the invariant, and everybody's bytes, exactly if it does not clear the short stream of
      another live client. It leaves bytes without an owner exactly if it owned some there itself, or somebody dead did,
      and the short stream is not cleared. */
  lemma FinalizeKeeps(s: State, i: nat)
    requires Inv(s) && Live(s, i)
    ensures var t := FinalizeAt(s, i);
      && (Inv(t) <==> !ClearsOther(s, i)) && (Conserved(t) <==> !ClearsOther(s, i))
      && (OwnerLost(t) <==> s.message != i && (OwnerLost(s) || (s.owner == i && s.short != [])))
  {
    var t := FinalizeAt(s, i);
    if ClearsOther(s, i) {
      assert ConnInv(s.conns[s.owner], ShortOf(s, s.owner));
      assert t.conns[s.owner] == s.conns[s.owner];
      TwoShorts(s.conns[s.owner], s.short, []);
      assert !Conserved(t);
      if Inv(t) { InvConserves(t); }
    } else {
      forall j | 0 <= j < |t.conns| && t.conns[j].live
        ensures ConnInv(t.conns[j], ShortOf(t, j))
      {
        assert ConnInv(s.conns[j], ShortOf(s, j));
      }
      InvConserves(t);
    }
  }

  /** The accounts of a client determine which bytes are pending in the short stream. */
  lemma TwoShorts(c: Conn, short: seq<byte>, other: seq<byte>)
    requires ConnInv(c, short) && |short| != |other|
    ensures c.wire + other + c.stream != Flatten(c.bodies)
  {
    assert |c.wire + other + c.stream| != |c.wire + short + c.stream|;
  }

  /** The guards of a normal close rule out that the client has bytes in the short stream, so no bytes are left behind
      with it. */
  lemma CloseKeeps(s: State, i: nat)
    requires Inv(s) && Enabled(s, Close(i))
    ensures var t := Apply(s, Close(i));
      (Inv(t) <==> !ClearsOther(s, i)) && (OwnerLost(t) <==> OwnerLost(s) && s.message != i)
  {
    FinalizeKeeps(s, i);
  }

  // ---- Removing dead clients ----

  lemma {:induction false} LiveOnlyAt(conns: seq<Conn>, i: nat)
    requires i < |conns| && conns[i].live
    ensures |LiveOnly(conns[..i])| < |LiveOnly(conns)|
    ensures LiveOnly(conns)[|LiveOnly(conns[..i])|] == conns[i]
    decreases |conns|
  {
    var front := conns[..|conns| - 1];
    if i < |conns| - 1 {
      LiveOnlyAt(front, i);
      assert front[..i] == conns[..i];
    }
  }

  /** Where survivor k was before. */
  lemma {:induction false} LiveOnlySource(conns: seq<Conn>, k: nat) returns (i: nat)
    requires k < |LiveOnly(conns)|
    ensures i < |conns| && conns[i].live && conns[i] == LiveOnly(conns)[k] && |LiveOnly(conns[..i])| == k
    decreases |conns|
  {
    var front := conns[..|conns| - 1];
    if k < |LiveOnly(front)| {
      i := LiveOnlySource(front, k);
      assert front[..i] == conns[..i];
    } else {
      i := |conns| - 1;
    }
  }

  /** Compaction keeps every live client and its accounts, and moves the owner index along with its client, if no bytes
      are lost. */
  lemma CompactKeeps(s: State)
    requires Inv(s) && !OwnerLost(s)
    ensures var t := Apply(s, Compact);
      Inv(t) && (s.short != [] ==> 0 <= t.owner < |t.conns| && t.conns[t.owner] == s.conns[s.owner])
  {
    var t := Apply(s, Compact);
    if s.short != [] { LiveOnlyAt(s.conns, s.owner); }
    forall k | 0 <= k < |t.conns|
      ensures ConnInv(t.conns[k], ShortOf(t, k))
    {
      var i := LiveOnlySource(s.conns, k);
      assert ConnInv(s.conns[i], ShortOf(s, i));
      if s.short != [] {
        if s.owner < i { LiveRankGrows(s.conns, s.owner, i); }
        if i < s.owner { LiveRankGrows(s.conns, i, s.owner); }
      }
    }
  }

  lemma LiveRankGrows(conns: seq<Conn>, i: nat, j: nat)
    requires i < j <= |conns| && conns[i].live
    ensures |LiveOnly(conns[..i])| < |LiveOnly(conns[..j])|
  {
    LiveOnlyAt(conns[..j], i);
    assert conns[..j][..i] == conns[..i];
  }

  // ---- Whole runs ----

  lemma ApplyKeeps(s: State, e: Event)
    requires Inv(s) && Enabled(s, e) && !Loses(s, e)
    ensures Inv(Apply(s, e))
  {
    match e
    case Accept =>
      var t := Apply(s, e);
      forall j | 0 <= j < |t.conns| && t.conns[j].live
        ensures ConnInv(t.conns[j], ShortOf(t, j))
      {
        if j < |s.conns| { assert ConnInv(s.conns[j], ShortOf(s, j)); }
      }
    case Process(i, frame, body) => ProcessKeeps(s, i, frame, body);
    case Send(i, n) => SendKeeps(s, i, n);
    case Close(i) => FinalizeKeeps(s, i);
    case Abort(i) => FinalizeKeeps(s, i);
    case Compact => CompactKeeps(s);
    case Message(i) => MessageKeeps(s, i);
    case Received(i) => MessageKeeps(s, -1);
  }

  lemma MessageKeeps(s: State, i: int)
    requires Inv(s)
    ensures Inv(s.(message := i))
  {
    var t := s.(message := i);
    forall j | 0 <= j < |t.conns| && t.conns[j].live
      ensures ConnInv(t.conns[j], ShortOf(t, j))
    {
      assert ConnInv(s.conns[j], ShortOf(s, j));
    }
  }

  lemma {:induction false} RunKeeps(s: State, events: seq<Event>)
    requires Inv(s) && NoLoss(s, events)
    ensures Inv(Run(s, events))
    decreases |events|
  {
    hide Inv, Loses, Apply, Enabled;
    if events != [] {
      if Enabled(s, events[0]) {
        ApplyKeeps(s, events[0]);
        RunKeeps(Apply(s, events[0]), events[1..]);
      } else {
        RunKeeps(s, events[1..]);
      }
    }
  }

  lemma InvConserves(s: State)
    requires Inv(s)
    ensures Conserved(s)
  {
    forall i | 0 <= i < |s.conns| && s.conns[i].live
      ensures s.conns[i].wire + ShortOf(s, i) + s.conns[i].stream == Flatten(s.conns[i].bodies)
      ensures |ShortOf(s, i)| + |s.conns[i].stream| == Due(s.conns[i].frames, s.conns[i].left)
    {
      assert ConnInv(s.conns[i], ShortOf(s, i));
    }
  }

  /** Over every interleaving of accepting, answering, sending, closing, failing, compacting and receiving messages
      without those events: no live client loses, gains or reorders a byte, and the server does not panic. */
  lemma FifoConservation(events: seq<Event>)
    requires NoLoss(START, events)
    ensures Conserved(Run(START, events))
  {
    RunKeeps(START, events);
    InvConserves(Run(START, events));
  }

  /** The table is never compacted while a dead client owns bytes in the short stream. */
  predicate NoOwnerLost(s: State, events: seq<Event>)
    decreases |events|
  {
    events == [] ||
    (&& (events[0].Compact? ==> !OwnerLost(s))
     && NoOwnerLost(if Enabled(s, events[0]) then Apply(s, events[0]) else s, events[1..]))
  }

  /** Where no Guppy message arrives, compaction is all there is to fear. */
  lemma {:induction false} WithoutMessages(s: State, events: seq<Event>)
    requires s.message == -1 && NoOwnerLost(s, events)
    requires forall k | 0 <= k < |events| :: !events[k].Message?
    ensures NoLoss(s, events)
    decreases |events|
  {
    hide OwnerLost, Answer, Transmit, LiveOnly, Drain;
    if events != [] {
      WithoutMessages(if Enabled(s, events[0]) then Apply(s, events[0]) else s, events[1..]);
    }
  }

  lemma FifoWithoutMessages(events: seq<Event>)
    requires NoOwnerLost(START, events) && forall k | 0 <= k < |events| :: !events[k].Message?
    ensures Conserved(Run(START, events))
  {
    WithoutMessages(START, events);
    FifoConservation(events);
  }

  /** No client is torn down by an error while it owns bytes in the short stream, unless they are cleared with it, and
      none is finalized that clears those of another one. */
  predicate NoOwnerAborted(s: State, events: seq<Event>)
    decreases |events|
  {
    events == [] ||
    (&& (events[0].Abort? ==> s.owner != events[0].i || s.short == [] || s.message == events[0].i)
     && (events[0].Abort? || events[0].Close? ==> !ClearsOther(s, events[0].i))
     && NoOwnerAborted(if Enabled(s, events[0]) then Apply(s, events[0]) else s, events[1..]))
  }

  lemma NotLostNext(s: State, e: Event)
    requires Inv(s) && !OwnerLost(s) && Enabled(s, e)
    requires e.Abort? ==> s.owner != e.i || s.short == [] || s.message == e.i
    requires e.Abort? || e.Close? ==> !ClearsOther(s, e.i)
    ensures !Loses(s, e) && Inv(Apply(s, e)) && !OwnerLost(Apply(s, e))
  {
    ApplyKeeps(s, e);
    match e
    case Close(i) => CloseKeeps(s, i);
    case Abort(i) => FinalizeKeeps(s, i);
    case Compact => CompactKeeps(s);
    case _ =>
  }

  /** A stronger hypothesis that is enough, and that does not look at compactions. */
  lemma {:induction false} AbortsOnlyLose(s: State, events: seq<Event>)
    requires Inv(s) && !OwnerLost(s) && NoOwnerAborted(s, events)
    ensures NoLoss(s, events)
    decreases |events|
  {
    hide Inv, OwnerLost, Apply, Enabled, Loses, ClearsOther;
    if events != [] {
      if Enabled(s, events[0]) {
        NotLostNext(s, events[0]);
        AbortsOnlyLose(Apply(s, events[0]), events[1..]);
      } else {
        AbortsOnlyLose(s, events[1..]);
      }
    }
  }

  /** If every answer has bytes, the short stream has an owner only as long as it has bytes. */
  lemma {:induction false} OwnerHasBytes(s: State, events: seq<Event>)
    requires s.owner == -1 || s.short != []
    requires forall k | 0 <= k < |events| && events[k].Process? :: events[k].body != []
    ensures Run(s, events).owner == -1 || Run(s, events).short != []
    decreases |events|
  {
    if events != [] {
      var t := if Enabled(s, events[0]) then Apply(s, events[0]) else s;
      assert t.owner == -1 || t.short != [] by { OwnerHasBytesNext(s, events[0]); }
      OwnerHasBytes(t, events[1..]);
    }
  }

  lemma OwnerHasBytesNext(s: State, e: Event)
    requires s.owner == -1 || s.short != []
    requires e.Process? ==> e.body != []
    ensures Enabled(s, e) ==> Apply(s, e).owner == -1 || Apply(s, e).short != []
  {
    hide Answer, Transmit, Drain, LiveOnly, Frame.WellFormed;
  }

  /** Then no client is closed normally while it owns the short stream. */
  lemma ClosedOwnsNothing(events: seq<Event>, i: nat)
    requires NoLoss(START, events) && Enabled(Run(START, events), Close(i))
    requires forall k | 0 <= k < |events| && events[k].Process? :: events[k].body != []
    ensures Run(START, events).owner != i
  {
    hide Run, NoLoss;
    RunKeeps(START, events);
    OwnerHasBytes(START, events);
    assert Run(START, events).owner == i ==> ShortOf(Run(START, events), i) == [];
  }

  /** In every reachable state, a live client with nothing left to send passes the checks of a normal close exactly if
      no answer without bytes is still queued for it; the checks never meet a queue that still accounts for bytes. */
  lemma CloseGuards(events: seq<Event>, i: nat)
    requires NoLoss(START, events) && Live(Run(START, events), i) && PendingSize(Run(START, events), i) == 0
    ensures var s := Run(START, events); var frames := s.conns[i].frames;
      && Due(frames, s.conns[i].left) == 0
      && (Enabled(s, Close(i)) <==> forall k | 0 <= k < |frames| :: frames[k].header.streamSize > 0)
  {
    RunKeeps(START, events);
    var s := Run(START, events);
    assert ConnInv(s.conns[i], ShortOf(s, i));
    QueueEmptyAtEnd(s.conns[i].frames, s.conns[i].left);
  }

  /** A request is logged only after every byte of its answer is on the wire, and requests are logged in the order
      in which they were answered. */
  lemma LoggedMeansDelivered(c: Conn, short: seq<byte>)
    requires ConnInv(c, short)
    ensures c.log <= c.asked && |c.log| <= |c.bodies|
    ensures Flatten(c.bodies[..|c.log|]) <= c.wire
  {
    SizesMatch(c);
    DueBodies(c.frames, c.left, c.bodies[|c.log|..]);
    FlattenPrefix(c.bodies, |c.log|);
    var done := Flatten(c.bodies[..|c.log|]);
    assert done <= c.wire + (short + c.stream) by { assert c.wire + (short + c.stream) == c.wire + short + c.stream; }
  }

  lemma {:induction false} FlattenPrefix(bodies: seq<seq<byte>>, k: nat)
    requires k <= |bodies|
    ensures Flatten(bodies[..k]) <= Flatten(bodies)
    ensures |Flatten(bodies)| == |Flatten(bodies[..k])| + TotalSize(bodies[k..])
    decreases |bodies|
  {
    if k < |bodies| {
      var front := bodies[..|bodies| - 1];
      FlattenPrefix(front, k);
      assert front[..k] == bodies[..k];
      assert bodies[k..] == front[k..] + [bodies[|bodies| - 1]];
      TotalAppend(front[k..], bodies[|bodies| - 1]);
    } else {
      assert bodies[..k] == bodies && bodies[k..] == [];
    }
  }

  function TotalSize(bodies: seq<seq<byte>>): nat {
    if bodies == [] then 0 else |bodies[0]| + TotalSize(bodies[1..])
  }

  lemma {:induction false} TotalAppend(bodies: seq<seq<byte>>, body: seq<byte>)
    ensures TotalSize(bodies + [body]) == TotalSize(bodies) + |body|
  {
    if bodies == [] {
      assert [body][1..] == [];
    } else {
      assert (bodies + [body])[1..] == bodies[1..] + [body];
      TotalAppend(bodies[1..], body);
    }
  }

  lemma SizesMatch(c: Conn)
    requires QueueMatches(c)
    ensures |c.bodies| == |c.log| + |c.frames| && c.left <= FrontSize(c.frames)
    ensures forall k | 0 <= k < |c.frames| :: c.frames[k].header.streamSize == |c.bodies[|c.log| + k]|
  {
    hide Frame.WellFormed;
  }

  /** The unsent bytes never exceed the sizes of the answers that are still queued. */
  lemma {:induction false} DueBodies(frames: seq<Frame>, left: nat, bodies: seq<seq<byte>>)
    requires |frames| == |bodies| && left <= FrontSize(frames)
    requires forall k | 0 <= k < |frames| :: frames[k].header.streamSize == |bodies[k]|
    ensures Due(frames, left) <= TotalSize(bodies)
    decreases |frames|
  {
    if frames != [] { DueBodies(frames[1..], FrontSize(frames[1..]), bodies[1..]); }
  }

  // ---- The exceptions ----

  /** Compaction misplaces bytes at once exactly if the owner is lost and another client moves to its index. */
  lemma CompactMisplaces(s: State)
    requires Inv(s)
    ensures Conserved(Apply(s, Compact)) <==> !OwnerLost(s) || s.owner >= |LiveOnly(s.conns)|
  {
    var t := Apply(s, Compact);
    if !OwnerLost(s) {
      CompactKeeps(s);
      InvConserves(t);
    } else {
      forall k | 0 <= k < |t.conns|
        ensures t.conns[k].live && ConnInv(t.conns[k], [])
      {
        var j := LiveOnlySource(s.conns, k);
        assert ConnInv(s.conns[j], ShortOf(s, j));
      }
      if s.owner < |t.conns| { TwoShorts(t.conns[s.owner], [], s.short); }
    }
  }

  /** After an error close and the next compaction, everybody still gets the right bytes exactly if the close did not
      clear the short stream of another client, and the client did not own the short stream, or owned no bytes of it, or
      they were cleared with it, or no client has taken its index yet. */
  lemma AbortThenCompact(s: State, i: nat)
    requires Inv(s) && Live(s, i) && !OwnerLost(s)
    ensures var t := Apply(Apply(s, Abort(i)), Compact);
      Conserved(t) <==> !ClearsOther(s, i) && (s.owner != i || s.short == [] || s.message == i || i >= |t.conns|)
  {
    FinalizeKeeps(s, i);
    var a := Apply(s, Abort(i));
    if ClearsOther(s, i) {
      assert ConnInv(s.conns[s.owner], ShortOf(s, s.owner));
      LiveOnlyAt(a.conns, s.owner);
      TwoShorts(s.conns[s.owner], s.short, []);
    } else {
      CompactMisplaces(a);
    }
  }

  function Accepts(n: nat): (events: seq<Event>)
    ensures |events| == n
  {
    seq(n, _ => Accept)
  }

  lemma {:induction false} RunAccepts(s: State, n: nat)
    requires !s.panic
    ensures NoLoss(s, Accepts(n))
    ensures var t := Run(s, Accepts(n));
      && t == s.(conns := t.conns) && |t.conns| == |s.conns| + n
      && forall k | |s.conns| <= k < |t.conns| :: t.conns[k] == NEW_CONN
    decreases n
  {
    if n > 0 {
      var a := Apply(s, Accept);
      assert Accepts(n)[1..] == Accepts(n - 1);
      RunAccepts(a, n - 1);
      AcceptsKeepOld(a, n - 1);
    }
  }

  lemma {:induction false} AcceptsKeepOld(s: State, n: nat)
    requires !s.panic
    ensures var t := Run(s, Accepts(n)); |t.conns| == |s.conns| + n && t.conns[..|s.conns|] == s.conns
    decreases n
  {
    if n > 0 {
      var a := Apply(s, Accept);
      assert Accepts(n)[1..] == Accepts(n - 1);
      AcceptsKeepOld(a, n - 1);
      assert a.conns[..|s.conns|] == s.conns;
    }
  }

  /** Once the table is compacted with the owner lost, some client gets the bytes, at the latest a new one. */
  lemma LostBytesSurface(s: State) returns (events: seq<Event>)
    requires Inv(s) && OwnerLost(s)
    ensures NoLoss(Apply(s, Compact), events) && !Conserved(Run(Apply(s, Compact), events))
  {
    var t := Apply(s, Compact);
    if s.owner < |t.conns| {
      CompactMisplaces(s);
      events := [];
    } else {
      var n := s.owner - |t.conns| + 1;
      events := Accepts(n);
      RunAccepts(t, n);
      var u := Run(t, events);
      assert u.conns[s.owner] == NEW_CONN && ShortOf(u, s.owner) == s.short;
      assert NEW_CONN.wire + s.short + NEW_CONN.stream == s.short != Flatten(NEW_CONN.bodies);
    }
  }

  /** Which events are safe: whatever happens after an event goes to the right clients, up to the next event that loses
      bytes, if and only if the event itself does not. */
  lemma LosesExactly(s: State, e: Event)
    requires Inv(s) && Enabled(s, e)
    ensures (forall events | NoLoss(Apply(s, e), events) :: Conserved(Run(Apply(s, e), events))) <==> !Loses(s, e)
  {
    hide Conserved, Inv, ClearsOther, OwnerLost;
    var t := Apply(s, e);
    if Loses(s, e) {
      var events := WhatShowsIt(s, e);
    } else {
      ApplyKeeps(s, e);
      forall events | NoLoss(t, events)
        ensures Conserved(Run(t, events))
      {
        RunKeeps(t, events);
        InvConserves(Run(t, events));
      }
    }
  }

  lemma WhatShowsIt(s: State, e: Event) returns (events: seq<Event>)
    requires Inv(s) && Enabled(s, e) && Loses(s, e)
    ensures NoLoss(Apply(s, e), events) && !Conserved(Run(Apply(s, e), events))
  {
    hide Conserved, Inv, ClearsOther, OwnerLost;
    events := [];
    match e {
      case Compact => events := LostBytesSurface(s);
      case Close(i) => FinalizeKeeps(s, i);
      case Abort(i) => FinalizeKeeps(s, i);
      case _ =>
    }
  }

  /** The known panic: the first client fails while it owns the short stream, the second one takes its place in the
      table and is sent its bytes; popping their response from the empty queue is fatal. */
  lemma AbortedOwnerPanics(frame: Frame, body: seq<byte>)
    requires frame.WellFormed() && frame.header.streamSize == |body| && body != []
    ensures var s := Run(START, [Accept, Accept, Process(0, frame, body), Abort(0), Compact, Send(0, |body|)]);
      && s.panic && |s.conns| == 1
      && s.conns[0].bodies == [] && s.conns[0].wire == body
  {
    hide Run, Apply, Enabled;
    var events := [Accept, Accept, Process(0, frame, body), Abort(0), Compact, Send(0, |body|)];
    var s1, s2 := State([NEW_CONN], -1, [], -1, false), State([NEW_CONN, NEW_CONN], -1, [], -1, false);
    var owner := Answer(NEW_CONN, frame, body, true);
    var s3 := State([owner, NEW_CONN], 0, body, -1, false);
    var s4 := State([Finalize(owner), NEW_CONN], 0, body, -1, false);
    var s5 := State([NEW_CONN], 0, body, -1, false);
    var s6 := State([NEW_CONN.(wire := body)], -1, [], -1, true);
    AcceptTwice();
    AnswerFirst(frame, body);
    AbortOwner(owner, body);
    CompactDangling(owner, body);
    SendToStranger(body);
    RunSteps([START, s1, s2, s3, s4, s5, s6], events);
  }

  lemma AcceptTwice()
    ensures Enabled(START, Accept) && Apply(START, Accept) == State([NEW_CONN], -1, [], -1, false)
    ensures var s := State([NEW_CONN], -1, [], -1, false);
      Enabled(s, Accept) && Apply(s, Accept) == State([NEW_CONN, NEW_CONN], -1, [], -1, false)
  {
  }

  lemma AnswerFirst(frame: Frame, body: seq<byte>)
    requires frame.WellFormed() && frame.header.streamSize == |body|
    ensures var s, e := State([NEW_CONN, NEW_CONN], -1, [], -1, false), Process(0, frame, body);
      Enabled(s, e) && Apply(s, e) == State([Answer(NEW_CONN, frame, body, true), NEW_CONN], 0, body, -1, false)
  {
    hide Frame.WellFormed, Answer;
  }

  lemma AbortOwner(owner: Conn, body: seq<byte>)
    requires owner.live
    ensures var s := State([owner, NEW_CONN], 0, body, -1, false);
      Enabled(s, Abort(0)) && Apply(s, Abort(0)) == State([Finalize(owner), NEW_CONN], 0, body, -1, false)
  {
    hide Finalize;
  }

  /** Compaction leaves the index of a dead owner alone, and so to the next client. */
  lemma CompactDangling(owner: Conn, body: seq<byte>)
    ensures var s := State([Finalize(owner), NEW_CONN], 0, body, -1, false);
      Enabled(s, Compact) && Apply(s, Compact) == State([NEW_CONN], 0, body, -1, false)
  {
    var conns := [Finalize(owner), NEW_CONN];
    assert conns[..1] == [Finalize(owner)] && [Finalize(owner)][..0] == [];
    assert LiveOnly([]) == [] && LiveOnly([Finalize(owner)]) == [];
  }

  /** A client without queued responses is sent somebody else's bytes. */
  lemma SendToStranger(body: seq<byte>)
    requires body != []
    ensures var s := State([NEW_CONN], 0, body, -1, false);
      Enabled(s, Send(0, |body|)) && Apply(s, Send(0, |body|)) == State([NEW_CONN.(wire := body)], -1, [], -1, true)
  {
    assert body[..|body|] == body && [] + body == body;
    assert Transmit(NEW_CONN, |body|, body, []) == NEW_CONN.(wire := body);
  }

  /** The other way to lose bytes: a Guppy client that fails while its message waits takes the short stream of somebody
      else with it. */
  lemma WaitingMessageClears(frame: Frame, body: seq<byte>)
    requires frame.WellFormed() && frame.header.streamSize == |body| && body != []
    ensures var s := Run(START, [Accept, Accept, Message(0), Process(1, frame, body), Abort(0)]);
      && !Conserved(s) && |s.conns| == 2 && s.conns[1].live
      && s.conns[1].bodies == [body] && s.conns[1].wire == [] && s.short == [] && s.conns[1].stream == []
  {
    hide Run, Apply, Enabled, Answer;
    var events := [Accept, Accept, Message(0), Process(1, frame, body), Abort(0)];
    var s1, s2 := State([NEW_CONN], -1, [], -1, false), State([NEW_CONN, NEW_CONN], -1, [], -1, false);
    var s3 := State([NEW_CONN, NEW_CONN], -1, [], 0, false);
    var a := Answer(NEW_CONN, frame, body, true);
    var s4 := State([NEW_CONN, a], 1, body, 0, false);
    var s5 := State([Finalize(NEW_CONN), a], -1, [], 0, false);
    AcceptTwice();
    MessageArrives(s2, 0);
    AnswerSecond(frame, body);
    OneAnswer(frame, body);
    FinalizeFirst(a, body);
    RunSteps([START, s1, s2, s3, s4, s5], events);
    BytesGone(s5, frame, body);
  }

  /** After that the index stays, and compaction lets a connection take it: when that is closed normally, the short
      stream of another one is cleared. */
  lemma NormalCloseClears(frame: Frame, body: seq<byte>)
    requires frame.WellFormed() && frame.header.streamSize == |body| && body != []
    ensures var before := [Accept, Accept, Accept, Message(0), Abort(0), Compact, Process(1, frame, body)];
      && NoLoss(START, before) && Enabled(Run(START, before), Close(0))
      && !Conserved(Apply(Run(START, before), Close(0)))
  {
    hide Run, Apply, Enabled, Answer, ClearsOther, OwnerLost;
    var before := [Accept, Accept, Accept, Message(0), Abort(0), Compact, Process(1, frame, body)];
    var s1, s2 := State([NEW_CONN], -1, [], -1, false), State([NEW_CONN, NEW_CONN], -1, [], -1, false);
    var s3 := State([NEW_CONN, NEW_CONN, NEW_CONN], -1, [], -1, false);
    var s4 := s3.(message := 0);
    var s5 := State([Finalize(NEW_CONN), NEW_CONN, NEW_CONN], -1, [], 0, false);
    var s6 := State([NEW_CONN, NEW_CONN], -1, [], 0, false);
    var a := Answer(NEW_CONN, frame, body, true);
    var s7 := State([NEW_CONN, a], 1, body, 0, false);
    AcceptTwice();
    AcceptThird();
    MessageArrives(s3, 0);
    FirstOfThree();
    CompactThree();
    AnswerSecond(frame, body);
    RunSteps([START, s1, s2, s3, s4, s5, s6, s7], before);
    SafeSteps([START, s1, s2, s3, s4, s5, s6, s7], before);
    OneAnswer(frame, body);
    FinalizeFirst(a, body);
    BytesGone(Apply(s7, Close(0)), frame, body);
  }

  /** A run spelled out state by state. */
  lemma {:induction false} RunSteps(states: seq<State>, events: seq<Event>)
    requires |states| == |events| + 1
    requires forall k | 0 <= k < |events| ::
      Enabled(states[k], events[k]) && Apply(states[k], events[k]) == states[k + 1]
    ensures Run(states[0], events) == states[|events|]
    decreases |events|
  {
    if events != [] { RunSteps(states[1..], events[1..]); }
  }

  lemma MessageArrives(s: State, i: nat)
    requires !s.panic && s.message == -1 && i < |s.conns|
    ensures Enabled(s, Message(i)) && Apply(s, Message(i)) == s.(message := i)
  {
  }

  lemma AnswerSecond(frame: Frame, body: seq<byte>)
    requires frame.WellFormed() && frame.header.streamSize == |body|
    ensures var s, e := State([NEW_CONN, NEW_CONN], -1, [], 0, false), Process(1, frame, body);
      && Enabled(s, e) && !Loses(s, e)
      && Apply(s, e) == State([NEW_CONN, Answer(NEW_CONN, frame, body, true)], 1, body, 0, false)
  {
    hide Frame.WellFormed, Answer;
  }

  /** The first client has nothing pending, and the message of its index clears the short stream of the second one. */
  lemma FinalizeFirst(a: Conn, body: seq<byte>)
    ensures var s, t := State([NEW_CONN, a], 1, body, 0, false), State([Finalize(NEW_CONN), a], -1, [], 0, false);
      && Enabled(s, Abort(0)) && Apply(s, Abort(0)) == t
      && Enabled(s, Close(0)) && Apply(s, Close(0)) == t
  {
  }

  lemma OneAnswer(frame: Frame, body: seq<byte>)
    ensures var a := Answer(NEW_CONN, frame, body, true);
      a.live && a.bodies == [body] && a.wire == [] && a.stream == [] && Flatten(a.bodies) == body
  {
    assert [body][..0] == [];
  }

  lemma BytesGone(s: State, frame: Frame, body: seq<byte>)
    requires body != [] && |s.conns| == 2 && s.conns[1] == Answer(NEW_CONN, frame, body, true) && s.owner == -1
    ensures !Conserved(s)
  {
    hide Answer;
    OneAnswer(frame, body);
    assert s.conns[1].wire + ShortOf(s, 1) + s.conns[1].stream == [];
  }

  lemma AcceptThird()
    ensures var s := State([NEW_CONN, NEW_CONN], -1, [], -1, false);
      Enabled(s, Accept) && Apply(s, Accept) == State([NEW_CONN, NEW_CONN, NEW_CONN], -1, [], -1, false)
  {
  }

  lemma FirstOfThree()
    ensures var s := State([NEW_CONN, NEW_CONN, NEW_CONN], -1, [], 0, false);
      && Enabled(s, Abort(0)) && !Loses(s, Abort(0))
      && Apply(s, Abort(0)) == State([Finalize(NEW_CONN), NEW_CONN, NEW_CONN], -1, [], 0, false)
  {
  }

  lemma CompactThree()
    ensures var s := State([Finalize(NEW_CONN), NEW_CONN, NEW_CONN], -1, [], 0, false);
      && Enabled(s, Compact) && !Loses(s, Compact)
      && Apply(s, Compact) == State([NEW_CONN, NEW_CONN], -1, [], 0, false)
  {
    var f := Finalize(NEW_CONN);
    assert [f, NEW_CONN, NEW_CONN][..2] == [f, NEW_CONN] && [f, NEW_CONN][..1] == [f] && [f][..0] == [];
    assert LiveOnly([]) == [] && LiveOnly([f]) == [] && LiveOnly([f, NEW_CONN]) == [NEW_CONN];
  }

  lemma {:induction false} SafeSteps(states: seq<State>, events: seq<Event>)
    requires |states| == |events| + 1
    requires forall k | 0 <= k < |events| ::
      Enabled(states[k], events[k]) && Apply(states[k], events[k]) == states[k + 1]
    requires forall k | 0 <= k < |events| :: !Loses(states[k], events[k])
    ensures NoLoss(states[0], events)
    decreases |events|
  {
    if events != [] { SafeSteps(states[1..], events[1..]); }
  }
}
