/** All clients, the global short stream and the generator's scratch buffers (process.c, send.c): the implementation of
    the state machine in Pipeline.dfy. */
module ServerModel {
  import opened Bytes
  import opened Values
  import opened Rings
  import opened LowLevel
  import opened Frames
  import opened Pipeline
  import opened Histories
  import opened Clients
  import opened ClientTable

  class Server {
    var clients: seq<Client>
    var owner: int
    /** The client for whom a short request message waits. */
    var message: int
    /** The generator's scratch buffers, and the short stream that points into them. */
    var one: seq<byte>
    var two: seq<byte>
    var short: Spans

    ghost var Repr: set<object>

    ghost predicate Owns(c: Client)
      reads this, Repr
    {
      && c in Repr && c.requestStream in Repr && c.stream in Repr && c.queue in Repr
      && c.Repr() <= Repr
    }

    ghost predicate Valid()
      reads this, Repr
    {
      && this !in Repr
      && InBuffers(one, two, short)
      && -1 <= owner
      && (owner == -1 ==> short.Size() == 0)
      && (forall i | 0 <= i < |clients| :: Owns(clients[i]) && clients[i].Valid())
      && (forall i, j | 0 <= i < j < |clients| :: clients[i].Repr() !! clients[j].Repr())
    }

    ghost function ShortBytes(): seq<byte>
      reads this
      requires InBuffers(one, two, short)
    {
      Pending(one, two, short)
    }

    /** g_short_response_stream as a value. */
    function ShortValue(): (v: Value)
      reads this
      requires InBuffers(one, two, short)
      ensures v.Bytes() == ShortBytes()
    {
      Value(one[short.span0.offset..short.span0.offset + short.span0.size],
            two[short.span1.offset..short.span1.offset + short.span1.size])
    }

    ghost function Views(): (v: seq<Conn>)
      reads this, Repr
      requires Valid()
      ensures |v| == |clients|
    {
      seq(|clients|, i requires 0 <= i < |clients| && Valid() reads this, Repr => clients[i].View())
    }

    /** The state of the specification. */
    ghost function View(): State
      reads this, Repr
      requires Valid()
    {
      State(Views(), owner, ShortBytes(), message, false)
    }

    constructor ()
      ensures Valid() && View() == START
    {
      clients, owner, message, one, two, short := [], -1, -1, [], [], NO_SPANS;
      Repr := {};
    }

    /** Everything that `Valid` says about the clients, after client k may have got new buffers. */
    twostate lemma ClientsKept(k: nat)
      requires k < |clients| && clients == old(clients) && old(Valid())
      requires Repr == old(Repr) + clients[k].Repr() && this !in Repr
      requires clients[k].Valid() && fresh(clients[k].Repr() - old(clients[k].Repr()))
      requires forall o | o in old(Repr) && o !in old(clients[k].Repr()) :: unchanged(o)
      ensures forall i | 0 <= i < |clients| :: Owns(clients[i]) && clients[i].Valid()
      ensures forall i, j | 0 <= i < j < |clients| :: clients[i].Repr() !! clients[j].Repr()
      ensures forall i | 0 <= i < |clients| && i != k :: clients[i].View() == old(clients[i].View())
    {
      forall i | 0 <= i < |clients|
        ensures Owns(clients[i]) && clients[i].Valid()
        ensures i != k ==> clients[i].View() == old(clients[i].View()) && clients[i].Repr() == old(clients[i].Repr())
      {
        if i != k {
          assert old(Owns(clients[i]));
          assert old(clients[i].Repr()) !! old(clients[k].Repr());
          assert unchanged(clients[i]) && unchanged(clients[i].stream) && unchanged(clients[i].queue)
            && unchanged(clients[i].requestStream);
        }
      }
    }

    /** After only client k's objects changed, the server is valid again and the other clients' states are the same. */
    twostate lemma ClientReplaced(k: nat)
      requires k < |clients| && clients == old(clients) && old(Valid())
      requires Repr == old(Repr) + clients[k].Repr() && this !in Repr
      requires clients[k].Valid() && fresh(clients[k].Repr() - old(clients[k].Repr()))
      requires forall o | o in old(Repr) && o !in old(clients[k].Repr()) :: unchanged(o)
      requires InBuffers(one, two, short) && -1 <= owner && (owner == -1 ==> short.Size() == 0)
      ensures Valid() && Views() == old(Views())[k := clients[k].View()]
    {
      ClientsKept(k);
    }

    /** A new client at the end of the table leaves the others as they were. */
    twostate lemma ClientAdded(new c: Client)
      requires clients == old(clients) + [c] && Repr == old(Repr) + c.Repr() && old(Valid()) && this !in Repr
      requires c.Valid() && fresh(c.Repr()) && forall o | o in old(Repr) :: unchanged(o)
      requires InBuffers(one, two, short) && -1 <= owner && (owner == -1 ==> short.Size() == 0)
      ensures Valid() && Views() == old(Views()) + [c.View()]
    {
      hide InBuffers, Client.View, EncodeFrames, Unroll;
      forall i | 0 <= i < |clients|
        ensures Owns(clients[i]) && clients[i].Valid()
        ensures i < |old(clients)| ==>
          clients[i].Repr() == old(clients[i].Repr()) && clients[i].View() == old(clients[i].View())
      {
        if i < |old(clients)| { assert old(Owns(clients[i])); }
      }
    }

    /** The clients are as before when nothing they consist of has changed. */
    twostate lemma SameClients()
      requires clients == old(clients) && Repr == old(Repr) && old(Valid()) && this !in Repr
      requires forall o | o in old(Repr) :: unchanged(o)
      requires InBuffers(one, two, short) && -1 <= owner && (owner == -1 ==> short.Size() == 0)
      ensures Valid() && Views() == old(Views())
    {
      forall i | 0 <= i < |clients|
        ensures Owns(clients[i]) && clients[i].Valid() && clients[i].Repr() == old(clients[i].Repr())
        ensures clients[i].View() == old(clients[i].View())
      {
        assert old(Owns(clients[i]));
      }
    }

    lemma ViewAt(k: nat)
      requires Valid() && k < |clients|
      ensures Views()[k] == clients[k].View() && clients[k].Valid()
    {
    }

    /** Response streams are not request streams. */
    lemma RequestsApart(k: nat)
      requires Valid() && k < |clients|
      ensures forall j | 0 <= j < |clients| ::
        && clients[j].requestStream != clients[k].stream
        && clients[j].requestStream.p != clients[k].stream.p
    {
      forall j | 0 <= j < |clients|
        ensures clients[j].requestStream != clients[k].stream && clients[j].requestStream.p != clients[k].stream.p
      {
        assert clients[j].Valid();
        if j != k { assert clients[j].Repr() !! clients[k].Repr(); }
      }
    }

    /** No request but that of client i has changed. */
    twostate predicate RequestsKept(i: nat)
      requires clients == old(clients)
      reads this, clients, set j | 0 <= j < |clients| :: clients[j].requestStream,
        set j | 0 <= j < |clients| :: clients[j].requestStream.p
    {
      forall j | 0 <= j < |clients| && j != i ::
        && unchanged(clients[j].requestStream) && unchanged(clients[j].requestStream.p)
        && clients[j].request == old(clients[j].request)
    }

    /** The request of client i has not changed. */
    twostate predicate RequestKept(i: nat)
      requires i < |clients| && clients == old(clients)
      reads this, clients, clients[i].requestStream, clients[i].requestStream.p
    {
      && unchanged(clients[i].requestStream) && unchanged(clients[i].requestStream.p)
      && clients[i].request == old(clients[i].request)
    }

    twostate lemma OthersRequests(i: nat)
      requires i < |clients| && clients == old(clients) && old(Valid())
      requires forall o | o in old(Repr) && o !in old(clients[i].Repr()) :: unchanged(o)
      ensures RequestsKept(i)
    {
      forall j | 0 <= j < |clients| && j != i
        ensures unchanged(clients[j].requestStream) && unchanged(clients[j].requestStream.p)
        ensures clients[j].request == old(clients[j].request)
      {
        assert old(Owns(clients[j]));
        assert old(clients[j].Repr()) !! old(clients[i].Repr());
      }
    }

    /** First half of server_process_traffic: the short stream goes to its owner before anything overwrites the
        scratch buffers it points into. */
    method FlushShort()
      requires Valid()
      modifies this`owner, this`short, this`Repr
      modifies if 0 <= owner < |clients| then {clients[owner].stream, clients[owner].stream.p} else {}
      ensures Valid() && owner == -1 && fresh(Repr - old(Repr))
      ensures View() == FlushOwner(old(View()))
      ensures forall j | 0 <= j < |clients| ::
        && unchanged(clients[j].requestStream) && unchanged(clients[j].requestStream.p)
        && clients[j].request == old(clients[j].request)
    {
      hide Unroll, Pending, EncodeFrames, Client.View, Client.Valid;
      if owner == -1 { return; }
      if owner >= |clients| {
        short := NO_SPANS;
        owner := -1;
        return;
      }
      var c := clients[owner];
      ghost var k := owner;
      RequestsApart(k);
      c.AppendToStream(ShortValue());
      Repr := Repr + c.Repr();
      short := NO_SPANS;
      owner := -1;
      ClientReplaced(k);
    }

    /** The generator fills the scratch buffers; nobody's short stream points into them. */
    method Generate(pageOne: seq<byte>, pageTwo: seq<byte>, ghost c: Client)
      requires Valid() && owner == -1 && c in clients
      modifies this`short, this`one, this`two
      ensures c.request == old(c.request) && c.Repr() == old(c.Repr()) && c.dead == old(c.dead)
      ensures c.Valid() && c.requestStream.size == old(c.requestStream.size)
        && c.requestStream.Content() == old(c.requestStream.Content())
      ensures Valid() && Views() == old(Views()) && ShortBytes() == [] && one == pageOne && two == pageTwo
    {
      hide Unroll, EncodeFrames, Client.QueueValid, Client.View, Pending, InBuffers;
      WholePages(pageOne, pageTwo);
      short := NO_SPANS;
      one, two := pageOne, pageTwo;
      SameClients();
    }

    /** Client i gets the whole scratch buffers as its short stream. */
    method Own(i: nat)
      requires Valid() && i < |clients|
      modifies this`short, this`owner
      ensures Valid() && Views() == old(Views()) && ShortBytes() == one + two && owner == i
    {
      hide Unroll, EncodeFrames, Client.Valid, Client.View, Pending, InBuffers;
      WholePages(one, two);
      short := Spans(Span(0, |one|), Span(0, |two|));
      owner := i;
      SameClients();
    }

    /** processor_process and the placement of the answer that the scratch buffers hold, as far as client i goes. */
    method TakeAnswer(i: nat, keepAlive: bool) returns (direct: bool)
      requires Valid() && i < |clients| && !clients[i].dead
      requires RequestInside(clients[i].request, clients[i].requestStream.size)
      requires |one| + |two| < SIZE_MODULUS
      modifies this`Repr, clients[i].Repr()
      ensures Valid() && fresh(Repr - old(Repr))
      ensures direct <==> old(View()).conns[i].stream == []
      ensures var frame := AnswerFrame(|one| + |two|, keepAlive, old(clients[i].request),
        old(clients[i].requestStream.Content()));
        frame.WellFormed() && Views() == old(Views())[i := Answer(old(Views())[i], frame, one + two, direct)]
      ensures clients[i].requestStream.Content()
        == old(clients[i].requestStream.Content())[old(clients[i].request).streamSize..]
    {
      hide Unroll, EncodeFrames, Client.Valid, Client.View, Frame.WellFormed, AnswerFrame, Answer, Pending, InBuffers,
        RequestInside, Views;
      ViewAt(i);
      direct := clients[i].TakeAnswer(|one| + |two|, keepAlive, Value(one, two));
      Repr := Repr + clients[i].Repr();
      ClientReplaced(i);
    }

    /** The answer in the scratch buffers is queued, and its bytes become the short stream or follow the client's
        own. */
    method Deliver(i: nat, keepAlive: bool)
      requires Valid() && owner == -1 && i < |clients| && !clients[i].dead
      requires RequestInside(clients[i].request, clients[i].requestStream.size)
      requires |one| + |two| < SIZE_MODULUS
      modifies this`owner, this`short, this`Repr, clients[i].Repr()
      ensures Valid() && fresh(Repr - old(Repr))
      ensures var frame := AnswerFrame(|one| + |two|, keepAlive, old(clients[i].request),
        old(clients[i].requestStream.Content()));
        frame.WellFormed() && View() == Place(old(View()), i, frame, one + two)
      ensures clients[i].requestStream.Content()
        == old(clients[i].requestStream.Content())[old(clients[i].request).streamSize..]
    {
      hide Unroll, EncodeFrames, Client.Valid, Client.View, Frame.WellFormed, AnswerFrame, Answer, Pending, InBuffers,
        RequestInside, Views;
      var direct := TakeAnswer(i, keepAlive);
      if direct { Own(i); }
    }

    /** The end of server_process_traffic. */
    method Forget(i: nat)
      requires Valid() && i < |clients|
      modifies {clients[i]}`request
      ensures Valid() && View() == old(View())
      ensures clients[i].request == if clients[i].response.keepAlive then NO_REQUEST else old(clients[i].request)
    {
      hide Unroll, EncodeFrames, Client.Valid, Client.View, Pending, InBuffers;
      clients[i].Forget();
      ClientReplaced(i);
      assert Views() == old(Views());
    }

    /** Second half of server_process_traffic: the generator fills the scratch buffers, the answer is queued, and its
        bytes become the short stream or follow the client's own. */
    method PlaceAnswer(i: nat, pageOne: seq<byte>, pageTwo: seq<byte>, keepAlive: bool)
      requires Valid() && owner == -1 && i < |clients| && !clients[i].dead
      requires RequestInside(clients[i].request, clients[i].requestStream.size)
      requires |pageOne| + |pageTwo| < SIZE_MODULUS
      modifies this`owner, this`short, this`one, this`two, this`Repr, clients[i].Repr()
      ensures Valid() && clients == old(clients) && fresh(Repr - old(Repr))
      ensures var frame := AnswerFrame(|pageOne| + |pageTwo|, keepAlive, old(clients[i].request),
        old(clients[i].requestStream.Content()));
        frame.WellFormed() && View() == Place(old(View()), i, frame, pageOne + pageTwo)
      ensures clients[i].requestStream.Content()
        == old(clients[i].requestStream.Content())[old(clients[i].request).streamSize..]
      ensures clients[i].response.keepAlive ==> clients[i].request == NO_REQUEST
    {
      hide Unroll, EncodeFrames, Client.Valid, Client.View, Frame.WellFormed, AnswerFrame, Answer, Pending, InBuffers,
        RequestInside, Views, Place;
      ghost var before := View();
      Generate(pageOne, pageTwo, clients[i]);
      assert View() == before;
      Deliver(i, keepAlive);
      Forget(i);
    }

    /** server_process_traffic from the point where the request is complete. */
    method ProcessTraffic(i: nat, pageOne: seq<byte>, pageTwo: seq<byte>, keepAlive: bool)
      requires Valid() && i < |clients| && !clients[i].dead
      requires RequestInside(clients[i].request, clients[i].requestStream.size)
      requires |pageOne| + |pageTwo| < SIZE_MODULUS
      modifies this`owner, this`short, this`one, this`two, this`Repr, Repr
      ensures Valid() && clients == old(clients) && fresh(Repr - old(Repr))
      ensures var frame := AnswerFrame(|pageOne| + |pageTwo|, keepAlive, old(clients[i].request),
        old(clients[i].requestStream.Content()));
        Enabled(old(View()), Process(i, frame, pageOne + pageTwo))
          && View() == Apply(old(View()), Process(i, frame, pageOne + pageTwo))
      ensures clients[i].requestStream.Content()
        == old(clients[i].requestStream.Content())[old(clients[i].request).streamSize..]
      ensures clients[i].response.keepAlive ==> clients[i].request == NO_REQUEST
      ensures RequestsKept(i)
      ensures Answered(old(View()), i, pageOne + pageTwo,
                       TextOf(old(clients[i].requestStream.Content()), old(clients[i].request).method_),
                       TextOf(old(clients[i].requestStream.Content()), old(clients[i].request).resource), View())
    {
      hide Unroll, EncodeFrames, Frame.WellFormed, FlushOwner, Place, Client.Valid, Answered, TextOf;
      StreamApart(clients[i]);
      ghost var before, request, stream := View(), clients[i].request, clients[i].requestStream.Content();
      FlushShort();
      label Flushed:
      PlaceAnswer(i, pageOne, pageTwo, keepAlive);
      OthersRequests@Flushed(i);
      AnswerMeans(before, i, request, stream, keepAlive, pageOne + pageTwo);
    }

    /** server_send_short_response_stream for a connection. After a socket error nothing is accounted for; what is left
        of the short stream is a suffix of what was there. */
    method SendShort(i: nat, outcome0: SendOutcome, outcome1: SendOutcome)
      returns (r: SendResult, saturated: bool, ghost n: nat)
      requires Valid() && i < |clients| && !clients[i].dead && owner == i
      modifies this`owner, this`short, clients[i].Repr()
      ensures n == TakenInOrder(old(short), outcome0, outcome1) <= |old(ShortBytes())|
      ensures r == SocketFailed <==> SendFails(old(short), outcome0, outcome1)
      ensures r == SocketFailed ==> Valid() && View() == CutShort(old(View()), n)
      ensures r == Panicked ==> Apply(old(View()), Send(i, n)).panic
      ensures r == Done ==> Valid() && View() == Apply(old(View()), Send(i, n))
      ensures r == Done ==> saturated == (owner == i) == (n < |old(ShortBytes())|)
      ensures r == Done && owner == i ==> ShortBytes() != []
      ensures clients[i].Repr() == old(clients[i].Repr()) && RequestKept(i)
      ensures r == Done ==> clients[i].stream == old(clients[i].stream) && unchanged(clients[i].stream)
    {
      hide Unroll, EncodeFrames, Client.Valid, Pending, Drain, TakenInOrder, SendFails;
      var c := clients[i];
      ghost var content := ShortBytes();
      StreamApart(c);
      var result, sent;
      result, short, saturated, sent := SendStream(one, two, short, outcome0, outcome1);
      n := |sent|;
      assert content == sent + ShortBytes();
      if result == Err {
        ClientReplaced(i);
        return SocketFailed, saturated, n;
      }
      if short.Size() == 0 { owner := -1; }
      result := c.Account(sent);
      if result == Err { return Panicked, saturated, n; }
      r := Done;
      ClientReplaced(i);
    }

    /** server_send_long_output_buffer for a connection. After a socket error nothing has changed. */
    method SendLong(i: nat, outcome0: SendOutcome, outcome1: SendOutcome) returns (r: SendResult, ghost n: nat)
      requires Valid() && i < |clients| && !clients[i].dead && owner != i
      modifies clients[i].Repr()
      ensures n == TakenInOrder(old(clients[i].stream.Parts()), outcome0, outcome1)
      ensures n <= |old(clients[i].stream.Content())|
      ensures r == SocketFailed <==> SendFails(old(clients[i].stream.Parts()), outcome0, outcome1)
      ensures r == SocketFailed ==> Valid() && View() == old(View())
      ensures r == Panicked ==> Apply(old(View()), Send(i, n)).panic
      ensures r == Done ==> Valid() && View() == Apply(old(View()), Send(i, n))
      ensures clients[i].Repr() == old(clients[i].Repr()) && RequestKept(i)
    {
      hide Unroll, EncodeFrames, Client.Valid, Pending, Drain, TakenInOrder, SendFails;
      ghost var before := Views();
      StreamApart(clients[i]);
      var saturated;
      r, saturated, n := clients[i].SendLong(outcome0, outcome1);
      if r != Panicked { ClientReplaced(i); }
      assert before[i := before[i]] == before;
    }

    /** server_send_traffic, for the short stream, which may belong to somebody else. */
    method SendFirst(i: nat, short0: SendOutcome, short1: SendOutcome)
      returns (r: SendResult, saturated: bool, ghost n: nat)
      requires Valid() && i < |clients| && !clients[i].dead && Inv(View())
      modifies this`owner, this`short, clients[i].Repr()
      ensures Valid() && r != Panicked
      ensures n == (if old(owner) == i then TakenInOrder(old(short), short0, short1) else 0)
      ensures n <= |ShortOf(old(View()), i)|
      ensures r == SocketFailed <==> old(owner) == i && SendFails(old(short), short0, short1)
      ensures r == SocketFailed ==> View() == CutShort(old(View()), n) && n < old(short.Size())
      ensures r == Done ==>
        && Enabled(old(View()), Send(i, n)) && View() == Apply(old(View()), Send(i, n))
        && Inv(View()) && !clients[i].dead
        && saturated == (owner == i) == (old(owner) == i && n < old(short.Size()))
        && (saturated ==> ShortBytes() != [])
        && clients[i].stream == old(clients[i].stream) && unchanged(clients[i].stream)
      ensures clients[i].Repr() == old(clients[i].Repr()) && RequestKept(i)
    {
      hide Unroll, EncodeFrames, Client.Valid, Pending, Drain, Inv, Apply, Enabled, TakenInOrder, SendFails;
      ghost var before := View();
      r, saturated, n := Done, false, 0;
      Unsent(short, short0, short1);
      ShortBounds(before, i);
      SendNothing(before, i);
      if owner == i {
        r, saturated, n := SendShort(i, short0, short1);
        SendIsSafe(before, i, n);
      }
    }

    /** server_send_traffic, for the client's own stream. */
    method SendRest(i: nat, saturated: bool, long0: SendOutcome, long1: SendOutcome)
      returns (r: SendResult, ghost m: nat)
      requires Valid() && i < |clients| && !clients[i].dead && Inv(View())
      requires saturated <==> owner == i
      requires saturated ==> ShortBytes() != []
      modifies clients[i].Repr()
      ensures Valid() && r != Panicked
      ensures m == if saturated then 0 else TakenInOrder(old(clients[i].stream.Parts()), long0, long1)
      ensures r == SocketFailed <==> !saturated && SendFails(old(clients[i].stream.Parts()), long0, long1)
      ensures r == SocketFailed ==> View() == old(View())
      ensures r == Done ==>
        Enabled(old(View()), Send(i, m)) && View() == Apply(old(View()), Send(i, m)) && Inv(View())
      ensures clients[i].Repr() == old(clients[i].Repr()) && RequestKept(i)
    {
      hide Unroll, EncodeFrames, Client.Valid, Pending, Drain, Inv, Apply, Enabled, TakenInOrder, SendFails;
      ghost var before := View();
      r, m := Done, 0;
      StreamApart(clients[i]);
      Unsent(clients[i].stream.Parts(), long0, long1);
      SendNothing(before, i);
      if !saturated && clients[i].stream.size > 0 {
        r, m := SendLong(i, long0, long1);
        SendIsSafe(before, i, m);
      }
    }

    /** server_send_traffic for a connection: the short stream first, then, if nothing of it is left, the client's own.
        In a state that satisfies the invariant, accounting for the sent bytes cannot fail. */
    method SendTraffic(i: nat, short0: SendOutcome, short1: SendOutcome, long0: SendOutcome, long1: SendOutcome)
      returns (r: SendResult, ghost n: nat, ghost m: nat)
      requires Valid() && i < |clients| && !clients[i].dead && Inv(View())
      modifies this`owner, this`short, clients[i].Repr()
      ensures Valid() && r != Panicked && n <= |ShortOf(old(View()), i)|
      ensures Amounts(old(owner) == i, old(short), old(clients[i].stream.Parts()), short0, short1, long0, long1, n, m,
                      r == SocketFailed)
      ensures r == SocketFailed ==> FailedSend(old(View()), i, n, View())
      ensures r == Done ==> SentTwice(old(View()), i, n, m, View()) && Inv(View())
      ensures r == Done ==> SentOn(old(View()), i, n + m, View())
      ensures var first :=
          FirstReached(old(owner) == i, old(short), old(clients[i].stream.Parts()), short0, short1, long0, long1);
        old(PendingSize(View(), i)) > 0 && first.Accepted? ==> n + m > 0
      ensures (forall o <- [short0, short1, long0, long1] :: o.Accepted? && o.n >= old(PendingSize(View(), i))) ==>
        r == Done && PendingSize(View(), i) == 0
      ensures clients[i].Repr() == old(clients[i].Repr()) && RequestKept(i)
    {
      hide Unroll, EncodeFrames, Client.Valid, Client.View, Pending, Drain, Inv, Apply, Enabled, TakenInOrder,
        SendFails, ShortOf, Amounts, FailedSend, SentTwice, SentOn, PendingSize, FirstReached;
      StreamApart(clients[i]);
      ghost var before, at, parts := View(), short, clients[i].stream.Parts();
      assert |before.short| == at.Size() && |before.conns[i].stream| == parts.Size();
      m := 0;
      var saturated;
      r, saturated, n := SendFirst(i, short0, short1);
      ghost var between, first := View(), r;
      if r == Done { r, m := SendRest(i, saturated, long0, long1); }
      TrafficDone(before, i, at, parts, short0, short1, long0, long1, n, m, first, r, between, View());
      AmountsMatter(before, i, at, parts, short0, short1, long0, long1, n, m, r == SocketFailed);
    }

    /** Sending from server_process_client_round, and what server_process_client does when that fails: a plaintext
        client is finalized, whatever it still owns. */
    method SendOrClose(i: nat, short0: SendOutcome, short1: SendOutcome, long0: SendOutcome, long1: SendOutcome)
      returns (closed: bool, ghost sent: State, ghost n: nat, ghost m: nat)
      requires Valid() && i < |clients| && !clients[i].dead && Inv(View())
      modifies this`owner, this`short, this`Repr, clients[i].Repr()
      ensures Valid() && fresh(Repr - old(Repr)) && n <= |ShortOf(old(View()), i)|
      ensures !closed || !ClearsOther(sent, i) ==> Inv(View())
      ensures Amounts(old(owner) == i, old(short), old(clients[i].stream.Parts()), short0, short1, long0, long1, n, m,
                      closed)
      ensures !closed ==> SentOn(old(View()), i, n + m, View())
      ensures (forall o <- [short0, short1, long0, long1] :: o.Accepted? && o.n >= old(PendingSize(View(), i))) ==>
        !closed && PendingSize(View(), i) == 0
      ensures closed
        ==> FailedSend(old(View()), i, n, sent) && Enabled(sent, Abort(i)) && View() == Apply(sent, Abort(i))
      ensures !closed ==> SentTwice(old(View()), i, n, m, View())
    {
      hide Unroll, EncodeFrames, Client.Valid, Pending, Drain, Inv, ShortOf, FailedSend, SentTwice, Apply, Enabled,
        ClearsOther, Amounts, FirstReached, SentOn;
      ghost var before := View();
      StreamApart(clients[i]);
      var r;
      r, n, m := SendTraffic(i, short0, short1, long0, long1);
      sent := View();
      closed := r == SocketFailed;
      if closed {
        FailedSendKeeps(before, i, n, sent);
        FinalizeClient(i);
      }
    }

    /** The short stream is cleared, whoever owned it. */
    method ClearShort()
      requires Valid()
      modifies this`owner, this`short
      ensures Valid() && Views() == old(Views()) && ShortBytes() == [] && owner == -1
    {
      hide Unroll, EncodeFrames, Client.Valid, Client.View, Pending, InBuffers;
      WholePages(one, two);
      short := NO_SPANS;
      owner := -1;
      SameClients();
    }

    /** client_finalize for client i: an abort, or a normal close when its guards hold. A waiting request message takes
        the short stream with it; its index stays. */
    method FinalizeClient(i: nat)
      requires Valid() && i < |clients| && !clients[i].dead
      modifies this`owner, this`short, this`Repr, clients[i].Repr()
      ensures Valid() && fresh(Repr - old(Repr))
      ensures Enabled(old(View()), Abort(i)) && View() == Apply(old(View()), Abort(i))
      ensures Enabled(old(View()), Close(i)) ==> View() == Apply(old(View()), Close(i))
    {
      hide Unroll, EncodeFrames, Client.Valid, Pending, InBuffers;
      clients[i].Finalize();
      Repr := Repr + clients[i].Repr();
      ClientReplaced(i);
      if i == message { ClearShort(); }
    }

    /** server_accept_message: a message for a client in the table waits. */
    method AssignMessage(i: nat)
      requires Valid() && message == -1 && i < |clients|
      modifies this`message
      ensures Valid() && View() == Apply(old(View()), Message(i))
    {
      hide Unroll, EncodeFrames, Client.Valid, Client.View, Pending, InBuffers;
      message := i;
      SameClients();
    }

    /** server_receive_data_guppy, when it succeeds: the message is taken by the client it waits for. */
    method TakeMessage(i: nat)
      requires Valid() && i < |clients| && !clients[i].dead && message == i
      modifies this`message
      ensures Valid() && Enabled(old(View()), Received(i)) && View() == Apply(old(View()), Received(i))
    {
      hide Unroll, EncodeFrames, Client.Valid, Pending, InBuffers;
      message := -1;
      SameClients();
    }

    /** clients_remove_finalized, for the clients and the owner of the short stream: survivors move to the front. */
    method RemoveFinalized()
      requires Valid()
      modifies this`clients, this`owner
      ensures Valid() && View() == Apply(old(View()), Compact)
      ensures clients == old(Survivors(clients))
    {
      hide Unroll, EncodeFrames, Pending, InBuffers, Client.QueueValid, LiveOnly, Rank, Survivors, MovedOwner, Passing;
      ghost var cs, conns, shortOwner := clients, Views(), owner;
      var survivors, i := 0, 0;
      PassStarts(cs, conns, shortOwner);
      while i < |clients|
        invariant survivors <= i <= |clients| == |cs| == |conns|
        invariant Passing(cs, conns, shortOwner, clients, owner, i, survivors)
      {
        PassOne(cs, conns, shortOwner, clients, owner, i, survivors);
        if !clients[i].dead {
          if i == owner { owner := owner - (i - survivors); }
          if survivors != i { clients := clients[survivors := clients[i]]; }
          survivors := survivors + 1;
        }
        i := i + 1;
      }
      PassEnds(cs, conns, shortOwner, clients, owner, survivors);
      clients := clients[..survivors];
      SurvivorsAreValid(cs, conns);
      CompactionRefines(State(conns, shortOwner, ShortBytes(), message, false));
    }

    /** The compacted table is valid, and its clients are the live ones of the table before. */
    lemma SurvivorsAreValid(cs: seq<Client>, conns: seq<Conn>)
      requires this !in Repr && InBuffers(one, two, short) && -1 <= owner && (owner == -1 ==> short.Size() == 0)
      requires |conns| == |cs| && forall i | 0 <= i < |cs| :: Owns(cs[i]) && cs[i].Valid() && conns[i] == cs[i].View()
      requires forall i, j | 0 <= i < j < |cs| :: cs[i].Repr() !! cs[j].Repr()
      requires clients == Survivors(cs)
      ensures Valid() && Views() == LiveOnly(conns)
    {
      hide Unroll, EncodeFrames, Pending, InBuffers, Client.QueueValid, LiveOnly, Survivors;
      SameSurvivors(cs, conns);
      forall k | 0 <= k < |clients|
        ensures Owns(clients[k]) && clients[k].Valid() && clients[k].View() == LiveOnly(conns)[k]
      {
        var i := SurvivorSource(cs, conns, k);
      }
      forall k, l | 0 <= k < l < |clients|
        ensures clients[k].Repr() !! clients[l].Repr()
      {
        var i := SurvivorSource(cs, conns, k);
        var j := SurvivorSource(cs, conns, l);
        if j < i { assert cs[j].Repr() !! cs[i].Repr(); }
      }
    }

    /** clients_append: the new client goes to the end, the owner's index stays. */
    method AcceptClient()
      requires Valid()
      modifies this`clients, this`Repr
      ensures Valid() && fresh(Repr - old(Repr))
      ensures View() == Apply(old(View()), Accept)
      ensures |clients| == |old(clients)| + 1 && old(clients) <= clients
      ensures var c := clients[|old(clients)|]; fresh(c) && c.request == NO_REQUEST && c.requestStream.Content() == []
    {
      hide Unroll, EncodeFrames, Pending, Client.Valid, InBuffers, Client.View;
      var c := new Client();
      Repr := Repr + c.Repr();
      clients := clients + [c];
      ClientAdded(c);
    }
  }

  /** The bytes that a span of the request selects. */
  function TextOf(stream: seq<byte>, span: Location): seq<byte> {
    if span.offset + span.size <= |stream| then stream[span.offset..span.offset + span.size] else []
  }

  /** Client i is owed a body more, and one request more is on record for it; nobody else notices. */
  ghost predicate Answered(s: State, i: nat, body: seq<byte>, method_: seq<byte>, resource: seq<byte>, t: State) {
    && i < |s.conns| == |t.conns|
    && t.conns[i].bodies == s.conns[i].bodies + [body]
    && t.conns[i].asked == s.conns[i].asked + [Key(method_, resource)]
    && (Inv(s) ==> Inv(t) && Owed(t, i) == Owed(s, i) + body && t.conns[i].wire == s.conns[i].wire)
    && (forall j | 0 <= j < |s.conns| && j != i && s.conns[j].live ::
          && t.conns[j].bodies == s.conns[j].bodies && t.conns[j].asked == s.conns[j].asked
          && (Inv(s) ==> Owed(t, j) == Owed(s, j) && t.conns[j].wire == s.conns[j].wire))
  }

  lemma AnswerMeans(s: State, i: nat, request: Request, stream: seq<byte>, keepAlive: bool, body: seq<byte>)
    requires RequestInside(request, |stream|)
    requires Enabled(s, Process(i, AnswerFrame(|body|, keepAlive, request, stream), body))
    ensures var frame := AnswerFrame(|body|, keepAlive, request, stream);
      Answered(s, i, body, TextOf(stream, request.method_), TextOf(stream, request.resource),
               Apply(s, Process(i, frame, body)))
  {
    hide Inv, Apply, Owed, Frame.WellFormed;
    var frame := AnswerFrame(|body|, keepAlive, request, stream);
    var e := Process(i, frame, body);
    if Inv(s) {
      ProcessKeeps(s, i, frame, body);
      ProcessOwes(s, i, frame, body);
    }
    AnswerTable(s, i, frame, body);
    forall j | 0 <= j < |s.conns| && s.conns[j].live
      ensures Apply(s, e).conns[j].bodies == s.conns[j].bodies + BodiesFor(e, j)
      ensures Apply(s, e).conns[j].asked == s.conns[j].asked + KeysFor(e, j)
    {
      StepHistory(s, e, j);
    }
  }

  lemma AnswerTable(s: State, i: nat, frame: Frame, body: seq<byte>)
    requires Enabled(s, Process(i, frame, body))
    ensures |Apply(s, Process(i, frame, body)).conns| == |s.conns|
  {
  }

  lemma StreamApart(c: Client)
    requires c.Valid()
    ensures c.requestStream != c.stream && c.requestStream != c.queue && c.stream != c.queue
    ensures c.requestStream.Valid() && c.stream.Valid() && |c.View().stream| == c.stream.Parts().Size()
  {
  }

  /** The clients that are not dead, in order. */
  ghost function Survivors(cs: seq<Client>): (r: seq<Client>)
    reads cs
  {
    if cs == [] then []
    else Survivors(cs[..|cs| - 1]) + if cs[|cs| - 1].dead then [] else [cs[|cs| - 1]]
  }

  /** Clients below i have been looked at: survivors are in front, the others wait unchanged. */
  ghost predicate Passing(cs: seq<Client>, conns: seq<Conn>, shortOwner: int, now: seq<Client>, owner: int, i: nat,
                          survivors: nat)
    reads cs
  {
    && survivors <= i <= |cs| == |conns| == |now|
    && now[..survivors] == Survivors(cs[..i]) && (forall k | i <= k < |cs| :: now[k] == cs[k])
    && survivors == Rank(conns, i) && owner == MovedOwner(conns, i, shortOwner)
  }

  lemma PassStarts(cs: seq<Client>, conns: seq<Conn>, owner: int)
    requires |cs| == |conns|
    ensures Passing(cs, conns, owner, cs, owner, 0, 0)
  {
  }

  /** One step of the pass: who survives, and where the owner index goes. */
  lemma PassOne(cs: seq<Client>, conns: seq<Conn>, shortOwner: int, now: seq<Client>, owner: int, i: nat,
                survivors: nat)
    requires Passing(cs, conns, shortOwner, now, owner, i, survivors)
    requires i < |cs| && conns[i].live == !cs[i].dead
    ensures now[i] == cs[i] && (survivors == i ==> now[survivors := now[i]] == now)
    ensures cs[i].dead ==> Passing(cs, conns, shortOwner, now, owner, i + 1, survivors)
    ensures !cs[i].dead ==> Passing(cs, conns, shortOwner, now[survivors := now[i]],
                                    if i == owner then owner - (i - survivors) else owner, i + 1, survivors + 1)
  {
    hide MovedOwner, Rank, LiveOnly;
    assert cs[..i + 1][..i] == cs[..i];
    MovedNext(conns, i, shortOwner);
    assert now[survivors := now[i]][..survivors + 1] == now[..survivors] + [now[i]];
  }

  lemma PassEnds(cs: seq<Client>, conns: seq<Conn>, shortOwner: int, now: seq<Client>, owner: int, survivors: nat)
    requires Passing(cs, conns, shortOwner, now, owner, |cs|, survivors)
    ensures now[..survivors] == Survivors(cs) && owner == MovedOwner(conns, |conns|, shortOwner)
    ensures shortOwner >= -1 ==> owner >= -1 && (owner == -1 ==> shortOwner == -1)
  {
    assert cs[..|cs|] == cs;
  }

  lemma {:induction false} SameSurvivors(cs: seq<Client>, conns: seq<Conn>)
    requires |conns| == |cs| && forall i | 0 <= i < |cs| :: conns[i].live == !cs[i].dead
    ensures |Survivors(cs)| == |LiveOnly(conns)|
    decreases |cs|
  {
    if cs != [] { SameSurvivors(cs[..|cs| - 1], conns[..|cs| - 1]); }
  }

  /** Where survivor k was before. */
  lemma {:induction false} SurvivorSource(cs: seq<Client>, conns: seq<Conn>, k: nat) returns (i: nat)
    requires |conns| == |cs| && forall i | 0 <= i < |cs| :: conns[i].live == !cs[i].dead
    requires |Survivors(cs)| == |LiveOnly(conns)| && k < |Survivors(cs)|
    ensures i < |cs| && Survivors(cs)[k] == cs[i] && LiveOnly(conns)[k] == conns[i] && Rank(conns, i) == k
    decreases |cs|
  {
    var n := |cs| - 1;
    SameSurvivors(cs[..n], conns[..n]);
    if k < |LiveOnly(conns[..n])| {
      i := SurvivorSource(cs[..n], conns[..n], k);
      assert conns[..n][..i] == conns[..i];
    } else {
      i := n;
    }
  }

  lemma WholePages(one: seq<byte>, two: seq<byte>)
    ensures InBuffers(one, two, NO_SPANS) && Pending(one, two, NO_SPANS) == []
    ensures var all := Spans(Span(0, |one|), Span(0, |two|));
      InBuffers(one, two, all) && Pending(one, two, all) == one + two
  {
  }

  /** The short stream without its first n bytes, which went on the wire in vain. */
  function CutShort(s: State, n: nat): State {
    s.(short := if n <= |s.short| then s.short[n..] else s.short)
  }

  /** The state in which a failed send() leaves the server: the failure hit the short stream, or, after that was sent,
      the client's own. */
  ghost predicate FailedSend(s: State, i: nat, n: nat, t: State) {
    || (s.owner == i && n <= |s.short| && t == CutShort(s, n))
    || (Enabled(s, Send(i, n)) && t == Apply(s, Send(i, n)) && Inv(t))
  }

  /** First n bytes of the short stream, if the client owns it, then m of its own. */
  ghost predicate SentTwice(s: State, i: nat, n: nat, m: nat, t: State) {
    && Enabled(s, Send(i, n))
    && Enabled(Apply(s, Send(i, n)), Send(i, m))
    && t == Apply(Apply(s, Send(i, n)), Send(i, m))
  }

  /** n bytes of the short stream, if the client owns it, and, once nothing of it is left, m bytes of the client's own
      are what the outcomes let through. */
  predicate Amounts(owns: bool, short: Spans, long: Spans, short0: SendOutcome, short1: SendOutcome,
                    long0: SendOutcome, long1: SendOutcome, n: nat, m: nat, failed: bool) {
    && n == (if owns then TakenInOrder(short, short0, short1) else 0)
    && m == (if owns && n < short.Size() then 0 else TakenInOrder(long, long0, long1))
    && (failed <==> || (owns && SendFails(short, short0, short1))
                    || (!(owns && n < short.Size()) && SendFails(long, long0, long1)))
  }

  /** What server_send_traffic does is what its two halves do, one after the other. */
  lemma TrafficDone(s: State, i: nat, short: Spans, long: Spans, short0: SendOutcome, short1: SendOutcome,
                    long0: SendOutcome, long1: SendOutcome, n: nat, m: nat, first: SendResult, r: SendResult,
                    between: State, t: State)
    requires n == (if s.owner == i then TakenInOrder(short, short0, short1) else 0) <= |ShortOf(s, i)|
    requires |s.short| == short.Size() && (first == Done || first == SocketFailed) && (r == Done || r == SocketFailed)
    requires first == SocketFailed <==> s.owner == i && SendFails(short, short0, short1)
    requires first == SocketFailed ==> r == first && m == 0 && t == between == CutShort(s, n) && n < short.Size()
    requires first == Done ==>
      && Enabled(s, Send(i, n)) && between == Apply(s, Send(i, n)) && Inv(between)
      && m == (if s.owner == i && n < short.Size() then 0 else TakenInOrder(long, long0, long1))
      && (r == SocketFailed <==> !(s.owner == i && n < short.Size()) && SendFails(long, long0, long1))
      && (r == SocketFailed ==> t == between)
      && (r == Done ==> Enabled(between, Send(i, m)) && t == Apply(between, Send(i, m)))
    ensures Amounts(s.owner == i, short, long, short0, short1, long0, long1, n, m, r == SocketFailed)
    ensures r == SocketFailed ==> FailedSend(s, i, n, t)
    ensures r == Done ==>
      SentTwice(s, i, n, m, t) && SentOn(s, i, n + m, t) && PendingSize(t, i) == PendingSize(s, i) - (n + m)
  {
    hide TakenInOrder, SendFails, Apply, Enabled, Inv;
    if r == Done { SentTwiceOwes(s, i, n, m, t); }
  }

  /** What the first call of send() says. */
  function FirstReached(owns: bool, short: Spans, long: Spans, short0: SendOutcome, short1: SendOutcome,
                        long0: SendOutcome, long1: SendOutcome): SendOutcome {
    if owns && short.Size() > 0 then FirstOffered(short, short0, short1) else FirstOffered(long, long0, long1)
  }

  lemma AmountsMatter(s: State, i: nat, short: Spans, long: Spans, short0: SendOutcome, short1: SendOutcome,
                      long0: SendOutcome, long1: SendOutcome, n: nat, m: nat, failed: bool)
    requires i < |s.conns| && |s.short| == short.Size() && |s.conns[i].stream| == long.Size()
    requires Amounts(s.owner == i, short, long, short0, short1, long0, long1, n, m, failed)
    ensures FirstReached(s.owner == i, short, long, short0, short1, long0, long1).Accepted? && PendingSize(s, i) > 0 ==>
      n + m > 0
    ensures (forall o <- [short0, short1, long0, long1] :: o.Accepted? && o.n >= PendingSize(s, i)) ==>
      !failed && n + m == PendingSize(s, i)
  {
    hide TakenInOrder, SendFails, FirstOffered;
    Unsent(short, short0, short1);
    Unsent(long, long0, long1);
    var all := [short0, short1, long0, long1];
    assert all[0] in all && all[1] in all && all[2] in all && all[3] in all;
  }

  /** The next k bytes that client i was owed went on its wire, and everybody is owed what they were before. */
  predicate SentOn(s: State, i: nat, k: nat, t: State)
    requires i < |s.conns| && |s.conns| == |t.conns|
  {
    && |Owed(s, i)| >= |s.conns[i].wire| + k && t.conns[i].wire == Owed(s, i)[..|s.conns[i].wire| + k]
    && PendingSize(t, i) == PendingSize(s, i) - k
    && forall j | 0 <= j < |s.conns| :: Owed(t, j) == Owed(s, j) && (j != i ==> t.conns[j].wire == s.conns[j].wire)
  }

  lemma SentTwiceOwes(s: State, i: nat, n: nat, m: nat, t: State)
    requires SentTwice(s, i, n, m, t)
    ensures |s.conns| == |t.conns| && i < |s.conns| && SentOn(s, i, n + m, t)
  {
    hide Drain;
    SendOwes(s, i, n);
    var u := Apply(s, Send(i, n));
    SendOwes(u, i, m);
    var w, all := |s.conns[i].wire|, Owed(s, i);
    assert |Owed(u, i)| >= w + n + m && t.conns[i].wire == all[..w + n + m];
  }

  lemma FailedSendKeeps(s: State, i: nat, n: nat, t: State)
    requires Inv(s) && Live(s, i) && FailedSend(s, i, n, t)
    ensures Live(t, i) && Enabled(t, Abort(i)) && (!ClearsOther(t, i) ==> Inv(Apply(t, Abort(i))))
  {
    if s.owner == i && n <= |s.short| && t == CutShort(s, n) {
      var u := Apply(t, Abort(i));
      forall j | 0 <= j < |u.conns| && u.conns[j].live
        ensures ConnInv(u.conns[j], ShortOf(u, j))
      {
        assert ConnInv(s.conns[j], ShortOf(s, j));
      }
    } else {
      FinalizeKeeps(t, i);
    }
  }

  lemma ShortBounds(s: State, i: nat)
    requires Inv(s)
    ensures s.owner == i ==> ShortOf(s, i) == s.short
    ensures s.owner != i ==> ShortOf(s, i) == []
  {
  }

  /** Under the invariant, sending keeps it and does not panic, and the client stays alive. */
  lemma SendIsSafe(s: State, i: nat, n: nat)
    requires Inv(s) && Live(s, i) && n <= if s.owner == i then |s.short| else |s.conns[i].stream|
    ensures Enabled(s, Send(i, n))
    ensures var t := Apply(s, Send(i, n)); Inv(t) && !t.panic && Live(t, i)
  {
    SendKeeps(s, i, n);
  }

  /** Sending nothing changes nothing, but for an owner of no bytes, who stops being one. */
  lemma SendNothing(s: State, i: nat)
    requires Inv(s) && Live(s, i)
    ensures Enabled(s, Send(i, 0))
    ensures s.owner != i || s.short != [] ==> Apply(s, Send(i, 0)) == s
  {
    var c := s.conns[i];
    TransmitNothing(c, []);
    assert c.stream[..0] == [] && c.stream[0..] == c.stream && s.short[..0] == [] && s.short[0..] == s.short;
    assert s.conns[i := c] == s.conns;
  }
}
