/** What each client is owed over a run, told from the events alone: not from where the pipeline puts an answer. */
module Histories {
  import opened Bytes
  import opened Frames
  import opened Pipeline

  /** All bytes for client i in the order in which they reach it: those on the wire, then those that wait. */
  function Owed(s: State, i: nat): seq<byte>
    requires i < |s.conns|
  {
    s.conns[i].wire + ShortOf(s, i) + s.conns[i].stream
  }

  // ---- One event ----

  /** An answer makes its client be owed exactly the body more, behind everything else; nobody else notices. */
  lemma ProcessOwes(s: State, i: nat, frame: Frame, body: seq<byte>)
    requires Inv(s) && Enabled(s, Process(i, frame, body))
    ensures var t := Apply(s, Process(i, frame, body));
      && |t.conns| == |s.conns| && Owed(t, i) == Owed(s, i) + body && t.conns[i].wire == s.conns[i].wire
      && forall j | 0 <= j < |s.conns| && j != i && s.conns[j].live ::
           Owed(t, j) == Owed(s, j) && t.conns[j].wire == s.conns[j].wire
  {
    hide Frame.WellFormed, ConnInv;
    FlushOwes(s);
    var f := FlushOwner(s);
    var c := f.conns[i];
    assert f.owner == -1;
    assert c.wire + [] + c.stream + body == c.wire + (if c.stream == [] then body else [])
      + (if c.stream == [] then c.stream else c.stream + body);
  }

  lemma FlushOwes(s: State)
    requires Inv(s)
    ensures var f := FlushOwner(s);
      && |f.conns| == |s.conns| && f.owner == -1
      && forall j | 0 <= j < |s.conns| && s.conns[j].live ::
           f.conns[j].live && Owed(f, j) == Owed(s, j) && f.conns[j].wire == s.conns[j].wire
  {
    hide ConnInv;
    var f := FlushOwner(s);
    forall j | 0 <= j < |s.conns| && s.conns[j].live
      ensures Owed(f, j) == Owed(s, j)
    {
      if j == s.owner && s.short != [] {
        var c := s.conns[j];
        assert c.stream == [];
        assert c.wire + s.short + c.stream == c.wire + [] + (c.stream + s.short);
      }
    }
  }

  /** Sending moves the next n bytes that the client is owed to the wire, and owes nobody more or less. */
  lemma SendOwes(s: State, i: nat, n: nat)
    requires Enabled(s, Send(i, n))
    ensures var t := Apply(s, Send(i, n));
      && |t.conns| == |s.conns| && |Owed(s, i)| >= |s.conns[i].wire| + n
      && t.conns[i].wire == Owed(s, i)[..|s.conns[i].wire| + n]
      && forall j | 0 <= j < |s.conns| :: Owed(t, j) == Owed(s, j) && (j != i ==> t.conns[j].wire == s.conns[j].wire)
  {
    hide Drain;
    var c := s.conns[i];
    if s.owner == i {
      FrontMoves(c.wire, s.short, c.stream, n);
    } else {
      FrontMoves(c.wire, c.stream, [], n);
      assert c.wire + [] + c.stream == c.wire + c.stream + [];
      assert c.wire + c.stream[..n] + [] + c.stream[n..] == c.wire + c.stream[..n] + c.stream[n..] + [];
    }
  }

  lemma FrontMoves(wire: seq<byte>, front: seq<byte>, back: seq<byte>, n: nat)
    requires n <= |front|
    ensures wire + front[..n] + front[n..] + back == wire + front + back
    ensures wire + front[..n] == (wire + front + back)[..|wire| + n]
  {
    assert front == front[..n] + front[n..];
  }

  /** Where a client stands after an event. */
  function PlaceAfter(s: State, e: Event, i: nat): nat
    requires i < |s.conns|
  {
    if e.Compact? then |LiveOnly(s.conns[..i])| else i
  }

  /** The event that ends the life of client i. */
  predicate Ends(e: Event, i: nat) {
    e == Close(i) || e == Abort(i)
  }

  /** The answers that an event gives to client i. */
  function BodiesFor(e: Event, i: nat): seq<seq<byte>> {
    if e.Process? && e.i == i then [e.body] else []
  }

  function KeysFor(e: Event, i: nat): seq<Key> {
    if e.Process? && e.i == i then [Key(e.frame.method_, e.frame.resource)] else []
  }

  /** Only answering a client's own request adds to its history. */
  lemma StepHistory(s: State, e: Event, i: nat)
    requires Live(s, i) && Enabled(s, e)
    ensures var t, p := Apply(s, e), PlaceAfter(s, e, i);
      && p < |t.conns| && (t.conns[p].live <==> !Ends(e, i))
      && t.conns[p].bodies == s.conns[i].bodies + BodiesFor(e, i)
      && t.conns[p].asked == s.conns[i].asked + KeysFor(e, i)
  {
    hide Drain, LiveOnly, Frame.WellFormed;
    if e.Compact? { LiveOnlyAt(s.conns, i); }
  }

  /** Where the client at place p was before an event. */
  lemma StepSource(s: State, e: Event, p: nat) returns (i: nat)
    requires Enabled(s, e) && Live(Apply(s, e), p)
    ensures (i < |s.conns| && s.conns[i].live && !Ends(e, i) && PlaceAfter(s, e, i) == p)
         || (e == Accept && i == p == |s.conns|)
    ensures e == Accept && p == |s.conns| ==> Apply(s, e).conns[p].bodies == [] && Apply(s, e).conns[p].asked == []
  {
    hide Drain, LiveOnly, Frame.WellFormed;
    i := p;
    if e.Compact? { i := LiveOnlySource(s.conns, p); }
  }

  // ---- Whole runs ----

  /** A client as the events tell of it: where it stands and what was answered to it. */
  datatype Life = Life(alive: bool, place: nat, bodies: seq<seq<byte>>, asked: seq<Key>)

  function NewLife(place: nat): Life {
    Life(true, place, [], [])
  }

  function Next(s: State, e: Event, l: Life): Life
    requires l.alive ==> l.place < |s.conns|
  {
    if !l.alive then l
    else Life(!Ends(e, l.place), PlaceAfter(s, e, l.place), l.bodies + BodiesFor(e, l.place),
              l.asked + KeysFor(e, l.place))
  }

  /** The client that l tells of is one of the table. */
  predicate InTable(s: State, l: Life) {
    l.alive ==> Live(s, l.place)
  }

  lemma NextInTable(s: State, e: Event, l: Life)
    requires InTable(s, l) && Enabled(s, e)
    ensures InTable(Apply(s, e), Next(s, e, l))
  {
    hide Apply, Enabled, LiveOnly;
    if l.alive { StepHistory(s, e, l.place); }
  }

  function Follow(s: State, events: seq<Event>, l: Life): Life
    requires InTable(s, l)
    decreases |events|
  {
    if events == [] then l
    else if Enabled(s, events[0]) then
      NextInTable(s, events[0], l);
      Follow(Apply(s, events[0]), events[1..], Next(s, events[0], l))
    else Follow(s, events[1..], l)
  }

  predicate Records(s: State, l: Life) {
    l.alive ==> Live(s, l.place) && s.conns[l.place].bodies == l.bodies && s.conns[l.place].asked == l.asked
  }

  lemma {:induction false} FollowRecords(s: State, events: seq<Event>, l: Life)
    requires Records(s, l)
    ensures Records(Run(s, events), Follow(s, events, l))
    decreases |events|
  {
    hide Apply, Enabled;
    if events != [] {
      var e := events[0];
      if Enabled(s, e) {
        if l.alive { StepHistory(s, e, l.place); }
        FollowRecords(Apply(s, e), events[1..], Next(s, e, l));
      } else {
        FollowRecords(s, events[1..], l);
      }
    }
  }

  /** Client i of s is client k of the table after the events. */
  predicate Becomes(s: State, events: seq<Event>, i: nat, k: nat)
    requires Live(s, i)
  {
    var l := Follow(s, events, NewLife(i));
    l.alive && l.place == k
  }

  lemma {:induction false} FollowPlace(s: State, events: seq<Event>, l: Life, m: Life)
    requires InTable(s, l) && m.alive == l.alive && m.place == l.place
    ensures Follow(s, events, l).alive == Follow(s, events, m).alive
    ensures Follow(s, events, l).place == Follow(s, events, m).place
    decreases |events|
  {
    hide Apply, Enabled;
    if events != [] {
      if Enabled(s, events[0]) {
        NextInTable(s, events[0], l);
        NextInTable(s, events[0], m);
        FollowPlace(Apply(s, events[0]), events[1..], Next(s, events[0], l), Next(s, events[0], m));
      } else {
        FollowPlace(s, events[1..], l, m);
      }
    }
  }

  /** Event a accepts the client that stands at place k after all events. */
  predicate Accepted(s: State, events: seq<Event>, a: nat, k: nat) {
    && a < |events| && events[a] == Accept
    && var before := Run(s, events[..a]);
    && Enabled(before, Accept) && Becomes(Apply(before, Accept), events[a + 1..], |before.conns|, k)
  }

  /** A run is its first event and the rest. */
  function First(s: State, e: Event): State {
    if Enabled(s, e) then Apply(s, e) else s
  }

  lemma AcceptedLater(s: State, events: seq<Event>, a: nat, k: nat)
    requires events != [] && Accepted(First(s, events[0]), events[1..], a, k)
    ensures Accepted(s, events, a + 1, k)
  {
    hide Apply, Enabled, Follow;
    var rest, front := events[1..], events[..a + 1];
    assert front[0] == events[0] && front[1..] == rest[..a];
    assert events[a + 2..] == rest[a + 1..];
  }

  lemma FirstAccepted(s: State, events: seq<Event>, k: nat)
    requires events != [] && events[0] == Accept && Enabled(s, Accept)
    requires Becomes(Apply(s, Accept), events[1..], |s.conns|, k)
    ensures Accepted(s, events, 0, k)
  {
    hide Enabled, Follow;
    assert events[..0] == [];
  }

  /** Every client after a run was there before it, or was accepted by one of its events. */
  lemma {:induction false} Origin(s: State, events: seq<Event>, k: nat) returns (present: bool, at: nat)
    requires Live(Run(s, events), k)
    ensures present ==> Live(s, at) && Becomes(s, events, at, k)
    ensures !present ==> Accepted(s, events, at, k)
    decreases |events|
  {
    hide Apply, Enabled, LiveOnly;
    if events == [] {
      return true, k;
    }
    var e, rest := events[0], events[1..];
    if !Enabled(s, e) {
      present, at := Origin(s, rest, k);
      if !present {
        AcceptedLater(s, events, at, k);
        at := at + 1;
      }
      return;
    }
    var t := Apply(s, e);
    present, at := Origin(t, rest, k);
    if !present {
      AcceptedLater(s, events, at, k);
      at := at + 1;
      return;
    }
    var i := StepSource(s, e, at);
    if e == Accept && i == |s.conns| {
      FirstAccepted(s, events, k);
      return false, 0;
    }
    StepHistory(s, e, i);
    FollowPlace(t, rest, NewLife(at), Next(s, e, NewLife(i)));
    return true, i;
  }

  lemma {:induction false} RunConcat(s: State, a: seq<Event>, b: seq<Event>)
    ensures Run(s, a + b) == Run(Run(s, a), b)
    decreases |a|
  {
    hide Apply, Enabled;
    if a == [] {
      assert a + b == b;
    } else {
      assert (a + b)[0] == a[0] && (a + b)[1..] == a[1..] + b;
      RunConcat(First(s, a[0]), a[1..], b);
    }
  }

  /** Over every run without losing events each client gets, in order and without a gap, the bodies of the answers to
      its own requests, and the log shows those requests in order. */
  lemma EachGetsItsOwn(events: seq<Event>, k: nat) returns (a: nat, life: Life)
    requires NoLoss(START, events) && Live(Run(START, events), k)
    ensures Accepted(START, events, a, k)
    ensures var before := Run(START, events[..a]);
      life == Follow(Apply(before, Accept), events[a + 1..], NewLife(|before.conns|))
    ensures Owed(Run(START, events), k) == Flatten(life.bodies)
    ensures Run(START, events).conns[k].log <= life.asked
  {
    hide Enabled, Follow;
    var end := Run(START, events);
    var present;
    present, a := Origin(START, events, k);
    var before := Run(START, events[..a]);
    var born, l := Apply(before, Accept), NewLife(|before.conns|);
    life := Follow(born, events[a + 1..], l);
    assert events == events[..a] + events[a..];
    RunConcat(START, events[..a], events[a..]);
    FollowRecords(born, events[a + 1..], l);
    RunKeeps(START, events);
    assert ConnInv(end.conns[k], ShortOf(end, k));
    LoggedMeansDelivered(end.conns[k], ShortOf(end, k));
  }
}
