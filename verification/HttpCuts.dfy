/** Segmentation of requests: when the HTTP parser's result depends only on the bytes, and exactly when it does not. */
module HttpCuts {
  import opened Bytes
  import opened Values
  import opened Rings
  import opened Http
  import Clients

  // ---- The parser looks only at what it has parsed ----

  lemma StepIsLocal(m: Machine, ring1: seq<byte>, ring2: seq<byte>, c: byte)
    requires SpansInside(m) && m.streamSize <= |ring1| && m.streamSize <= |ring2|
    requires ring1[..m.streamSize] == ring2[..m.streamSize]
    ensures Step(m, ring1, c) == Step(m, ring2, c)
  {
    hide IsSpace, IsNewline, IsTokenChar, IsResourceChar, IsProtocolChar, IsValueChar, ListsKeepAlive, IsLength,
      LengthOf, LowerAll;
    PartIsLocal(ring1, ring2, m.streamSize, m.name);
    PartIsLocal(ring1, ring2, m.streamSize, m.value);
  }

  lemma PartIsLocal(ring1: seq<byte>, ring2: seq<byte>, n: nat, l: Location)
    requires n <= |ring1| && n <= |ring2| && ring1[..n] == ring2[..n] && l.offset + l.size <= n
    ensures Part(ring1, l) == Part(ring2, l)
  {
    assert Part(ring1, l) == ring1[..n][l.offset..l.offset + l.size];
    assert Part(ring2, l) == ring2[..n][l.offset..l.offset + l.size];
  }

  /** Bytes behind the part do not influence its parsing, so a part gives the same result before and after more bytes
      have arrived. */
  lemma {:induction false} ScanIsLocal(m: Machine, ring1: seq<byte>, ring2: seq<byte>, part: seq<byte>)
    requires SpansInside(m) && m.state != Begin
    requires m.streamSize + |part| <= |ring1| && m.streamSize + |part| <= |ring2|
    requires ring1[..m.streamSize + |part|] == ring2[..m.streamSize + |part|]
    ensures ScanHeader(m, ring1, part) == ScanHeader(m, ring2, part)
    decreases |part|
  {
    hide SpansInside, Step;
    if part != [] && !Stopped(m) {
      var n := m.streamSize + |part|;
      assert ring1[..m.streamSize] == ring1[..n][..m.streamSize] && ring2[..m.streamSize] == ring2[..n][..m.streamSize];
      StepIsLocal(m, ring1, ring2, part[0]);
      StepKeepsSpans(m, ring1, part[0]);
      var o := Step(m, ring1, part[0]);
      if o.Going? { ScanIsLocal(o.m.(streamSize := m.streamSize + 1), ring1, ring2, part[1..]); }
    }
  }

  lemma RunIsLocal(m: Machine, ring1: seq<byte>, ring2: seq<byte>, part: seq<byte>)
    requires SpansInside(m)
    requires m.streamSize + |part| <= |ring1| && m.streamSize + |part| <= |ring2|
    requires ring1[..m.streamSize + |part|] == ring2[..m.streamSize + |part|]
    ensures RunPart(m, ring1, part) == RunPart(m, ring2, part)
  {
    hide SpansInside, ScanHeader;
    EnterKeepsSpans(m);
    ScanIsLocal(Enter(m), ring1, ring2, part);
  }

  // ---- Cutting a part in two ----

  /** Scanning two parts one after the other. */
  lemma {:induction false} ScanConcat(m: Machine, ring: seq<byte>, a: seq<byte>, b: seq<byte>)
    ensures var r := ScanHeader(m, ring, a);
      ScanHeader(m, ring, a + b) ==
        if r.o.Failed? || Stopped(r.o.m) then r else Later(ScanHeader(r.o.m, ring, b), |a|)
    decreases |a|
  {
    hide Step;
    if a == [] {
      assert a + b == b;
      ScanNothing(ScanHeader(m, ring, b));
      ScanStops(m, ring, []);
      if Stopped(m) { ScanStops(m, ring, b); }
    } else if !Stopped(m) {
      assert (a + b)[0] == a[0] && (a + b)[1..] == a[1..] + b;
      var o := Step(m, ring, a[0]);
      if o.Going? { ScanConcat(o.m.(streamSize := m.streamSize + 1), ring, a[1..], b); }
    }
  }

  /** How many bytes of a part lie behind the header. */
  function BehindHeader(m: Machine, ring: seq<byte>, a: seq<byte>): nat {
    |a| - ScanHeader(Enter(m), ring, a).used
  }

  /** The cuts that change the result: behind the first byte of a body, with more bytes to come, when
      - the body is complete, the connection is not kept alive, and so the rest is refused instead of ignored; or
      - the body is not complete, but the rest of it has arrived: its promised length is counted again from the cut. */
  predicate Diverges(m: Machine, ring: seq<byte>, a: seq<byte>, b: seq<byte>) {
    var r := ScanHeader(Enter(m), ring, a);
    var k := BehindHeader(m, ring, a);
    && r.o.Going? && r.o.m.state == WaitContent && k > 0 && b != []
    && if k >= r.o.m.remaining then !r.o.m.keepAlive else k + |b| >= r.o.m.remaining
  }

  /** Behind the header, k bytes and then j more against k + j at once. */
  lemma FinishConcat(m: Machine, ring: seq<byte>, k: nat, b: seq<byte>)
    requires Stopped(m) && m.state != Begin && k > 0 && b != []
    ensures Then(Finish(m, k), ring, b) == Finish(m, k + |b|) <==>
      !(m.state == WaitContent && if k >= m.remaining then !m.keepAlive else k + |b| >= m.remaining)
  {
    var o := Finish(m, k);
    if o.Going? {
      assert Enter(o.m) == o.m && Stopped(o.m);
      ScanStops(o.m, ring, b);
      assert RunPart(o.m, ring, b) == Finish(o.m, |b|);
    }
  }

  /** For every parser state and every cut: parsing a and then b gives the same as parsing a + b if and only if the
      cut is not one of the diverging ones. */
  lemma CutExactly(m: Machine, ring: seq<byte>, a: seq<byte>, b: seq<byte>)
    ensures Then(RunPart(m, ring, a), ring, b) == RunPart(m, ring, a + b) <==> !Diverges(m, ring, a, b)
  {
    hide ScanHeader;
    var e := Enter(m);
    var r := ScanHeader(e, ring, a);
    ScanConcat(e, ring, a, b);
    ScanState(e, ring, a);
    if b == [] {
      assert a + b == a;
      RunAgain(m, ring, a);
    } else if r.o.Failed? {
    } else if !Stopped(r.o.m) {
      assert r.used == |a| && Enter(r.o.m) == r.o.m;
    } else if r.used == |a| {
      ScanStops(r.o.m, ring, b);
      assert Enter(r.o.m) == r.o.m;
    } else {
      FinishConcat(r.o.m, ring, |a| - r.used, b);
    }
  }

  /** A body received in two pieces is never complete after the second one, unless that one alone is as long as
      promised. */
  lemma BodyInTwoPieces(m: Machine, ring: seq<byte>, a: seq<byte>, b: seq<byte>)
    requires m.state == WaitContent && 0 < |a| < m.remaining && |a| + |b| == m.remaining
    ensures RunPart(m, ring, a + b) == Going(m.(streamSize := m.streamSize + m.remaining, state := End))
    ensures Then(RunPart(m, ring, a), ring, b) == Going(m.(streamSize := m.streamSize + m.remaining))
    ensures Diverges(m, ring, a, b)
  {
    ScanStops(m, ring, a);
    ScanStops(m, ring, a + b);
    ScanStops(m.(streamSize := m.streamSize + |a|), ring, b);
  }

  lemma {:induction false} ScanState(m: Machine, ring: seq<byte>, a: seq<byte>)
    requires m.state != Begin
    ensures ScanHeader(m, ring, a).o.Going? ==> ScanHeader(m, ring, a).o.m.state != Begin
    decreases |a|
  {
    hide Step;
    if a != [] && !Stopped(m) {
      StepStays(m, ring, a[0]);
      var o := Step(m, ring, a[0]);
      if o.Going? { ScanState(o.m.(streamSize := m.streamSize + 1), ring, a[1..]); }
    }
  }

  /** Feeding nothing changes nothing. */
  lemma RunAgain(m: Machine, ring: seq<byte>, a: seq<byte>)
    ensures Then(RunPart(m, ring, a), ring, []) == RunPart(m, ring, a)
  {
    hide ScanHeader;
    ScanState(Enter(m), ring, a);
    var o := RunPart(m, ring, a);
    if o.Going? {
      assert Enter(o.m) == o.m;
      ScanStops(o.m, ring, []);
    }
  }

  /** Where the ring wraps does not matter to parser_parse, except inside a body as described above; there it matters
      unless the request stream is full anyway. */
  lemma WrapExactly(m: Machine, ring: seq<byte>, split: nat)
    requires m.streamSize + split <= Min(|ring|, MAX_REQUEST_SIZE)
    ensures var news := ring[m.streamSize..Min(|ring|, MAX_REQUEST_SIZE)];
      && (!Diverges(m, ring, news[..split], news[split..]) ==> RunStream(m, ring, split) == RunStream(m, ring, |news|))
      && (Diverges(m, ring, news[..split], news[split..]) && |ring| < MAX_REQUEST_SIZE ==>
            RunStream(m, ring, split) != RunStream(m, ring, |news|))
  {
    hide RunPart, Diverges;
    var news := ring[m.streamSize..Min(|ring|, MAX_REQUEST_SIZE)];
    CutExactly(m, ring, news[..split], news[split..]);
    assert news[..split] + news[split..] == news;
    assert news[..|news|] == news && news[|news|..] == [];
    RunAgain(m, ring, news);
  }

  // ---- Any number of segments ----

  function Join(segments: seq<seq<byte>>): seq<byte> {
    if segments == [] then [] else segments[0] + Join(segments[1..])
  }

  function RunAll(o: Outcome, ring: seq<byte>, segments: seq<seq<byte>>): Outcome
    decreases |segments|
  {
    if segments == [] then o else RunAll(Then(o, ring, segments[0]), ring, segments[1..])
  }

  /** No proper prefix of the segments reaches into a body. */
  predicate CutsInHeader(m: Machine, ring: seq<byte>, done: seq<byte>, segments: seq<seq<byte>>)
    decreases |segments|
  {
    |segments| <= 1 ||
    (BehindHeader(m, ring, done + segments[0]) == 0 && CutsInHeader(m, ring, done + segments[0], segments[1..]))
  }

  /** However a request is cut into segments, with all cuts in front of the body, the result is that of one piece. */
  lemma {:induction false} SegmentsDoNotMatter(m: Machine, ring: seq<byte>, done: seq<byte>, segments: seq<seq<byte>>)
    requires CutsInHeader(m, ring, done, segments)
    requires BehindHeader(m, ring, done) == 0
    ensures RunAll(RunPart(m, ring, done), ring, segments) == RunPart(m, ring, done + Join(segments))
    decreases |segments|
  {
    hide ScanHeader, RunPart;
    if segments == [] {
      assert done + Join(segments) == done;
    } else {
      CutExactly(m, ring, done, segments[0]);
      assert !Diverges(m, ring, done, segments[0]);
      assert done + (segments[0] + Join(segments[1..])) == (done + segments[0]) + Join(segments[1..]);
      if |segments| == 1 {
        assert segments[1..] == [];
        assert done + segments[0] + Join([]) == done + segments[0];
      } else {
        SegmentsDoNotMatter(m, ring, done + segments[0], segments[1..]);
      }
    }
  }

  // ---- Receiving ----

  /** Nothing but header has been received, all of it is parsed. */
  lemma HeaderIsUsedUp(ring: seq<byte>, grown: seq<byte>, m: Machine)
    requires ring <= grown && RunPart(START, ring, ring) == Going(m) && BehindHeader(START, ring, ring) == 0
    ensures m.streamSize == |ring| && m.state != Begin
    ensures RunPart(START, grown, ring) == Going(m) && BehindHeader(START, grown, ring) == 0
    ensures ScanHeader(Enter(START), grown, ring) == Scan(Going(m), |ring|)
  {
    hide ScanHeader, Step, SpansInside, Finish, Enter;
    StartInside();
    ScanKeepsSpans(Enter(START), ring, ring);
    assert ring[..|ring|] == ring == grown[..|ring|];
    ScanIsLocal(Enter(START), ring, grown, ring);
  }

  lemma StartInside()
    ensures SpansInside(Enter(START)) && Enter(START).state != Begin && Enter(START).streamSize == 0
  {
  }

  lemma BehindFurther(grown: seq<byte>, ring: seq<byte>, m: Machine, a: seq<byte>)
    requires ScanHeader(Enter(START), grown, ring) == Scan(Going(m), |ring|) && m.state != Begin
    ensures BehindHeader(m, grown, a) == BehindHeader(START, grown, ring + a)
  {
    hide ScanHeader;
    ScanConcat(Enter(START), grown, ring, a);
    if Stopped(m) { ScanStops(m, grown, a); }
  }

  /** The state of the parser is a function of the bytes received: as long as only header bytes were there before, each
      further receive, wherever the ring wraps in it (though not behind the start of a body), leaves the parser as if
      everything had come in one piece. */
  lemma ReceiveKeeps(ring: seq<byte>, m: Machine, data: seq<byte>, wrap: nat)
    requires RunPart(START, ring, ring) == Going(m) && BehindHeader(START, ring, ring) == 0
    requires |ring + data| < MAX_REQUEST_SIZE && wrap <= |data|
    requires wrap < |data| ==> BehindHeader(START, ring + data, ring + data[..wrap]) == 0
    ensures m.streamSize == |ring|
    ensures RunStream(m, ring + data, wrap) == RunPart(START, ring + data, ring + data)
  {
    hide ScanHeader, RunPart, BehindHeader;
    var grown := ring + data;
    HeaderIsUsedUp(ring, grown, m);
    assert grown[|ring|..|grown|] == data;
    NotBehind(START, grown, ring, data);
    CutExactly(START, grown, ring, data);
    BehindFurther(grown, ring, m, data[..wrap]);
    assert wrap == |data| ==> data[wrap..] == [];
    NotBehind(m, grown, data[..wrap], data[wrap..]);
    CutExactly(m, grown, data[..wrap], data[wrap..]);
    assert data[..wrap] + data[wrap..] == data;
  }

  lemma NotBehind(m: Machine, ring: seq<byte>, a: seq<byte>, b: seq<byte>)
    requires BehindHeader(m, ring, a) == 0 || b == []
    ensures !Diverges(m, ring, a, b)
  {
    hide ScanHeader;
  }

  // ---- What the pipeline gets ----

  function RequestOf(m: Machine): Clients.Request {
    Clients.Request(m.streamSize, m.method_, m.resource, m.protocol, m.keepAlive)
  }

  /** What the parser hands over satisfies what the pipeline needs, for every way the bytes came in. */
  lemma ParsedRequestInside(m: Machine, ring: seq<byte>, split: nat)
    requires SpansInside(m) && m.streamSize + split <= Min(|ring|, MAX_REQUEST_SIZE)
    requires |ring| <= Clients.MAX_REQUEST_STREAM_SIZE
    ensures var o := RunStream(m, ring, split);
      o.Going? ==>
        && SpansInside(o.m) && o.m.streamSize <= Min(|ring|, MAX_REQUEST_SIZE)
        && Clients.RequestInside(RequestOf(o.m), |ring|)
  {
    hide RunPart;
    var news := ring[m.streamSize..Min(|ring|, MAX_REQUEST_SIZE)];
    RunKeepsSpans(m, ring, news[..split]);
    var o := RunPart(m, ring, news[..split]);
    if o.Going? { RunKeepsSpans(o.m, ring, news[split..]); }
  }
}
