/** Formatting a request as in sections 4.2 and 5.1 of RFC 2616 and parsing it back. */
module HttpRoundTrip {
  import opened Bytes
  import opened Values
  import opened Rings
  import opened Http
  import opened HttpCuts

  /** Whether a line ends in LF alone, which is tolerated, or in CR LF. */
  function LineBreak(lf: bool): (s: seq<byte>)
    ensures |s| == if lf then 1 else 2
  {
    if lf then [10] else [13, 10]
  }

  /** Blanks that may stand between words: space, tab, vertical tab. */
  predicate IsGap(s: seq<byte>) {
    forall i | 0 <= i < |s| :: s[i] == 32 || s[i] == 9 || s[i] == 11
  }

  /** The request line with the blanks around its words. */
  datatype Head = Head(lead: seq<byte>, method_: seq<byte>, gap1: seq<byte>, resource: seq<byte>, gap2: seq<byte>,
                       protocol: seq<byte>, gap3: seq<byte>, lf: bool)
  {
    function Text(): seq<byte> {
      lead + method_ + gap1 + (resource + gap2) + (protocol + gap3 + LineBreak(lf))
    }

    function ResourceAt(): nat {
      |lead| + |method_| + |gap1|
    }

    function ProtocolAt(): nat {
      ResourceAt() + |resource| + |gap2|
    }

    predicate Valid() {
      && IsToken(method_) && IsResource(resource) && IsProtocol(protocol)
      && IsGap(lead) && IsGap(gap1) && IsGap(gap2) && IsGap(gap3) && gap1 != [] && gap2 != []
    }
  }

  /** A header field with the blanks around its name; those around the value belong to the value. */
  datatype Field = Field(lead: seq<byte>, name: seq<byte>, gap: seq<byte>, value: seq<byte>, lf: bool)

  function FieldLine(f: Field): seq<byte> {
    f.lead + f.name + f.gap + [58] + f.value + LineBreak(f.lf)
  }

  function FieldLines(fields: seq<Field>): seq<byte> {
    if fields == [] then [] else FieldLine(fields[0]) + FieldLines(fields[1..])
  }

  /** A request up to its body; lf tells how the empty line behind the fields ends. */
  function Format(h: Head, fields: seq<Field>, lf: bool): seq<byte> {
    h.Text() + FieldLines(fields) + LineBreak(lf)
  }

  predicate IsToken(s: seq<byte>) {
    s != [] && forall i | 0 <= i < |s| :: IsTokenChar(s[i])
  }

  predicate IsResource(s: seq<byte>) {
    s != [] && forall i | 0 <= i < |s| :: IsResourceChar(s[i])
  }

  predicate IsProtocol(s: seq<byte>) {
    s != [] && forall i | 0 <= i < |s| :: IsProtocolChar(s[i])
  }

  predicate IsValue(s: seq<byte>) {
    forall i | 0 <= i < |s| :: IsValueChar(s[i])
  }

  predicate Named(f: Field, name: seq<byte>) {
    LowerAll(f.name) == name
  }

  /** A field is well formed, and a Content-Length announces n bytes. */
  predicate ValidField(f: Field, n: nat) {
    && IsToken(f.name) && IsValue(f.value) && IsGap(f.lead) && IsGap(f.gap)
    && (Named(f, CONTENT_LENGTH) ==> IsLength(f.value) && LengthOf(f.value) == n)
  }

  predicate ValidFields(fields: seq<Field>, n: nat) {
    forall i | 0 <= i < |fields| :: ValidField(fields[i], n)
  }

  predicate Announces(fields: seq<Field>) {
    exists i | 0 <= i < |fields| :: Named(fields[i], CONTENT_LENGTH)
  }

  predicate KeepsAlive(fields: seq<Field>) {
    exists i | 0 <= i < |fields| :: Named(fields[i], CONNECTION) && ListsKeepAlive(fields[i].value)
  }

  // ---- Reading text byte by byte ----

  /** The machine reads all of s and stands at n. */
  predicate Reads(m: Machine, ring: seq<byte>, s: seq<byte>, n: Machine) {
    ScanHeader(m, ring, s) == Scan(Going(n), |s|)
  }

  lemma ReadsByte(m: Machine, ring: seq<byte>, c: byte)
    requires !Stopped(m) && Step(m, ring, c).Going?
    ensures Reads(m, ring, [c], Step(m, ring, c).m.(streamSize := m.streamSize + 1))
  {
    hide Step;
    ScanStops(Step(m, ring, c).m.(streamSize := m.streamSize + 1), ring, []);
    assert [c][1..] == [];
  }

  lemma ReadsBoth(m: Machine, ring: seq<byte>, s: seq<byte>, n: Machine, t: seq<byte>, o: Machine)
    requires Reads(m, ring, s, n) && !Stopped(n) && Reads(n, ring, t, o)
    ensures Reads(m, ring, s + t, o)
  {
    ScanConcat(m, ring, s, t);
  }

  /** The machine after k more bytes of the span that is open in its state. */
  function Extend(m: Machine, k: nat): Machine {
    var n := m.(streamSize := m.streamSize + k);
    match m.state
    case WaitMethodEnd => n.(method_ := Location(m.method_.offset, m.method_.size + k))
    case WaitResourceEnd => n.(resource := Location(m.resource.offset, m.resource.size + k))
    case WaitProtocolEnd => n.(protocol := Location(m.protocol.offset, m.protocol.size + k))
    case WaitNameEnd => n.(name := Location(m.name.offset, m.name.size + k))
    case WaitValueEnd => n.(value := Location(m.value.offset, m.value.size + k))
    case _ => m
  }

  predicate IsOpen(s: ParserState) {
    s in {WaitMethodEnd, WaitResourceEnd, WaitProtocolEnd, WaitNameEnd, WaitValueEnd}
  }

  /** The bytes that extend the open span. */
  predicate Extends(s: ParserState, c: byte) {
    match s
    case WaitMethodEnd => IsTokenChar(c)
    case WaitResourceEnd => IsResourceChar(c)
    case WaitProtocolEnd => IsProtocolChar(c)
    case WaitNameEnd => IsTokenChar(c)
    case WaitValueEnd => IsValueChar(c)
    case _ => false
  }

  lemma ExtendByte(m: Machine, ring: seq<byte>, c: byte)
    requires IsOpen(m.state) && Extends(m.state, c)
    ensures Step(m, ring, c) == Going(Extend(m, 1).(streamSize := m.streamSize))
  {
    hide NameValue;
    assert IsTokenChar(c) || IsResourceChar(c) || IsProtocolChar(c) ==> !IsSpace(c);
  }

  lemma ExtendMore(m: Machine, k: nat)
    requires IsOpen(m.state)
    ensures Extend(m, 0) == m
    ensures Extend(m, k).state == m.state && !Stopped(Extend(m, k)) && Extend(m, k).streamSize == m.streamSize + k
    ensures Extend(Extend(m, 1), k) == Extend(m, k + 1)
  {
  }

  lemma {:induction false} ReadsOpen(m: Machine, ring: seq<byte>, s: seq<byte>)
    requires IsOpen(m.state) && forall i | 0 <= i < |s| :: Extends(m.state, s[i])
    ensures Reads(m, ring, s, Extend(m, |s|))
    decreases |s|
  {
    hide Step, Extends, Extend, IsOpen, ScanHeader;
    ExtendMore(m, 0);
    if s == [] {
      ScanStops(m, ring, []);
    } else {
      ExtendByte(m, ring, s[0]);
      var n := Extend(m, 1);
      ExtendMore(m, 1);
      ExtendMore(m, |s| - 1);
      ReadsByte(m, ring, s[0]);
      ReadsOpen(n, ring, s[1..]);
      ReadsBoth(m, ring, [s[0]], n, s[1..], Extend(n, |s| - 1));
      assert s == [s[0]] + s[1..];
    }
  }

  /** The machine after its first byte c opened a span. */
  function Opened(m: Machine): Machine {
    var at, n := Location(m.streamSize, 1), m.(streamSize := m.streamSize + 1);
    match m.state
    case WaitMethodBegin => n.(method_ := at, state := WaitMethodEnd)
    case WaitResourceBegin => n.(resource := at, state := WaitResourceEnd)
    case WaitProtocolBegin => n.(protocol := at, state := WaitProtocolEnd)
    case WaitNameBegin => n.(name := at, state := WaitNameEnd)
    case _ => m
  }

  predicate IsOpening(s: ParserState) {
    s in {WaitMethodBegin, WaitResourceBegin, WaitProtocolBegin, WaitNameBegin}
  }

  lemma OpenByte(m: Machine, ring: seq<byte>, c: byte)
    requires IsOpening(m.state) && Extends(Opened(m).state, c)
    ensures Step(m, ring, c) == Going(Opened(m).(streamSize := m.streamSize))
  {
    hide NameValue;
    assert IsTokenChar(c) || IsResourceChar(c) || IsProtocolChar(c) ==> !IsSpace(c);
  }

  /** A whole word is read into its span. */
  lemma ReadsWord(m: Machine, ring: seq<byte>, s: seq<byte>)
    requires IsOpening(m.state) && s != [] && forall i | 0 <= i < |s| :: Extends(Opened(m).state, s[i])
    ensures Reads(m, ring, s, Extend(Opened(m), |s| - 1))
  {
    hide Step, Extends;
    OpenByte(m, ring, s[0]);
    ReadsByte(m, ring, s[0]);
    ReadsOpen(Opened(m), ring, s[1..]);
    ReadsBoth(m, ring, [s[0]], Opened(m), s[1..], Extend(Opened(m), |s| - 1));
    assert s == [s[0]] + s[1..];
  }

  // ---- Blanks ----

  /** States in which blanks are skipped. */
  predicate Skips(s: ParserState) {
    s in {WaitMethodBegin, WaitResourceBegin, WaitProtocolBegin, WaitLineCr, WaitNameBegin, WaitColon}
  }

  lemma SkipByte(m: Machine, ring: seq<byte>, c: byte)
    requires Skips(m.state) && IsGap([c])
    ensures Step(m, ring, c) == Going(m)
  {
    hide NameValue;
    assert IsSpace(c) by { assert [c][0] == c; }
  }

  lemma {:induction false} ReadsGap(m: Machine, ring: seq<byte>, s: seq<byte>)
    requires Skips(m.state) && IsGap(s)
    ensures Reads(m, ring, s, m.(streamSize := m.streamSize + |s|))
    decreases |s|
  {
    hide Step, ScanHeader;
    if s == [] {
      ScanStops(m, ring, []);
    } else {
      var n := m.(streamSize := m.streamSize + 1);
      SkipByte(m, ring, s[0]);
      ReadsByte(m, ring, s[0]);
      ReadsGap(n, ring, s[1..]);
      ReadsBoth(m, ring, [s[0]], n, s[1..], m.(streamSize := m.streamSize + |s|));
      assert s == [s[0]] + s[1..];
    }
  }

  /** The state behind a word and at least one blank. */
  function Behind(s: ParserState): ParserState {
    match s
    case WaitMethodEnd => WaitResourceBegin
    case WaitResourceEnd => WaitProtocolBegin
    case WaitProtocolEnd => WaitLineCr
    case WaitNameEnd => WaitColon
    case _ => s
  }

  function AfterGap(m: Machine, gap: seq<byte>): Machine {
    m.(streamSize := m.streamSize + |gap|, state := if gap == [] then m.state else Behind(m.state))
  }

  /** The blanks that end a word. */
  lemma ReadsEnd(m: Machine, ring: seq<byte>, gap: seq<byte>)
    requires m.state in {WaitMethodEnd, WaitResourceEnd, WaitProtocolEnd, WaitNameEnd} && IsGap(gap)
    ensures Reads(m, ring, gap, AfterGap(m, gap))
  {
    hide NameValue, ScanHeader, Reads;
    if gap == [] {
      ReadsNothing(m, ring);
    } else {
      var n := m.(streamSize := m.streamSize + 1, state := Behind(m.state));
      assert IsSpace(gap[0]);
      ReadsByte(m, ring, gap[0]);
      ReadsGap(n, ring, gap[1..]);
      ReadsBoth(m, ring, [gap[0]], n, gap[1..], AfterGap(m, gap));
      assert gap == [gap[0]] + gap[1..];
    }
  }

  lemma ReadsNothing(m: Machine, ring: seq<byte>)
    ensures Reads(m, ring, [], m)
  {
    ScanStops(m, ring, []);
  }

  // ---- The request line ----

  function AfterRequestLine(h: Head): Machine {
    START.(state := WaitNameBegin, toleratedLf := h.lf, streamSize := |h.Text()|,
           method_ := Location(|h.lead|, |h.method_|), resource := Location(h.ResourceAt(), |h.resource|),
           protocol := Location(h.ProtocolAt(), |h.protocol|))
  }

  /** The machine behind the method and its blanks. */
  function AfterMethod(h: Head): Machine {
    START.(state := WaitResourceBegin, streamSize := h.ResourceAt(), method_ := Location(|h.lead|, |h.method_|))
  }

  /** The machine behind the resource and its blanks. */
  function AfterResource(h: Head): Machine {
    AfterMethod(h).(state := WaitProtocolBegin, streamSize := h.ProtocolAt(),
                    resource := Location(h.ResourceAt(), |h.resource|))
  }

  /** The machine behind the protocol and its blanks. */
  function AfterProtocol(h: Head): Machine {
    AfterResource(h).(state := if h.gap3 == [] then WaitProtocolEnd else WaitLineCr,
                      streamSize := h.ProtocolAt() + |h.protocol| + |h.gap3|,
                      protocol := Location(h.ProtocolAt(), |h.protocol|))
  }

  lemma ReadsMethod(ring: seq<byte>, h: Head)
    requires h.Valid()
    ensures Reads(Enter(START), ring, h.lead + h.method_ + h.gap1, AfterMethod(h))
  {
    hide ScanHeader, Reads, IsTokenChar, IsResourceChar, IsProtocolChar, IsGap;
    var m := Enter(START);
    ReadsGap(m, ring, h.lead);
    var l := m.(streamSize := |h.lead|);
    ReadsWord(l, ring, h.method_);
    var n := Extend(Opened(l), |h.method_| - 1);
    ReadsEnd(n, ring, h.gap1);
    ReadsBoth(m, ring, h.lead, l, h.method_, n);
    ReadsBoth(m, ring, h.lead + h.method_, n, h.gap1, AfterMethod(h));
  }

  lemma ReadsResource(ring: seq<byte>, h: Head)
    requires h.Valid()
    ensures Reads(AfterMethod(h), ring, h.resource + h.gap2, AfterResource(h))
  {
    hide ScanHeader, Reads, IsTokenChar, IsResourceChar, IsProtocolChar, IsGap;
    var m := AfterMethod(h);
    ReadsWord(m, ring, h.resource);
    var n := Extend(Opened(m), |h.resource| - 1);
    ReadsEnd(n, ring, h.gap2);
    ReadsBoth(m, ring, h.resource, n, h.gap2, AfterResource(h));
  }

  lemma ReadsProtocol(ring: seq<byte>, h: Head)
    requires h.Valid()
    ensures Reads(AfterResource(h), ring, h.protocol + h.gap3, AfterProtocol(h))
  {
    hide ScanHeader, Reads, IsTokenChar, IsResourceChar, IsProtocolChar, IsGap;
    var m := AfterResource(h);
    ReadsWord(m, ring, h.protocol);
    var n := Extend(Opened(m), |h.protocol| - 1);
    ReadsEnd(n, ring, h.gap3);
    ReadsBoth(m, ring, h.protocol, n, h.gap3, AfterProtocol(h));
  }

  lemma ReadsFirstBreak(ring: seq<byte>, h: Head)
    ensures Reads(AfterProtocol(h), ring, LineBreak(h.lf), AfterRequestLine(h))
  {
    hide ScanHeader, Reads, NameValue;
    var n := AfterProtocol(h);
    assert |h.Text()| == n.streamSize + |LineBreak(h.lf)|;
    CrIsNoProtocol();
    if h.lf {
      ReadsByte(n, ring, LF);
    } else {
      ReadsByte(n, ring, CR);
      var o := n.(state := WaitLineLf, streamSize := n.streamSize + 1);
      ReadsByte(o, ring, LF);
      ReadsBoth(n, ring, [CR], o, [LF], AfterRequestLine(h));
      assert [CR] + [LF] == [CR, LF];
    }
  }

  lemma ReadsRequestLine(ring: seq<byte>, h: Head)
    requires h.Valid()
    ensures Reads(Enter(START), ring, h.Text(), AfterRequestLine(h))
  {
    hide Reads, Head.Valid;
    ReadsMethod(ring, h);
    ReadsResource(ring, h);
    ReadsProtocol(ring, h);
    ReadsFirstBreak(ring, h);
    var a, b, c := h.lead + h.method_ + h.gap1, h.resource + h.gap2, h.protocol + h.gap3;
    ReadsBoth(AfterResource(h), ring, c, AfterProtocol(h), LineBreak(h.lf), AfterRequestLine(h));
    ReadsBoth(Enter(START), ring, a, AfterMethod(h), b, AfterResource(h));
    ReadsBoth(Enter(START), ring, a + b, AfterResource(h), c + LineBreak(h.lf), AfterRequestLine(h));
  }

  lemma CrIsNoProtocol()
    ensures !IsProtocolChar(CR) && !IsProtocolChar(LF) && !IsTokenChar(LF) && !IsTokenChar(COLON) && !IsTokenChar(CR)
  {
  }

  // ---- One header field ----

  /** What a well-formed field whose value is at v.value changes. */
  function Effect(v: Machine, f: Field): Machine {
    if Named(f, CONTENT_LENGTH) then (if IsLength(f.value) then v.(remaining := LengthOf(f.value)) else v)
    else if Named(f, CONNECTION) then v.(keepAlive := v.keepAlive || ListsKeepAlive(f.value))
    else if Named(f, USER_AGENT) then v.(user := v.value)
    else if Named(f, ACCEPT_LANGUAGE) then v.(acceptLanguage := v.value)
    else v
  }

  /** Where the value of a field begins. */
  function ValueAt(m: Machine, f: Field): nat {
    m.streamSize + |f.lead| + |f.name| + |f.gap| + 1
  }

  /** The machine after a well-formed field: what the header stands for. */
  function AfterField(m: Machine, f: Field): Machine {
    Effect(m.(name := Location(m.streamSize + |f.lead|, |f.name|), value := Location(ValueAt(m, f), |f.value|),
              toleratedLf := m.toleratedLf || f.lf, streamSize := m.streamSize + |FieldLine(f)|), f)
  }

  /** The machine stands where the next field begins. */
  predicate AtField(m: Machine) {
    m.state == WaitNameBegin && !m.toleratedCr
  }

  function AfterName(m: Machine, f: Field): Machine {
    m.(name := Location(m.streamSize + |f.lead|, |f.name|), state := if f.gap == [] then WaitNameEnd else WaitColon,
       streamSize := m.streamSize + |f.lead| + |f.name| + |f.gap|)
  }

  function AfterColon(m: Machine, f: Field): Machine {
    AfterName(m, f).(value := Location(ValueAt(m, f), 0), state := WaitValueEnd, streamSize := ValueAt(m, f))
  }

  function AfterValue(m: Machine, f: Field): Machine {
    AfterColon(m, f).(value := Location(ValueAt(m, f), |f.value|), streamSize := ValueAt(m, f) + |f.value|)
  }

  lemma ReadsName(m: Machine, ring: seq<byte>, f: Field)
    requires AtField(m) && IsToken(f.name) && IsGap(f.lead) && IsGap(f.gap)
    ensures Reads(m, ring, f.lead + f.name + f.gap, AfterName(m, f))
  {
    hide ScanHeader, Reads, IsTokenChar, IsGap;
    ReadsGap(m, ring, f.lead);
    var l := m.(streamSize := m.streamSize + |f.lead|);
    ReadsWord(l, ring, f.name);
    var n := Extend(Opened(l), |f.name| - 1);
    ReadsEnd(n, ring, f.gap);
    ReadsBoth(m, ring, f.lead, l, f.name, n);
    ReadsBoth(m, ring, f.lead + f.name, n, f.gap, AfterName(m, f));
  }

  lemma ReadsColon(m: Machine, ring: seq<byte>, f: Field)
    requires AtField(m)
    ensures Reads(AfterName(m, f), ring, [COLON], AfterColon(m, f))
  {
    hide ScanHeader, Reads, IsTokenChar;
    CrIsNoProtocol();
    ReadsByte(AfterName(m, f), ring, COLON);
  }

  lemma ReadsValue(m: Machine, ring: seq<byte>, f: Field)
    requires AtField(m) && IsValue(f.value)
    ensures Reads(AfterColon(m, f), ring, f.value, AfterValue(m, f))
  {
    hide ScanHeader, Reads, IsValueChar, Step;
    ReadsOpen(AfterColon(m, f), ring, f.value);
  }

  /** The ring holds the line where the machine stands. */
  predicate Holds(ring: seq<byte>, at: nat, s: seq<byte>) {
    at + |s| <= |ring| && ring[at..at + |s|] == s
  }

  lemma HoldsBoth(ring: seq<byte>, at: nat, s: seq<byte>, t: seq<byte>)
    requires Holds(ring, at, s + t)
    ensures Holds(ring, at, s) && Holds(ring, at + |s|, t)
  {
    var both := ring[at..at + |s + t|];
    assert both[..|s|] == s == ring[at..at + |s|];
    assert both[|s|..] == t == ring[at + |s|..at + |s| + |t|];
  }

  lemma PartHeld(ring: seq<byte>, at: nat, s: seq<byte>)
    requires Holds(ring, at, s)
    ensures Part(ring, Location(at, |s|)) == s
  {
  }

  lemma HeldParts(ring: seq<byte>, m: Machine, f: Field)
    requires Holds(ring, m.streamSize, FieldLine(f))
    ensures Part(ring, Location(m.streamSize + |f.lead|, |f.name|)) == f.name
    ensures Part(ring, Location(ValueAt(m, f), |f.value|)) == f.value
  {
    hide Holds;
    var at := m.streamSize;
    var name := f.lead + f.name;
    HoldsBoth(ring, at, name + f.gap + [58] + f.value, LineBreak(f.lf));
    HoldsBoth(ring, at, name + f.gap + [58], f.value);
    HoldsBoth(ring, at, name + f.gap, [58]);
    HoldsBoth(ring, at, name, f.gap);
    HoldsBoth(ring, at, f.lead, f.name);
    PartHeld(ring, at + |f.lead|, f.name);
    PartHeld(ring, ValueAt(m, f), f.value);
  }

  lemma FieldTakesEffect(m: Machine, ring: seq<byte>, f: Field, n: nat)
    requires ValidField(f, n) && Holds(ring, m.streamSize, FieldLine(f))
    requires m.streamSize + |FieldLine(f)| + n <= MAX_REQUEST_SIZE
    ensures NameValue(AfterValue(m, f), ring)
      == Going(AfterField(m, f).(state := WaitValueEnd, toleratedLf := m.toleratedLf,
        streamSize := ValueAt(m, f) + |f.value|))
  {
    hide ListsKeepAlive, IsLength, LengthOf, Part, LowerAll, IsToken, IsValue, Holds, FieldLine;
    HeldParts(ring, m, f);
    LineLength(f);
    var v := AfterValue(m, f);
    assert Part(ring, v.name) == f.name && Part(ring, v.value) == f.value;
    FieldValueTakesEffect(v, ring, f, n);
  }

  lemma FieldValueTakesEffect(v: Machine, ring: seq<byte>, f: Field, n: nat)
    requires Part(ring, v.name) == f.name && Part(ring, v.value) == f.value
    requires Named(f, CONTENT_LENGTH) ==> IsLength(f.value) && LengthOf(f.value) == n
    requires v.value.offset + v.value.size + n <= MAX_REQUEST_SIZE
    ensures NameValue(v, ring) == Going(Effect(v, f))
  {
    hide ListsKeepAlive, IsLength, LengthOf, Part, LowerAll;
  }

  lemma LineLength(f: Field)
    ensures |FieldLine(f)| == |f.lead| + |f.name| + |f.gap| + 1 + |f.value| + |LineBreak(f.lf)|
  {
  }

  lemma ReadsLineEnd(m: Machine, ring: seq<byte>, f: Field, n: nat)
    requires AtField(m) && ValidField(f, n) && Holds(ring, m.streamSize, FieldLine(f))
    requires m.streamSize + |FieldLine(f)| + n <= MAX_REQUEST_SIZE
    ensures Reads(AfterValue(m, f), ring, LineBreak(f.lf), AfterField(m, f))
  {
    hide ScanHeader, Reads, NameValue, ListsKeepAlive, IsLength, LengthOf, LowerAll, Holds, IsToken, IsValue;
    FieldTakesEffect(m, ring, f, n);
    var v := AfterValue(m, f);
    CrIsNoProtocol();
    if f.lf {
      ReadsByte(v, ring, LF);
    } else {
      ReadsByte(v, ring, CR);
      var c := AfterField(m, f).(state := WaitLineLf, streamSize := v.streamSize + 1);
      ReadsByte(c, ring, LF);
      ReadsBoth(v, ring, [CR], c, [LF], AfterField(m, f));
      assert [CR] + [LF] == [CR, LF];
    }
  }

  lemma ReadsField(m: Machine, ring: seq<byte>, f: Field, n: nat)
    requires AtField(m) && ValidField(f, n) && Holds(ring, m.streamSize, FieldLine(f))
    requires m.streamSize + |FieldLine(f)| + n <= MAX_REQUEST_SIZE
    ensures Reads(m, ring, FieldLine(f), AfterField(m, f)) && AtField(AfterField(m, f))
  {
    hide ScanHeader, Reads, Step, NameValue, ListsKeepAlive, IsLength, LengthOf, LowerAll, Holds;
    ReadsName(m, ring, f);
    ReadsColon(m, ring, f);
    ReadsValue(m, ring, f);
    ReadsLineEnd(m, ring, f, n);
    var name := f.lead + f.name + f.gap;
    ReadsBoth(m, ring, name, AfterName(m, f), [COLON], AfterColon(m, f));
    ReadsBoth(m, ring, name + [COLON], AfterColon(m, f), f.value, AfterValue(m, f));
    ReadsBoth(m, ring, name + [COLON] + f.value, AfterValue(m, f), LineBreak(f.lf), AfterField(m, f));
  }

  // ---- All header fields ----

  function AfterFields(m: Machine, fields: seq<Field>): Machine
    decreases |fields|
  {
    if fields == [] then m else AfterFields(AfterField(m, fields[0]), fields[1..])
  }

  lemma {:induction false} ReadsFields(m: Machine, ring: seq<byte>, fields: seq<Field>, n: nat)
    requires AtField(m) && ValidFields(fields, n) && Holds(ring, m.streamSize, FieldLines(fields))
    requires m.streamSize + |FieldLines(fields)| + n <= MAX_REQUEST_SIZE
    ensures Reads(m, ring, FieldLines(fields), AfterFields(m, fields)) && AtField(AfterFields(m, fields))
    decreases |fields|
  {
    hide ScanHeader, Step, Holds, ListsKeepAlive, IsLength, LengthOf, LowerAll, IsToken, IsValue, Named, FieldLine;
    if fields == [] {
      ScanStops(m, ring, []);
    } else {
      var f := fields[0];
      assert ValidField(f, n);
      HoldsBoth(ring, m.streamSize, FieldLine(f), FieldLines(fields[1..]));
      ReadsField(m, ring, f, n);
      var o := AfterField(m, f);
      ReadsFields(o, ring, fields[1..], n);
      ReadsBoth(m, ring, FieldLine(f), o, FieldLines(fields[1..]), AfterFields(m, fields));
    }
  }

  /** The value of the last field of that name. */
  function LastValue(fields: seq<Field>, name: seq<byte>, none: seq<byte>): seq<byte> {
    if fields == [] then none
    else if Named(fields[|fields| - 1], name) then fields[|fields| - 1].value
    else LastValue(fields[..|fields| - 1], name, none)
  }

  lemma {:induction false} LastValueOfRest(fields: seq<Field>, name: seq<byte>, none: seq<byte>)
    requires fields != []
    ensures LastValue(fields, name, none)
      == LastValue(fields[1..], name, if Named(fields[0], name) then fields[0].value else none)
  {
    hide Named;
    var last := |fields| - 1;
    if last > 0 {
      assert fields[1..][last - 1] == fields[last] && fields[1..][..last - 1] == fields[..last][1..];
      if !Named(fields[last], name) { LastValueOfRest(fields[..last], name, none); }
    }
  }

  /** What the header as a whole says. */
  predicate Summarizes(m: Machine, ring: seq<byte>, fields: seq<Field>, n: nat, o: Machine) {
    && o.remaining == (if Announces(fields) then n else m.remaining)
    && o.keepAlive == (m.keepAlive || KeepsAlive(fields))
    && o.method_ == m.method_ && o.resource == m.resource && o.protocol == m.protocol
    && o.streamSize == m.streamSize + |FieldLines(fields)|
    && Part(ring, o.user) == LastValue(fields, USER_AGENT, Part(ring, m.user))
    && Part(ring, o.acceptLanguage) == LastValue(fields, ACCEPT_LANGUAGE, Part(ring, m.acceptLanguage))
  }

  lemma FieldSummary(m: Machine, ring: seq<byte>, f: Field, n: nat)
    requires ValidField(f, n) && Holds(ring, m.streamSize, FieldLine(f))
    ensures var o := AfterField(m, f);
      && o.remaining == (if Named(f, CONTENT_LENGTH) then n else m.remaining)
      && o.keepAlive == (m.keepAlive || (Named(f, CONNECTION) && ListsKeepAlive(f.value)))
      && o.method_ == m.method_ && o.resource == m.resource && o.protocol == m.protocol
      && o.streamSize == m.streamSize + |FieldLine(f)|
      && Part(ring, o.user) == (if Named(f, USER_AGENT) then f.value else Part(ring, m.user))
      && Part(ring, o.acceptLanguage) == (if Named(f, ACCEPT_LANGUAGE) then f.value else Part(ring, m.acceptLanguage))
  {
    hide ListsKeepAlive, IsLength, LengthOf, Part, LowerAll, IsToken, IsValue, Holds;
    HeldParts(ring, m, f);
    assert CONTENT_LENGTH != CONNECTION;
    assert |USER_AGENT| == 10 && |CONTENT_LENGTH| == 14 && |ACCEPT_LANGUAGE| == 15;
    assert USER_AGENT[0] != CONNECTION[0];
  }

  lemma FirstOrRest(fields: seq<Field>)
    requires fields != []
    ensures Announces(fields) == (Named(fields[0], CONTENT_LENGTH) || Announces(fields[1..]))
    ensures KeepsAlive(fields)
      == ((Named(fields[0], CONNECTION) && ListsKeepAlive(fields[0].value)) || KeepsAlive(fields[1..]))
  {
    hide Named, ListsKeepAlive;
    assert fields == [fields[0]] + fields[1..];
    if i :| 0 <= i < |fields| && Named(fields[i], CONTENT_LENGTH) {
      if i > 0 { assert fields[i] == fields[1..][i - 1]; }
    }
    if i :| 0 <= i < |fields| && Named(fields[i], CONNECTION) && ListsKeepAlive(fields[i].value) {
      if i > 0 { assert fields[i] == fields[1..][i - 1]; }
    }
  }

  lemma {:induction false} FieldsSummary(m: Machine, ring: seq<byte>, fields: seq<Field>, n: nat)
    requires ValidFields(fields, n) && Holds(ring, m.streamSize, FieldLines(fields))
    ensures Summarizes(m, ring, fields, n, AfterFields(m, fields))
    decreases |fields|
  {
    hide Step, Holds, ListsKeepAlive, IsLength, LengthOf, LowerAll, IsToken, IsValue, Named, FieldLine, Part,
      AfterField, Announces, KeepsAlive;
    if fields == [] {
      assert !Announces(fields) && !KeepsAlive(fields) by { NoFields(); }
    } else {
      var f := fields[0];
      assert ValidField(f, n);
      HoldsBoth(ring, m.streamSize, FieldLine(f), FieldLines(fields[1..]));
      FieldSummary(m, ring, f, n);
      FieldsSummary(AfterField(m, f), ring, fields[1..], n);
      FirstOrRest(fields);
      LastValueOfRest(fields, USER_AGENT, Part(ring, m.user));
      LastValueOfRest(fields, ACCEPT_LANGUAGE, Part(ring, m.acceptLanguage));
    }
  }

  lemma NoFields()
    ensures !Announces([]) && !KeepsAlive([])
  {
  }

  // ---- The whole request ----

  lemma ReadsHeaderEnd(m: Machine, ring: seq<byte>, lf: bool)
    requires AtField(m)
    ensures Reads(m, ring, LineBreak(lf), AfterEmptyLine(m, lf))
  {
    hide ScanHeader, Reads, NameValue;
    CrIsNoProtocol();
    if lf {
      ReadsByte(m, ring, LF);
    } else {
      ReadsByte(m, ring, CR);
      var c := m.(state := WaitFinalLineLf, streamSize := m.streamSize + 1);
      ReadsByte(c, ring, LF);
      ReadsBoth(m, ring, [CR], c, [LF], AfterEmptyLine(m, lf));
      assert [CR] + [LF] == [CR, LF];
    }
  }

  /** The machine behind the empty line. */
  function AfterEmptyLine(m: Machine, lf: bool): Machine {
    AfterHeader(m.(streamSize := m.streamSize + |LineBreak(lf)|, toleratedLf := m.toleratedLf || lf))
  }

  /** The machine that has read the header of a request for a body of n bytes. */
  predicate HeaderRead(m: Machine, ring: seq<byte>, h: Head, fields: seq<Field>, lf: bool) {
    && m.streamSize == |Format(h, fields, lf)|
    && m.method_ == Location(|h.lead|, |h.method_|) && m.resource == Location(h.ResourceAt(), |h.resource|)
    && m.protocol == Location(h.ProtocolAt(), |h.protocol|)
    && m.keepAlive == KeepsAlive(fields)
    && Part(ring, m.user) == LastValue(fields, USER_AGENT, [])
    && Part(ring, m.acceptLanguage) == LastValue(fields, ACCEPT_LANGUAGE, [])
  }

  lemma ReadsHeader(ring: seq<byte>, h: Head, fields: seq<Field>, n: nat, lf: bool) returns (m: Machine)
    requires h.Valid() && ValidFields(fields, n)
    requires n > 0 ==> Announces(fields)
    requires |Format(h, fields, lf)| + n <= MAX_REQUEST_SIZE
    requires Holds(ring, 0, Format(h, fields, lf))
    ensures Reads(Enter(START), ring, Format(h, fields, lf), m)
    ensures HeaderRead(m, ring, h, fields, lf)
    ensures m.state == (if n > 0 then WaitContent else End) && m.remaining == n
  {
    hide ScanHeader, Reads, Holds, Step, AfterFields, Announces, KeepsAlive, ValidFields, Head.Valid, Head.Text,
      FieldLines;
    var line, lines := h.Text(), FieldLines(fields);
    HoldsBoth(ring, 0, line + lines, LineBreak(lf));
    HoldsBoth(ring, 0, line, lines);
    ReadsRequestLine(ring, h);
    var a := AfterRequestLine(h);
    ReadsFields(a, ring, fields, n);
    FieldsSummary(a, ring, fields, n);
    var b := AfterFields(a, fields);
    ReadsHeaderEnd(b, ring, lf);
    m := AfterEmptyLine(b, lf);
    ReadsBoth(Enter(START), ring, line, a, lines, b);
    ReadsBoth(Enter(START), ring, line + lines, b, LineBreak(lf), m);
  }

  /** The result of parsing a request that was formatted from these pieces, with more bytes behind it: exactly its
      spans, its length and its keep-alive wish. Whatever follows a body, or follows a request that keeps its connection
      alive, is left alone; only behind a request without both it is refused. */
  predicate Restored(o: Outcome, ring: seq<byte>, h: Head, fields: seq<Field>, lf: bool, body: seq<byte>,
                     tail: seq<byte>) {
    if body == [] && tail != [] && !KeepsAlive(fields) then o == Failed(RequestInvalid)
    else
      && o.Going? && o.m.state == End
      && o.m.streamSize == |Format(h, fields, lf)| + |body|
      && Part(ring, o.m.method_) == h.method_ && Part(ring, o.m.resource) == h.resource
      && Part(ring, o.m.protocol) == h.protocol
      && Part(ring, o.m.user) == LastValue(fields, USER_AGENT, [])
      && Part(ring, o.m.acceptLanguage) == LastValue(fields, ACCEPT_LANGUAGE, [])
      && o.m.keepAlive == KeepsAlive(fields)
  }

  /** Formatting any request and parsing it gives back that request, whatever blanks stand around its words and whether
      its lines end in CR LF or in LF alone. */
  lemma RoundTrip(h: Head, fields: seq<Field>, lf: bool, body: seq<byte>, tail: seq<byte>)
    requires h.Valid() && ValidFields(fields, |body|)
    requires body != [] ==> Announces(fields)
    requires |Format(h, fields, lf)| + |body| <= MAX_REQUEST_SIZE
    ensures var ring := Format(h, fields, lf) + body + tail;
      Restored(RunPart(START, ring, ring), ring, h, fields, lf, body, tail)
  {
    hide ScanHeader, Step, Announces, KeepsAlive, ValidFields, Head.Valid, Format, Part, LastValue;
    var header := Format(h, fields, lf);
    var ring := header + body + tail;
    assert ring[..|header|] == header && ring[|header|..] == body + tail;
    var m := ReadsHeader(ring, h, fields, |body|, lf);
    assert ring == header + (body + tail);
    ScanConcat(Enter(START), ring, header, body + tail);
    HeadParts(ring, h, fields, lf);
    assert |ring| - |header| == |body| + |tail|;
  }

  lemma HeadParts(ring: seq<byte>, h: Head, fields: seq<Field>, lf: bool)
    requires Holds(ring, 0, Format(h, fields, lf))
    ensures Part(ring, Location(|h.lead|, |h.method_|)) == h.method_
    ensures Part(ring, Location(h.ResourceAt(), |h.resource|)) == h.resource
    ensures Part(ring, Location(h.ProtocolAt(), |h.protocol|)) == h.protocol
  {
    hide FieldLines, Holds, Part, LineBreak;
    var a, b, c := h.lead + h.method_ + h.gap1, h.resource + h.gap2, h.protocol + h.gap3 + LineBreak(h.lf);
    HoldsBoth(ring, 0, h.Text() + FieldLines(fields), LineBreak(lf));
    HoldsBoth(ring, 0, h.Text(), FieldLines(fields));
    HoldsBoth(ring, 0, a + b, c);
    HoldsBoth(ring, 0, a, b);
    HoldsBoth(ring, 0, h.lead + h.method_, h.gap1);
    HoldsBoth(ring, 0, h.lead, h.method_);
    HoldsBoth(ring, |a|, h.resource, h.gap2);
    HoldsBoth(ring, |a + b|, h.protocol + h.gap3, LineBreak(h.lf));
    HoldsBoth(ring, |a + b|, h.protocol, h.gap3);
    PartHeld(ring, |h.lead|, h.method_);
    PartHeld(ring, |a|, h.resource);
    PartHeld(ring, |a + b|, h.protocol);
  }
}
