/** http_parser.c and parser.c: the incremental HTTP request parser. */
module Http {
  import opened Bytes
  import opened Values
  import opened Rings

  const MAX_REQUEST_SIZE := 0x10_0000

  datatype ParserState =
    | Begin | End
    | WaitMethodBegin | WaitMethodEnd | WaitResourceBegin | WaitResourceEnd | WaitProtocolBegin | WaitProtocolEnd
    | WaitLineCr | WaitLineLf
    | WaitNameBegin | WaitNameEnd | WaitColon | WaitValueEnd
    | WaitFinalLineLf | WaitContent

  /** struct Parser and struct Request together. For the language only the header value is recorded from which the
      original computes it. */
  datatype Machine = Machine(
    state: ParserState,
    remaining: nat,             // remaining_content: the promised length, never counted down
    toleratedLf: bool, toleratedCr: bool,
    name: Location, value: Location,
    streamSize: nat,            // bytes parsed
    method_: Location, resource: Location, protocol: Location,
    user: Location, acceptLanguage: Location,
    keepAlive: bool)

  const NOWHERE := Location(0, 0)

  const START := Machine(Begin, 0, false, false, NOWHERE, NOWHERE, 0, NOWHERE, NOWHERE, NOWHERE, NOWHERE, NOWHERE,
    false)

  datatype Error = RequestInvalid | ContentTooLarge | HeaderTooLarge

  datatype Outcome = Going(m: Machine) | Failed(error: Error)

  // ---- Character classes (tables.c) ----

  predicate IsSpace(c: byte) {
    c == SPACE || c == 9 || c == 11
  }

  predicate IsNewline(c: byte) {
    c == LF || c == CR
  }

  predicate IsAlnum(c: byte) {
    65 <= c <= 90 || 97 <= c <= 122 || 48 <= c <= 57
  }

  /** Allowed in a method and in a field name: letters, digits and ! # $ % & ' * + - . ^ _ | ~ */
  predicate IsTokenChar(c: byte) {
    IsAlnum(c) || c in [33, 35, 36, 37, 38, 39, 42, 43, 45, 46, 94, 95, 124, 126]
  }

  predicate IsResourceChar(c: byte) {
    33 <= c <= 126
  }

  /** The characters of "HTTP/1.0". */
  predicate IsProtocolChar(c: byte) {
    c in [72, 84, 80, 47, 49, 46, 48]
  }

  predicate IsValueChar(c: byte) {
    32 <= c <= 126
  }

  const COLON: byte := 58

  const CONTENT_LENGTH: seq<byte> := [99, 111, 110, 116, 101, 110, 116, 45, 108, 101, 110, 103, 116, 104]
  const CONNECTION: seq<byte> := [99, 111, 110, 110, 101, 99, 116, 105, 111, 110]
  const KEEP_ALIVE: seq<byte> := [107, 101, 101, 112, 45, 97, 108, 105, 118, 101]
  const USER_AGENT: seq<byte> := [117, 115, 101, 114, 45, 97, 103, 101, 110, 116]
  const ACCEPT_LANGUAGE: seq<byte> := [97, 99, 99, 101, 112, 116, 45, 108, 97, 110, 103, 117, 97, 103, 101]

  // ---- Header fields ----

  /** Whether a Connection value lists keep-alive. */
  predicate ListsKeepAlive(value: seq<byte>) {
    exists i | 0 <= i < |CommaSplit(value)| :: IsKeepAlive(CommaSplit(value)[i])
  }

  predicate IsKeepAlive(element: seq<byte>) {
    LowerAll(Trim(element)) == KEEP_ALIVE
  }

  /** The numbers accepted as a content length. */
  predicate IsLength(value: seq<byte>) {
    AllDigits(Trim(value)) && DigitsValue(Trim(value)) < 4294967280
  }

  function LengthOf(value: seq<byte>): (n: nat)
    requires IsLength(value)
  {
    DigitsValueGrows(Trim(value), 0);
    DigitsValue(Trim(value))
  }

  /** parser_parse_http_name_value */
  function NameValue(m: Machine, ring: seq<byte>): Outcome {
    var name := LowerAll(Part(ring, m.name));
    var value := Part(ring, m.value);
    if name == CONTENT_LENGTH then
      if !IsLength(value) then Failed(RequestInvalid)
      else if m.value.offset + m.value.size + LengthOf(value) > MAX_REQUEST_SIZE then Failed(ContentTooLarge)
      else Going(m.(remaining := LengthOf(value)))
    else if name == CONNECTION then Going(if ListsKeepAlive(value) then m.(keepAlive := true) else m)
    else if name == USER_AGENT then Going(m.(user := m.value))
    else if name == ACCEPT_LANGUAGE then Going(m.(acceptLanguage := m.value))
    else Going(m)
  }

  /** The inner loop of parser_parse_http_name_value: cuts the list element by element. */
  method FindKeepAlive(list: Value) returns (found: bool)
    ensures found <==> ListsKeepAlive(list.Bytes())
  {
    hide CommaSplit, CommaAt, Trim, LowerAll;
    found := false;
    var value := list;
    ghost var cut: seq<seq<byte>> := [];
    while true
      invariant cut + CommaSplit(value.Bytes()) == CommaSplit(list.Bytes())
             || (cut == CommaSplit(list.Bytes()) && value.Bytes() == [])
      invariant forall i | 0 <= i < |cut| :: !IsKeepAlive(cut[i])
      decreases |value.Bytes()|
    {
      ghost var s := value.Bytes();
      var current, more;
      value, current, more := ParseComma(value);
      var element := TrimValue(current);
      found := CompareCase(element, KEEP_ALIVE);
      EmptyIsNot();
      if cut + CommaSplit(s) == CommaSplit(list.Bytes()) { NextElement(cut, s, CommaSplit(list.Bytes())); }
      if found { return; }
      if !more { return; }
      cut := cut + [s[..CommaAt(s)]];
    }
  }

  lemma NextElement(cut: seq<seq<byte>>, s: seq<byte>, all: seq<seq<byte>>)
    requires cut + CommaSplit(s) == all
    ensures |cut| < |all| && all[|cut|] == s[..CommaAt(s)]
    ensures CommaAt(s) < |s| ==> cut + [s[..CommaAt(s)]] + CommaSplit(s[CommaAt(s) + 1..]) == all
    ensures CommaAt(s) == |s| ==> cut + [s[..CommaAt(s)]] == all
  {
    hide CommaAt;
    assert s[..|s|] == s;
    assert CommaSplit(s)[0] == s[..CommaAt(s)];
    if CommaAt(s) < |s| {
      assert CommaSplit(s) == [s[..CommaAt(s)]] + CommaSplit(s[CommaAt(s) + 1..]);
      assert cut + [s[..CommaAt(s)]] + CommaSplit(s[CommaAt(s) + 1..]) == cut + CommaSplit(s);
    }
  }

  lemma EmptyIsNot()
    ensures !IsKeepAlive([])
  {
    assert LowerAll(Trim([])) == [];
  }

  /** parser_parse_http_name_value on the ring; both spans lie inside, so reading them cannot fail. */
  method ParseNameValue(m: Machine, stream: Ring) returns (o: Outcome)
    requires stream.Valid()
    requires m.name.offset + m.name.size <= stream.size && m.value.offset + m.value.size <= stream.size
    ensures o == NameValue(m, stream.Content())
  {
    hide Unroll, ListsKeepAlive;
    var name := GetValue(stream, m.name);
    var value := GetValue(stream, m.value);
    var isLength := CompareCase(name, CONTENT_LENGTH);
    var isConnection := CompareCase(name, CONNECTION);
    var isUserAgent := CompareCase(name, USER_AGENT);
    var isLanguage := CompareCase(name, ACCEPT_LANGUAGE);
    if isLength {
      value := TrimValue(value);
      var ok, remaining := ToUint(value);
      if !ok { return Failed(RequestInvalid); }
      if m.value.offset + m.value.size + remaining > MAX_REQUEST_SIZE { return Failed(ContentTooLarge); }
      return Going(m.(remaining := remaining));
    } else if isConnection {
      var found := FindKeepAlive(value);
      return Going(if found then m.(keepAlive := true) else m);
    } else if isUserAgent {
      return Going(m.(user := m.value));
    } else if isLanguage {
      return Going(m.(acceptLanguage := m.value));
    }
    return Going(m);
  }

  // ---- The byte machine ----

  function Grow(l: Location): Location {
    Location(l.offset, l.size + 1)
  }

  /** Where the header ends: into the body if one was promised. */
  function AfterHeader(m: Machine): Machine {
    m.(state := if m.remaining > 0 then WaitContent else End)
  }

  /** The switch of parser_parse_http for one header byte; the position advances afterwards. */
  function Step(m: Machine, ring: seq<byte>, c: byte): (o: Outcome) {
    match m.state
    case WaitMethodBegin =>
      if IsSpace(c) then Going(m)
      else if IsTokenChar(c) then Going(m.(method_ := Location(m.streamSize, 1), state := WaitMethodEnd))
      else Failed(RequestInvalid)
    case WaitMethodEnd =>
      if IsSpace(c) then Going(m.(state := WaitResourceBegin))
      else if IsTokenChar(c) then Going(m.(method_ := Grow(m.method_)))
      else Failed(RequestInvalid)
    case WaitResourceBegin =>
      if IsSpace(c) then Going(m)
      else if IsResourceChar(c) then Going(m.(resource := Location(m.streamSize, 1), state := WaitResourceEnd))
      else Failed(RequestInvalid)
    case WaitResourceEnd =>
      if IsSpace(c) then Going(m.(state := WaitProtocolBegin))
      else if IsResourceChar(c) then Going(m.(resource := Grow(m.resource)))
      else Failed(RequestInvalid)
    case WaitProtocolBegin =>
      if IsSpace(c) then Going(m)
      else if IsProtocolChar(c) then Going(m.(protocol := Location(m.streamSize, 1), state := WaitProtocolEnd))
      else Failed(RequestInvalid)
    case WaitProtocolEnd =>
      if IsSpace(c) then Going(m.(state := WaitLineCr))
      else if IsProtocolChar(c) then Going(m.(protocol := Grow(m.protocol)))
      else if IsNewline(c) then LineEnd(m, c)
      else Failed(RequestInvalid)
    case WaitLineCr =>
      if IsSpace(c) then Going(m)
      else if IsNewline(c) then LineEnd(m, c)
      else Failed(RequestInvalid)
    case WaitLineLf =>
      if IsSpace(c) then Going(m.(toleratedCr := true, state := WaitNameBegin))
      else if IsTokenChar(c)
        then Going(m.(toleratedCr := true, name := Location(m.streamSize, 1), state := WaitNameEnd))
      else if c == CR then Going(AfterHeader(m.(toleratedCr := true)))
      else if c == LF then Going(m.(state := WaitNameBegin))
      else Going(m)
    case WaitNameBegin =>
      if IsSpace(c) then Going(m)
      else if IsTokenChar(c) then Going(m.(name := Location(m.streamSize, 1), state := WaitNameEnd))
      else if c == CR then Going(if m.toleratedCr then AfterHeader(m) else m.(state := WaitFinalLineLf))
      else if c == LF then Going(AfterHeader(m.(toleratedLf := true)))
      else Failed(RequestInvalid)
    case WaitNameEnd =>
      if IsSpace(c) then Going(m.(state := WaitColon))
      else if IsTokenChar(c) then Going(m.(name := Grow(m.name)))
      else if c == COLON then Going(m.(value := Location(m.streamSize + 1, 0), state := WaitValueEnd))
      else Failed(RequestInvalid)
    case WaitColon =>
      if IsSpace(c) then Going(m)
      else if c == COLON then Going(m.(value := Location(m.streamSize + 1, 0), state := WaitValueEnd))
      else Failed(RequestInvalid)
    case WaitValueEnd =>
      if IsValueChar(c) then Going(m.(value := Grow(m.value)))
      else if IsNewline(c) then
        match NameValue(m, ring)
        case Failed(e) => Failed(e)
        case Going(n) =>
          if c == CR then Going(n.(state := if n.toleratedCr then WaitNameBegin else WaitLineLf))
          else Going(n.(toleratedLf := true, state := WaitNameBegin))
      else Failed(RequestInvalid)
    case WaitFinalLineLf =>
      if c == LF then Going(AfterHeader(m)) else Failed(RequestInvalid)
    case _ => Going(m)
  }

  /** The request line ends with CR LF or, tolerated, with LF alone. */
  function LineEnd(m: Machine, c: byte): Outcome {
    if c == CR then Going(m.(state := WaitLineLf))
    else Going(m.(toleratedLf := true, state := WaitNameBegin))
  }

  function Enter(m: Machine): Machine {
    if m.state == Begin then m.(state := WaitMethodBegin) else m
  }

  /** States in which the byte-by-byte loop stops. */
  predicate Stopped(m: Machine) {
    m.state == WaitContent || m.state == End
  }

  /** The byte-by-byte loop: runs until the part is used up, the header ends or a byte is refused. */
  datatype Scan = Scan(o: Outcome, used: nat)

  function ScanHeader(m: Machine, ring: seq<byte>, part: seq<byte>): (r: Scan)
    ensures r.used <= |part|
    ensures r.o.Going? ==> r.used == |part| || Stopped(r.o.m)
    decreases |part|
  {
    if part == [] || Stopped(m) then Scan(Going(m), 0)
    else
      match Step(m, ring, part[0])
      case Failed(e) => Scan(Failed(e), 0)
      case Going(n) =>
        var r := ScanHeader(n.(streamSize := m.streamSize + 1), ring, part[1..]);
        r.(used := r.used + 1)
  }

  /** What happens to k > 0 more bytes of a part behind the header: a body is taken in bulk, other bytes are left
      alone if the connection is kept alive and refused otherwise. */
  function Finish(m: Machine, k: nat): Outcome
    requires Stopped(m)
  {
    if m.state == WaitContent then
      if k >= m.remaining then Going(m.(streamSize := m.streamSize + m.remaining, state := End))
      else Going(m.(streamSize := m.streamSize + k))
    else if m.keepAlive then Going(m)
    else Failed(RequestInvalid)
  }

  /** parser_parse_http on one contiguous part. */
  function RunPart(m: Machine, ring: seq<byte>, part: seq<byte>): Outcome {
    var r := ScanHeader(Enter(m), ring, part);
    if r.o.Failed? || r.used == |part| then r.o else Finish(r.o.m, |part| - r.used)
  }

  /** Failure stops the parser for good. */
  function Then(o: Outcome, ring: seq<byte>, part: seq<byte>): Outcome {
    if o.Going? then RunPart(o.m, ring, part) else o
  }

  // ---- Spans ----

  /** Every span lies in the parsed prefix; the span that is being read ends exactly at the cursor. */
  predicate SpansInside(m: Machine) {
    && m.method_.offset + m.method_.size <= m.streamSize
    && m.resource.offset + m.resource.size <= m.streamSize
    && m.protocol.offset + m.protocol.size <= m.streamSize
    && m.name.offset + m.name.size <= m.streamSize
    && m.value.offset + m.value.size <= m.streamSize
    && m.user.offset + m.user.size <= m.streamSize
    && m.acceptLanguage.offset + m.acceptLanguage.size <= m.streamSize
    && (m.state == WaitMethodEnd ==> m.method_.offset + m.method_.size == m.streamSize)
    && (m.state == WaitResourceEnd ==> m.resource.offset + m.resource.size == m.streamSize)
    && (m.state == WaitProtocolEnd ==> m.protocol.offset + m.protocol.size == m.streamSize)
    && (m.state == WaitNameEnd ==> m.name.offset + m.name.size == m.streamSize)
    && (m.state == WaitValueEnd ==> m.value.offset + m.value.size == m.streamSize)
  }

  lemma StepKeepsSpans(m: Machine, ring: seq<byte>, c: byte)
    requires SpansInside(m) && !Stopped(m) && m.state != Begin
    ensures var o := Step(m, ring, c);
      o.Going? ==>
        && o.m.streamSize == m.streamSize && SpansInside(o.m.(streamSize := m.streamSize + 1)) && o.m.state != Begin
  {
    hide Step, SpansInside;
    StepStays(m, ring, c);
    match m.state
    case WaitMethodBegin => MethodKeepsSpans(m, ring, c);
    case WaitMethodEnd => MethodKeepsSpans(m, ring, c);
    case WaitResourceBegin => MethodKeepsSpans(m, ring, c);
    case WaitResourceEnd => ProtocolKeepsSpans(m, ring, c);
    case WaitProtocolBegin => ProtocolKeepsSpans(m, ring, c);
    case WaitProtocolEnd => ProtocolKeepsSpans(m, ring, c);
    case WaitLineCr => ProtocolKeepsSpans(m, ring, c);
    case WaitLineLf => NameKeepsSpans(m, ring, c);
    case WaitNameBegin => NameKeepsSpans(m, ring, c);
    case _ => ValueKeepsSpans(m, ring, c);
  }

  lemma StepStays(m: Machine, ring: seq<byte>, c: byte)
    requires m.state != Begin
    ensures var o := Step(m, ring, c); o.Going? ==> o.m.streamSize == m.streamSize && o.m.state != Begin
  {
    hide NameValue, IsSpace, IsNewline, IsTokenChar, IsResourceChar, IsProtocolChar, IsValueChar;
    NameValueKeeps(m, ring);
  }

  lemma MethodKeepsSpans(m: Machine, ring: seq<byte>, c: byte)
    requires SpansInside(m) && m.state in {WaitMethodBegin, WaitMethodEnd, WaitResourceBegin}
    ensures var o := Step(m, ring, c); o.Going? ==> SpansInside(o.m.(streamSize := m.streamSize + 1))
  {
    hide NameValue, IsSpace, IsNewline, IsTokenChar, IsResourceChar, IsProtocolChar, IsValueChar;
  }

  lemma ProtocolKeepsSpans(m: Machine, ring: seq<byte>, c: byte)
    requires SpansInside(m) && m.state in {WaitResourceEnd, WaitProtocolBegin, WaitProtocolEnd, WaitLineCr}
    ensures var o := Step(m, ring, c); o.Going? ==> SpansInside(o.m.(streamSize := m.streamSize + 1))
  {
    hide NameValue, IsSpace, IsNewline, IsTokenChar, IsResourceChar, IsProtocolChar, IsValueChar;
  }

  lemma NameKeepsSpans(m: Machine, ring: seq<byte>, c: byte)
    requires SpansInside(m) && m.state in {WaitLineLf, WaitNameBegin}
    ensures var o := Step(m, ring, c); o.Going? ==> SpansInside(o.m.(streamSize := m.streamSize + 1))
  {
    hide NameValue, IsSpace, IsNewline, IsTokenChar, IsResourceChar, IsProtocolChar, IsValueChar;
  }

  lemma ValueKeepsSpans(m: Machine, ring: seq<byte>, c: byte)
    requires SpansInside(m) && m.state in {WaitNameEnd, WaitColon, WaitValueEnd, WaitFinalLineLf}
    ensures var o := Step(m, ring, c); o.Going? ==> SpansInside(o.m.(streamSize := m.streamSize + 1))
  {
    hide NameValue, IsSpace, IsNewline, IsTokenChar, IsResourceChar, IsProtocolChar, IsValueChar;
    NameValueKeeps(m, ring);
  }

  /** A header field only sets the promised length, the keep-alive flag or one of two recorded spans. */
  lemma NameValueKeeps(m: Machine, ring: seq<byte>)
    ensures var o := NameValue(m, ring);
      o.Going? ==>
        && o.m.user in [m.user, m.value] && o.m.acceptLanguage in [m.acceptLanguage, m.value]
        && o.m == m.(remaining := o.m.remaining, keepAlive := o.m.keepAlive, user := o.m.user,
          acceptLanguage := o.m.acceptLanguage)
        && (m.keepAlive ==> o.m.keepAlive)
        && (o.m.remaining != m.remaining ==> m.value.offset + m.value.size + o.m.remaining <= MAX_REQUEST_SIZE)
  {
    hide ListsKeepAlive, IsLength, LengthOf, Part, LowerAll;
  }

  lemma {:induction false} ScanKeepsSpans(m: Machine, ring: seq<byte>, part: seq<byte>)
    requires SpansInside(m) && m.state != Begin
    ensures var r := ScanHeader(m, ring, part);
      r.o.Going? ==> SpansInside(r.o.m) && r.o.m.streamSize == m.streamSize + r.used && r.o.m.state != Begin
    decreases |part|
  {
    hide Step, SpansInside;
    if part != [] && !Stopped(m) {
      StepKeepsSpans(m, ring, part[0]);
      var o := Step(m, ring, part[0]);
      if o.Going? { ScanKeepsSpans(o.m.(streamSize := m.streamSize + 1), ring, part[1..]); }
    }
  }

  /** Parsing a part keeps all spans inside the parsed prefix and never parses more than the part holds. */
  lemma RunKeepsSpans(m: Machine, ring: seq<byte>, part: seq<byte>)
    requires SpansInside(m)
    ensures var o := RunPart(m, ring, part);
      o.Going? ==> SpansInside(o.m) && m.streamSize <= o.m.streamSize <= m.streamSize + |part|
  {
    hide ScanHeader, SpansInside, Enter, Finish;
    EnterKeepsSpans(m);
    ScanKeepsSpans(Enter(m), ring, part);
    var r := ScanHeader(Enter(m), ring, part);
    if r.o.Going? && r.used < |part| { FinishKeepsSpans(r.o.m, |part| - r.used); }
  }

  lemma EnterKeepsSpans(m: Machine)
    requires SpansInside(m)
    ensures SpansInside(Enter(m)) && Enter(m).streamSize == m.streamSize && Enter(m).state != Begin
  {
  }

  lemma FinishKeepsSpans(m: Machine, k: nat)
    requires SpansInside(m) && Stopped(m)
    ensures var o := Finish(m, k); o.Going? ==> SpansInside(o.m) && m.streamSize <= o.m.streamSize <= m.streamSize + k
  {
  }

  // ---- The imperative parser ----

  /** The parser fields of a client. */
  class HttpParser {
    var m: Machine

    constructor ()
      ensures m == START
    {
      m := START;
    }

    /** The switch for a byte of the request line; false when the byte is refused. */
    method TakeRequestLine(c: byte) returns (ok: bool)
      requires m.state in {WaitMethodBegin, WaitMethodEnd, WaitResourceBegin, WaitResourceEnd, WaitProtocolBegin,
                           WaitProtocolEnd, WaitLineCr}
      modifies this
      ensures Step(old(m), [], c) == if ok then Going(m) else Failed(RequestInvalid)
    {
      hide IsTokenChar, IsResourceChar, IsProtocolChar, IsSpace, NameValue;
      if m.state == WaitMethodBegin {
        if IsSpace(c) { return true; }
        if !IsTokenChar(c) { return false; }
        m := m.(method_ := Location(m.streamSize, 1), state := WaitMethodEnd);
      } else if m.state == WaitMethodEnd {
        if IsSpace(c) { m := m.(state := WaitResourceBegin); return true; }
        if !IsTokenChar(c) { return false; }
        m := m.(method_ := Location(m.method_.offset, m.method_.size + 1));
      } else if m.state == WaitResourceBegin {
        if IsSpace(c) { return true; }
        if !IsResourceChar(c) { return false; }
        m := m.(resource := Location(m.streamSize, 1), state := WaitResourceEnd);
      } else if m.state == WaitResourceEnd {
        if IsSpace(c) { m := m.(state := WaitProtocolBegin); return true; }
        if !IsResourceChar(c) { return false; }
        m := m.(resource := Location(m.resource.offset, m.resource.size + 1));
      } else if m.state == WaitProtocolBegin {
        if IsSpace(c) { return true; }
        if !IsProtocolChar(c) { return false; }
        m := m.(protocol := Location(m.streamSize, 1), state := WaitProtocolEnd);
      } else if m.state == WaitProtocolEnd && IsSpace(c) {
        m := m.(state := WaitLineCr);
      } else if m.state == WaitProtocolEnd && IsProtocolChar(c) {
        m := m.(protocol := Location(m.protocol.offset, m.protocol.size + 1));
      } else if m.state == WaitLineCr && IsSpace(c) {
        return true;
      } else if c == CR {
        m := m.(state := WaitLineLf);
      } else if c == LF {
        m := m.(toleratedLf := true, state := WaitNameBegin);
      } else {
        return false;
      }
      return true;
    }

    /** The header is over. */
    method EndHeader()
      modifies this
      ensures m == AfterHeader(old(m))
    {
      if m.remaining > 0 { m := m.(state := WaitContent); } else { m := m.(state := End); }
    }

    /** The switch for a byte at the beginning of a line of the header, or in a field name. */
    method TakeName(c: byte) returns (ok: bool)
      requires m.state in {WaitLineLf, WaitNameBegin, WaitNameEnd, WaitColon, WaitFinalLineLf}
      modifies this
      ensures Step(old(m), [], c) == if ok then Going(m) else Failed(RequestInvalid)
    {
      hide IsTokenChar, IsSpace, NameValue;
      if m.state == WaitLineLf {
        if IsSpace(c) { m := m.(toleratedCr := true, state := WaitNameBegin); return true; }
        if IsTokenChar(c) {
          m := m.(toleratedCr := true, name := Location(m.streamSize, 1), state := WaitNameEnd);
        } else if c == CR {
          m := m.(toleratedCr := true);
          EndHeader();
        } else if c == LF {
          m := m.(state := WaitNameBegin);
        }
      } else if m.state == WaitNameBegin {
        if IsSpace(c) { return true; }
        if IsTokenChar(c) {
          m := m.(name := Location(m.streamSize, 1), state := WaitNameEnd);
        } else if c == CR {
          if !m.toleratedCr { m := m.(state := WaitFinalLineLf); } else { EndHeader(); }
        } else if c == LF {
          m := m.(toleratedLf := true);
          EndHeader();
        } else {
          return false;
        }
      } else if m.state == WaitFinalLineLf {
        if c != LF { return false; }
        EndHeader();
      } else {
        if IsSpace(c) { m := m.(state := WaitColon); return true; }
        if m.state == WaitNameEnd && IsTokenChar(c) {
          m := m.(name := Location(m.name.offset, m.name.size + 1));
        } else if c == COLON {
          m := m.(value := Location(m.streamSize + 1, 0), state := WaitValueEnd);
        } else {
          return false;
        }
      }
      return true;
    }

    /** The switch for a byte of a field value. */
    method TakeValue(stream: Ring, c: byte) returns (o: Outcome)
      requires stream.Valid() && SpansInside(m) && m.streamSize <= stream.size && m.state == WaitValueEnd
      modifies this
      ensures o == Step(old(m), stream.Content(), c)
      ensures o.Going? ==> m == o.m
    {
      hide NameValue;
      if IsValueChar(c) {
        m := m.(value := Location(m.value.offset, m.value.size + 1));
      } else if c == CR || c == LF {
        o := ParseNameValue(m, stream);
        if o.Failed? { return; }
        m := o.m;
        if c == LF { m := m.(toleratedLf := true, state := WaitNameBegin); }
        else if !m.toleratedCr { m := m.(state := WaitLineLf); }
        else { m := m.(state := WaitNameBegin); }
      } else {
        return Failed(RequestInvalid);
      }
      return Going(m);
    }

    /** One pass through the switch for a header byte. */
    method TakeByte(stream: Ring, c: byte) returns (o: Outcome)
      requires stream.Valid() && SpansInside(m) && m.streamSize <= stream.size
      requires !Stopped(m) && m.state != Begin
      modifies this
      ensures o == Step(old(m), stream.Content(), c)
      ensures o.Going? ==> m == o.m
    {
      hide SpansInside, Step;
      if m.state == WaitValueEnd {
        o := TakeValue(stream, c);
      } else {
        StepNeedsNoRing(m, stream.Content(), c);
        var ok;
        if m.state in {WaitLineLf, WaitNameBegin, WaitNameEnd, WaitColon, WaitFinalLineLf} { ok := TakeName(c); }
        else { ok := TakeRequestLine(c); }
        o := if ok then Going(m) else Failed(RequestInvalid);
      }
    }

    /** The loop of parser_parse_http as far as the header goes. */
    method ScanPart(stream: Ring, part: seq<byte>) returns (o: Outcome, p: nat)
      requires stream.Valid() && SpansInside(m) && m.state != Begin && m.streamSize + |part| <= stream.size
      modifies this
      ensures ScanHeader(old(m), stream.Content(), part) == Scan(o, p)
      ensures o.Going? ==> m == o.m
    {
      hide SpansInside, Step, Unroll, ScanHeader, Stopped;
      ghost var entered := m;
      ScanNothing(ScanHeader(m, stream.Content(), part));
      assert part[0..] == part;
      p := 0;
      while p < |part| && !Stopped(m)
        invariant 0 <= p <= |part|
        invariant SpansInside(m) && m.state != Begin && m.streamSize == entered.streamSize + p
        invariant ScanHeader(entered, stream.Content(), part) == Later(ScanHeader(m, stream.Content(), part[p..]), p)
      {
        var c := part[p];
        StepKeepsSpans(m, stream.Content(), c);
        ScanNext(m, stream.Content(), part, p);
        o := TakeByte(stream, c);
        if o.Failed? { return; }
        m := m.(streamSize := m.streamSize + 1);
        p := p + 1;
      }
      ScanStops(m, stream.Content(), part[p..]);
      o := Going(m);
    }

    /** parser_parse_http: feeds one contiguous part of the request stream. */
    method ParsePart(stream: Ring, part: seq<byte>) returns (o: Outcome)
      requires stream.Valid() && SpansInside(m) && m.streamSize + |part| <= stream.size
      modifies this
      ensures o == RunPart(old(m), stream.Content(), part)
      ensures o.Going? ==> m == o.m
    {
      hide SpansInside, Step, Unroll, ScanHeader;
      EnterKeepsSpans(m);
      m := Enter(m);
      var p;
      o, p := ScanPart(stream, part);
      if o.Failed? || p == |part| { return; }
      if m.state == WaitContent {
        var availableContent := |part| - p;
        if availableContent >= m.remaining {
          m := m.(streamSize := m.streamSize + m.remaining, state := End);
        } else {
          m := m.(streamSize := m.streamSize + availableContent);
        }
        return Going(m);
      }
      if !m.keepAlive { return Failed(RequestInvalid); }
      return Going(m);
    }

    /** parser_parse: feeds what is new in the request stream, part by part, up to the size limit. */
    method Parse(stream: Ring) returns (o: Outcome, ghost split: nat)
      requires stream.Valid() && SpansInside(m) && m.streamSize <= Min(stream.size, MAX_REQUEST_SIZE)
      modifies this
      ensures split <= Min(stream.size, MAX_REQUEST_SIZE) - old(m).streamSize
      ensures o == RunStream(old(m), stream.Content(), split)
      ensures o.Going? ==> m == o.m && SpansInside(m) && m.streamSize <= Min(stream.size, MAX_REQUEST_SIZE)
    {
      hide SpansInside, Step, Unroll, ScanHeader;
      var limit := if stream.size >= MAX_REQUEST_SIZE then MAX_REQUEST_SIZE else stream.size;
      var r, spans := stream.Get(Location(m.streamSize, limit - m.streamSize), false);
      var parts := spans.View(stream.p[..]);
      ghost var content := stream.Content();
      split := |parts.part0|;
      assert content[m.streamSize..limit] == parts.part0 + parts.part1;
      assert content[m.streamSize..limit][..split] == parts.part0;
      assert content[m.streamSize..limit][split..] == parts.part1;
      RunKeepsSpans(m, content, parts.part0);
      o := ParsePart(stream, parts.part0);
      if o.Failed? { return; }
      RunKeepsSpans(m, content, parts.part1);
      o := ParsePart(stream, parts.part1);
      if o.Failed? { return; }
      if stream.size >= MAX_REQUEST_SIZE && m.state != End { o := Failed(HeaderTooLarge); }
    }
  }

  /** Only the end of a field value looks back into the ring. */
  lemma StepNeedsNoRing(m: Machine, ring: seq<byte>, c: byte)
    requires m.state != WaitValueEnd
    ensures Step(m, ring, c) == Step(m, [], c)
  {
    hide NameValue, IsSpace, IsNewline, IsTokenChar, IsResourceChar, IsProtocolChar, IsValueChar;
  }

  function Later(r: Scan, p: nat): Scan {
    r.(used := r.used + p)
  }

  lemma ScanNothing(r: Scan)
    ensures Later(r, 0) == r
  {
  }

  lemma ScanStops(m: Machine, ring: seq<byte>, rest: seq<byte>)
    requires rest == [] || Stopped(m)
    ensures ScanHeader(m, ring, rest) == Scan(Going(m), 0)
  {
  }

  lemma ScanNext(m: Machine, ring: seq<byte>, part: seq<byte>, p: nat)
    requires p < |part| && !Stopped(m)
    ensures var o := Step(m, ring, part[p]);
      Later(ScanHeader(m, ring, part[p..]), p)
        == if o.Failed? then Scan(o, p)
          else Later(ScanHeader(o.m.(streamSize := m.streamSize + 1), ring, part[p + 1..]), p + 1)
  {
    hide Step;
    assert part[p..][0] == part[p] && part[p..][1..] == part[p + 1..];
  }

  /** parser_parse: the unparsed bytes below the size limit come in two parts, cut where the ring wraps. */
  function RunStream(m: Machine, ring: seq<byte>, split: nat): Outcome
    requires m.streamSize + split <= Min(|ring|, MAX_REQUEST_SIZE)
  {
    var news := ring[m.streamSize..Min(|ring|, MAX_REQUEST_SIZE)];
    var o := Then(RunPart(m, ring, news[..split]), ring, news[split..]);
    if o.Going? && |ring| >= MAX_REQUEST_SIZE && o.m.state != End then Failed(HeaderTooLarge) else o
  }
}
