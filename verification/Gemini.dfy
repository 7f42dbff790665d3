/** gemini_parser.c: the one-line requests of Gemini, Guppy and Text. */
module Gemini {
  import opened Bytes
  import opened Values
  import opened Rings
  import opened Http

  // "gemini://", "guppy://" and "text://"
  const GEMINI: seq<byte> := [103, 101, 109, 105, 110, 105, 58, 47, 47]
  const GUPPY: seq<byte> := [103, 117, 112, 112, 121, 58, 47, 47]
  const TEXT: seq<byte> := [116, 101, 120, 116, 58, 47, 47]

  const SCHEMES := [GEMINI, GUPPY, TEXT]

  const SLASH: byte := 47

  /** A host name, or a port behind it. */
  predicate IsHostChar(c: byte) {
    IsAlnum(c) || c == 45 || c == 46 || c == COLON
  }

  // ---- The machine ----

  /** The switch of parser_parse_gemini_like; the position advances afterwards. */
  function Take(protocol: seq<byte>, m: Machine, c: byte): (o: Outcome) {
    match m.state
    case WaitProtocolEnd =>
      if m.protocol.size < |protocol| && c == protocol[m.protocol.size] then
        var n := m.(protocol := Grow(m.protocol));
        Going(
          if n.protocol.size == |protocol| then
            n.(method_ := Location(|protocol|, m.method_.size), state := WaitMethodEnd)
          else n)
      else Failed(RequestInvalid)
    case WaitMethodEnd =>
      if IsHostChar(c) then Going(m.(method_ := Grow(m.method_)))
      else if c == SLASH then Going(m.(resource := Location(m.streamSize, 1), state := WaitResourceEnd))
      else LineEnding(m, c)
    case WaitResourceEnd =>
      if IsResourceChar(c) then Going(m.(resource := Grow(m.resource)))
      else LineEnding(m, c)
    case WaitFinalLineLf =>
      if c == LF then Going(m.(state := End)) else Failed(RequestInvalid)
    case _ => Failed(RequestInvalid)
  }

  function LineEnding(m: Machine, c: byte): Outcome {
    if c == CR then Going(m.(state := WaitFinalLineLf))
    else if c == LF then Going(m.(toleratedLf := true, state := End))
    else Failed(RequestInvalid)
  }

  function Begun(m: Machine): Machine {
    if m.state == Begin then m.(state := WaitProtocolEnd) else m
  }

  /** The loop: every byte of a part, until one is refused. */
  function Feed(protocol: seq<byte>, m: Machine, part: seq<byte>): Outcome
    decreases |part|
  {
    if part == [] then Going(m)
    else
      match Take(protocol, m, part[0])
      case Failed(e) => Failed(e)
      case Going(n) => Feed(protocol, n.(streamSize := m.streamSize + 1), part[1..])
  }

  /** parser_parse_gemini_like on one part. */
  function FeedPart(protocol: seq<byte>, m: Machine, part: seq<byte>): Outcome {
    Feed(protocol, Begun(m), part)
  }

  function FeedNext(protocol: seq<byte>, o: Outcome, part: seq<byte>): Outcome {
    if o.Going? then FeedPart(protocol, o.m, part) else o
  }

  // ---- Receive sizes and ring wrap do not matter ----

  lemma {:induction false} FeedConcat(protocol: seq<byte>, m: Machine, a: seq<byte>, b: seq<byte>)
    ensures Feed(protocol, m, a + b) == (var o := Feed(protocol, m, a); if o.Going? then Feed(protocol, o.m, b) else o)
    decreases |a|
  {
    hide Take;
    if a == [] {
      assert a + b == b;
    } else {
      assert (a + b)[0] == a[0] && (a + b)[1..] == a[1..] + b;
      var o := Take(protocol, m, a[0]);
      if o.Going? { FeedConcat(protocol, o.m.(streamSize := m.streamSize + 1), a[1..], b); }
    }
  }

  lemma {:induction false} FeedHasBegun(protocol: seq<byte>, m: Machine, a: seq<byte>)
    requires m.state != Begin
    ensures Feed(protocol, m, a).Going? ==> Feed(protocol, m, a).m.state != Begin
    decreases |a|
  {
    if a != [] {
      var o := Take(protocol, m, a[0]);
      if o.Going? { FeedHasBegun(protocol, o.m.(streamSize := m.streamSize + 1), a[1..]); }
    }
  }

  /** Every cut, in every state: parsing a and then b is parsing a + b. */
  lemma CutsDoNotMatter(protocol: seq<byte>, m: Machine, a: seq<byte>, b: seq<byte>)
    ensures FeedNext(protocol, FeedPart(protocol, m, a), b) == FeedPart(protocol, m, a + b)
  {
    hide Feed;
    FeedConcat(protocol, Begun(m), a, b);
    FeedHasBegun(protocol, Begun(m), a);
  }

  // ---- Which lines are requests ----

  /** protocol ++ method ++ resource ++ newline */
  datatype Line = Line(method_: seq<byte>, resource: seq<byte>, newline: seq<byte>)

  function Text(protocol: seq<byte>, l: Line): seq<byte> {
    protocol + l.method_ + l.resource + l.newline
  }

  /** Letters, digits, hyphens, dots and colons. */
  predicate IsHost(s: seq<byte>) {
    forall i | 0 <= i < |s| :: 65 <= s[i] <= 90 || 97 <= s[i] <= 122 || 48 <= s[i] <= 58 || s[i] == 45 || s[i] == 46
  }

  /** A slash and printable ASCII characters. */
  predicate IsPath(s: seq<byte>) {
    s == [] || (s[0] == 47 && forall i | 0 <= i < |s| :: 33 <= s[i] <= 126)
  }

  predicate IsLine(l: Line) {
    IsHost(l.method_) && IsPath(l.resource) && (l.newline == [10] || l.newline == [13, 10])
  }

  lemma SchemeTexts()
    ensures SCHEMES == [Ascii("gemini://"), Ascii("guppy://"), Ascii("text://")]
  {
    assert Ascii("gemini://") == GEMINI && Ascii("guppy://") == GUPPY && Ascii("text://") == TEXT;
  }

  /** The machine that has read exactly this much of a line. */
  function MachineOf(protocol: seq<byte>, l: Line, state: ParserState): Machine {
    START.(state := state, toleratedLf := l.newline == [LF], streamSize := |Text(protocol, l)|,
           protocol := Location(0, |protocol|), method_ := Location(|protocol|, |l.method_|),
           resource := if l.resource == [] then NOWHERE else Location(|protocol| + |l.method_|, |l.resource|))
  }

  /** Having read s, the machine is m and the line so far is l. */
  predicate Describes(protocol: seq<byte>, s: seq<byte>, m: Machine, l: Line) {
    if m.state == WaitProtocolEnd then
      && |s| < |protocol| && s == protocol[..|s|] && l == Line([], [], [])
      && m == START.(state := WaitProtocolEnd, protocol := Location(0, |s|), streamSize := |s|)
    else
      && s == Text(protocol, l) && m == MachineOf(protocol, l, m.state)
      && IsHost(l.method_) && IsPath(l.resource)
      && match m.state
         case WaitMethodEnd => l.resource == [] && l.newline == []
         case WaitResourceEnd => l.resource != [] && l.newline == []
         case WaitFinalLineLf => l.newline == [CR]
         case End => IsLine(l)
         case _ => false
  }

  /** The line grows by the byte that was read. */
  function Extended(state: ParserState, l: Line, c: byte): Line {
    match state
    case WaitMethodEnd =>
      if IsHostChar(c) then l.(method_ := l.method_ + [c])
      else if c == SLASH then l.(resource := [c])
      else l.(newline := [c])
    case WaitResourceEnd => if IsResourceChar(c) then l.(resource := l.resource + [c]) else l.(newline := [c])
    case WaitFinalLineLf => l.(newline := l.newline + [c])
    case _ => l
  }

  lemma TakeDescribes(protocol: seq<byte>, s: seq<byte>, m: Machine, l: Line, c: byte)
    requires Describes(protocol, s, m, l) && Take(protocol, m, c).Going?
    ensures Describes(protocol, s + [c], Take(protocol, m, c).m.(streamSize := m.streamSize + 1),
      Extended(m.state, l, c))
  {
    var k := Extended(m.state, l, c);
    if m.state == WaitProtocolEnd {
      assert s + [c] == protocol[..|s| + 1];
      assert protocol[..|protocol|] + [] + [] + [] == protocol;
    } else {
      TextGrows(protocol, m.state, l, c);
    }
  }

  lemma TextGrows(protocol: seq<byte>, state: ParserState, l: Line, c: byte)
    requires state == WaitMethodEnd ==> l.resource == [] && l.newline == []
    requires state == WaitResourceEnd ==> l.newline == []
    requires state in {WaitMethodEnd, WaitResourceEnd, WaitFinalLineLf}
    ensures Text(protocol, Extended(state, l, c)) == Text(protocol, l) + [c]
  {
    if state == WaitMethodEnd {
      assert l.method_ + [c] + [] + [] == l.method_ + [] + [] + [c];
    } else if state == WaitResourceEnd {
      assert l.resource + [c] + [] == l.resource + [] + [c];
    }
  }

  lemma {:induction false} FeedDescribes(protocol: seq<byte>, s: seq<byte>, m: Machine, l: Line, rest: seq<byte>)
    returns (k: Line)
    requires Describes(protocol, s, m, l)
    ensures var o := Feed(protocol, m, rest); o.Going? ==> Describes(protocol, s + rest, o.m, k)
    decreases |rest|
  {
    hide Describes, Take, Extended;
    k := l;
    if rest == [] {
      assert s + rest == s;
    } else {
      var o := Take(protocol, m, rest[0]);
      if o.Going? {
        TakeDescribes(protocol, s, m, l, rest[0]);
        k := FeedDescribes(protocol, s + [rest[0]], o.m.(streamSize := m.streamSize + 1), Extended(m.state, l, rest[0]),
          rest[1..]);
        assert s + [rest[0]] + rest[1..] == s + rest;
      }
    }
  }

  /** Some bytes that complete what has been read to a request. */
  lemma Completes(protocol: seq<byte>, s: seq<byte>, m: Machine, l: Line) returns (full: Line)
    requires Describes(protocol, s, m, l)
    ensures IsLine(full) && s <= Text(protocol, full)
  {
    if m.state == WaitProtocolEnd {
      full := Line([], [], [LF]);
      assert Text(protocol, full)[..|s|] == s;
    } else if m.state == End {
      full := l;
    } else {
      full := l.(newline := l.newline + [LF]);
      assert Text(protocol, full) == Text(protocol, l) + [LF];
    }
  }

  /** Where the pieces of a line lie in its text, and what they are made of. */
  predicate Pieces(t: seq<byte>, p: nat, q: nat, r: nat) {
    && p <= q <= r <= |t|
    && (forall i | p <= i < q :: IsHostChar(t[i]))
    && (forall i | q <= i < r :: IsResourceChar(t[i]))
    && (q < r ==> t[q] == SLASH)
  }

  lemma TextHasPieces(protocol: seq<byte>, l: Line)
    requires IsHost(l.method_) && IsPath(l.resource)
    ensures var p, q, r := |protocol|, |protocol| + |l.method_|, |protocol| + |l.method_| + |l.resource|;
      var t := Text(protocol, l);
      Pieces(t, p, q, r) && r <= |t| && t[..p] == protocol && t[r..] == l.newline
  {
    var p, q, r := |protocol|, |protocol| + |l.method_|, |protocol| + |l.method_| + |l.resource|;
    var t := Text(protocol, l);
    assert forall i | p <= i < q :: t[i] == l.method_[i - p];
    assert forall i | q <= i < r :: t[i] == l.resource[i - q];
    assert t[..p] == protocol && t[r..] == l.newline;
  }

  lemma CharClasses(c: byte)
    ensures IsHostChar(c) ==> c != SLASH && c != CR && c != LF
    ensures IsResourceChar(c) ==> c != CR && c != LF
    ensures IsResourceChar(SLASH)
  {
  }

  /** The piece a prefix ends in is the same in every line that continues it. */
  lemma SameMethod(t: seq<byte>, p: nat, q: nat, r: nat, q1: nat)
    requires Pieces(t, p, q, r) && r < |t| && (t[r] == CR || t[r] == LF)
    requires p <= q1 < |t| && forall i | p <= i < q1 :: IsHostChar(t[i])
    ensures q1 <= q
    ensures t[q1] == SLASH ==> q1 == q && q < r
  {
    hide IsHostChar, IsResourceChar;
    CharClasses(t[r]);
    CharClasses(t[q]);
    CharClasses(t[q1]);
  }

  lemma MethodIsTaken(t: seq<byte>, p: nat, q: nat, r: nat, k: nat)
    requires Pieces(t, p, q, r) && r < |t| && (t[r] == CR || t[r] == LF)
    requires p <= k < |t| && forall i | p <= i < k :: IsHostChar(t[i])
    ensures IsHostChar(t[k]) || t[k] == SLASH || t[k] == CR || t[k] == LF
  {
    hide IsHostChar, IsResourceChar;
    SameMethod(t, p, q, r, k);
  }

  lemma ResourceIsTaken(t: seq<byte>, p: nat, q: nat, r: nat, q1: nat, k: nat)
    requires Pieces(t, p, q, r) && r < |t| && (t[r] == CR || t[r] == LF)
    requires p <= q1 < k < |t| && forall i | p <= i < q1 :: IsHostChar(t[i])
    requires t[q1] == SLASH && forall i | q1 <= i < k :: IsResourceChar(t[i])
    ensures IsResourceChar(t[k]) || t[k] == CR || t[k] == LF
  {
    hide IsHostChar, IsResourceChar;
    SameMethod(t, p, q, r, q1);
    CharClasses(t[r]);
  }

  /** No newline before the end of a line. */
  lemma NewlineIsLast(t: seq<byte>, p: nat, q: nat, r: nat, k: nat)
    requires Pieces(t, p, q, r) && p <= k < |t| && (t[k] == CR || t[k] == LF)
    ensures r <= k
  {
    hide IsHostChar, IsResourceChar;
    CharClasses(t[k]);
  }

  /** No byte of a request is refused. */
  lemma LineIsTaken(protocol: seq<byte>, s: seq<byte>, m: Machine, l: Line, full: Line)
    requires IsLine(full) && Describes(protocol, s, m, l)
    requires |s| < |Text(protocol, full)| && s == Text(protocol, full)[..|s|]
    ensures Take(protocol, m, Text(protocol, full)[|s|]).Going?
  {
    hide IsHostChar, IsResourceChar, Pieces, IsHost, IsPath, Text;
    var t, k := Text(protocol, full), |s|;
    var p, q, r := |protocol|, |protocol| + |full.method_|, |protocol| + |full.method_| + |full.resource|;
    TextHasPieces(protocol, full);
    LineEnd(t, r, full);
    if m.state == WaitProtocolEnd {
      assert t[k] == t[..p][k];
    } else {
      PrefixPieces(protocol, s, l, t);
      if m.state == WaitMethodEnd {
        MethodIsTaken(t, p, q, r, k);
      } else if m.state == WaitResourceEnd {
        ResourceIsTaken(t, p, q, r, p + |l.method_|, k);
      } else {
        NewlineIsLast(t, p, q, r, k - 1);
      }
    }
  }

  lemma LineEnd(t: seq<byte>, r: nat, full: Line)
    requires IsLine(full) && r <= |t| && t[r..] == full.newline
    ensures r < |t| && (t[r] == CR || t[r] == LF)
    ensures t[r] == LF ==> |t| == r + 1
    ensures t[r] == CR ==> |t| == r + 2 && t[r + 1] == LF
  {
    hide IsHost, IsPath;
    assert t[r] == t[r..][0];
    if full.newline == [CR, LF] { assert t[r + 1] == t[r..][1]; }
  }

  /** What the line so far says about every text that continues it. */
  lemma PrefixPieces(protocol: seq<byte>, s: seq<byte>, l: Line, t: seq<byte>)
    requires IsHost(l.method_) && IsPath(l.resource) && s == Text(protocol, l)
    requires |s| <= |t| && s == t[..|s|]
    ensures var p, q, r := |protocol|, |protocol| + |l.method_|, |protocol| + |l.method_| + |l.resource|;
      && r + |l.newline| == |s|
      && (forall i | p <= i < q :: IsHostChar(t[i])) && (forall i | q <= i < r :: IsResourceChar(t[i]))
      && (q < r ==> t[q] == SLASH)
      && (l.newline != [] ==> t[|s| - 1] == l.newline[|l.newline| - 1])
  {
    hide IsHostChar, IsResourceChar, IsHost, IsPath;
    TextHasPieces(protocol, l);
    assert forall i | 0 <= i < |s| :: s[i] == t[i];
    assert l.newline != [] ==> s[|s| - 1] == s[|s| - |l.newline|..][|l.newline| - 1];
  }

  // ---- Main results ----

  lemma {:induction false} LineIsRead(protocol: seq<byte>, full: Line, k: nat)
    requires protocol != [] && IsLine(full) && k <= |Text(protocol, full)|
    ensures FeedPart(protocol, START, Text(protocol, full)[..k]).Going?
  {
    hide Describes, Take, Text, Feed;
    var t := Text(protocol, full);
    if k > 0 {
      LineIsRead(protocol, full, k - 1);
      var m := Feed(protocol, Begun(START), t[..k - 1]).m;
      var l := Describe(protocol, t[..k - 1]);
      LineIsTaken(protocol, t[..k - 1], m, l, full);
      assert t[..k] == t[..k - 1] + [t[k - 1]];
      FeedConcat(protocol, Begun(START), t[..k - 1], [t[k - 1]]);
      FeedOne(protocol, m, t[k - 1]);
    } else {
      FeedNone(protocol, Begun(START), t[..0]);
    }
  }

  lemma FeedNone(protocol: seq<byte>, m: Machine, none: seq<byte>)
    requires none == []
    ensures Feed(protocol, m, none) == Going(m)
  {
  }

  lemma FeedOne(protocol: seq<byte>, m: Machine, c: byte)
    requires Take(protocol, m, c).Going?
    ensures Feed(protocol, m, [c]).Going?
  {
    hide Take;
    FeedNone(protocol, Take(protocol, m, c).m.(streamSize := m.streamSize + 1), [c][1..]);
  }

  lemma Describe(protocol: seq<byte>, s: seq<byte>) returns (l: Line)
    requires protocol != []
    ensures var o := FeedPart(protocol, START, s); o.Going? ==> Describes(protocol, s, o.m, l)
  {
    assert [] == protocol[..0];
    l := FeedDescribes(protocol, [], Begun(START), Line([], [], []), s);
    assert [] + s == s;
  }

  /** The parser refuses a byte exactly when no request begins like this. */
  lemma RefusesExactly(protocol: seq<byte>, s: seq<byte>)
    requires protocol != []
    ensures FeedPart(protocol, START, s).Going? <==> exists l: Line :: IsLine(l) && s <= Text(protocol, l)
  {
    hide Describes, Feed, Text, IsLine;
    if FeedPart(protocol, START, s).Going? {
      var l := Describe(protocol, s);
      var full := Completes(protocol, s, FeedPart(protocol, START, s).m, l);
    }
    if l: Line :| IsLine(l) && s <= Text(protocol, l) {
      LineIsRead(protocol, l, |s|);
      assert Text(protocol, l)[..|s|] == s;
    }
  }

  /** A request of one protocol is refused by the parser of another. */
  lemma SchemesApart(p: seq<byte>, q: seq<byte>, l: Line)
    requires p in SCHEMES && q in SCHEMES && p != q && IsLine(l)
    ensures FeedPart(q, START, Text(p, l)).Failed?
  {
    hide IsLine, FeedPart, Text;
    var s := Text(p, l);
    RefusesExactly(q, s);
    StartsWith(p, l);
    forall k: Line
      ensures |Text(q, k)| >= 2 && Text(q, k)[0] == q[0] && Text(q, k)[1] == q[1]
    {
      StartsWith(q, k);
    }
    assert p[0] != q[0] || p[1] != q[1];
  }

  lemma StartsWith(protocol: seq<byte>, l: Line)
    requires |protocol| >= 2
    ensures |Text(protocol, l)| >= 2 && Text(protocol, l)[0] == protocol[0] && Text(protocol, l)[1] == protocol[1]
  {
  }

  /** The parser is done exactly when it has read protocol ++ method ++ resource ++ newline, and then its spans are
      those pieces and its length is that of the line. */
  lemma AcceptsExactly(protocol: seq<byte>, s: seq<byte>)
    requires protocol != []
    ensures var o := FeedPart(protocol, START, s);
      && ((o.Going? && o.m.state == End) <==> exists l: Line :: IsLine(l) && s == Text(protocol, l))
      && forall l: Line | IsLine(l) && s == Text(protocol, l) :: o == Going(MachineOf(protocol, l, End))
  {
    hide Describes, Feed, Text, IsLine;
    var o := FeedPart(protocol, START, s);
    var k := Describe(protocol, s);
    if o.Going? && o.m.state == End { EndDescribes(protocol, s, o.m, k); }
    forall l: Line | IsLine(l) && s == Text(protocol, l)
      ensures o == Going(MachineOf(protocol, l, End))
    {
      LineIsRead(protocol, l, |s|);
      assert s[..|s|] == s;
      SameLine(protocol, s, o.m, k, l);
    }
  }

  lemma EndDescribes(protocol: seq<byte>, s: seq<byte>, m: Machine, l: Line)
    requires Describes(protocol, s, m, l) && m.state == End
    ensures IsLine(l) && s == Text(protocol, l) && m == MachineOf(protocol, l, End)
  {
  }

  lemma SamePieces(t: seq<byte>, p: nat, q: nat, r: nat, q1: nat, r1: nat)
    requires Pieces(t, p, q, r) && r < |t| && (t[r] == CR || t[r] == LF)
    requires Pieces(t, p, q1, r1) && r1 < |t| && (t[r1] == CR || t[r1] == LF)
    ensures q == q1 && r == r1
  {
    hide IsHostChar, IsResourceChar;
    NewlineIsLast(t, p, q, r, r1);
    NewlineIsLast(t, p, q1, r1, r);
    SameMethod(t, p, q, r, q1);
    SameMethod(t, p, q1, r1, q);
  }

  /** The machine that has read a whole line is at its end, with the spans of that line: the pieces are unique. */
  lemma SameLine(protocol: seq<byte>, s: seq<byte>, m: Machine, k: Line, l: Line)
    requires Describes(protocol, s, m, k) && IsLine(l) && s == Text(protocol, l)
    ensures m == MachineOf(protocol, l, End)
  {
    hide IsHostChar, IsResourceChar, Pieces, Text, IsHost, IsPath;
    var p, q, r := |protocol|, |protocol| + |l.method_|, |protocol| + |l.method_| + |l.resource|;
    TextHasPieces(protocol, l);
    LineEnd(s, r, l);
    TextLength(protocol, l);
    if m.state != WaitProtocolEnd {
      var q1, r1 := p + |k.method_|, p + |k.method_| + |k.resource|;
      TextHasPieces(protocol, k);
      TextLength(protocol, k);
      if m.state != End {
        LastOfNewline(s, r1, k.newline);
        NotYet(s, p, q1, r1, r);
      } else {
        LineEnd(s, r1, k);
        SamePieces(s, p, q, r, q1, r1);
      }
    }
  }

  lemma LastOfNewline(t: seq<byte>, r: nat, newline: seq<byte>)
    requires r <= |t| && t[r..] == newline
    ensures newline != [] ==> t[|t| - 1] == newline[|newline| - 1]
  {
  }

  lemma TextLength(protocol: seq<byte>, l: Line)
    ensures |Text(protocol, l)| == |protocol| + |l.method_| + |l.resource| + |l.newline|
  {
  }

  /** A text without a newline behind its pieces has none at all. */
  lemma NotYet(t: seq<byte>, p: nat, q: nat, r: nat, k: nat)
    requires Pieces(t, p, q, r) && p <= k < |t| && (t[k] == CR || t[k] == LF)
    ensures r < |t|
  {
    hide IsHostChar, IsResourceChar;
    NewlineIsLast(t, p, q, r, k);
  }

  // ---- The imperative parser ----

  /** While the protocol is read, it is not yet complete, so the byte compared with exists. */
  predicate Safe(protocol: seq<byte>, m: Machine) {
    m.state == Begin || m.state == WaitProtocolEnd ==> m.protocol.size < |protocol|
  }

  lemma {:induction false} FeedCounts(protocol: seq<byte>, m: Machine, part: seq<byte>)
    requires Safe(protocol, m)
    ensures var o := Feed(protocol, m, part);
      o.Going? ==> o.m.streamSize == m.streamSize + |part| && Safe(protocol, o.m)
    decreases |part|
  {
    if part != [] {
      var o := Take(protocol, m, part[0]);
      if o.Going? { FeedCounts(protocol, o.m.(streamSize := m.streamSize + 1), part[1..]); }
    }
  }

  /** parser_parse: what is new in the request stream is parsed up to the size limit, in one piece for all one can
      tell. */
  function FeedStream(protocol: seq<byte>, m: Machine, ring: seq<byte>): Outcome
    requires m.streamSize <= Min(|ring|, MAX_REQUEST_SIZE)
  {
    var o := FeedPart(protocol, m, ring[m.streamSize..Min(|ring|, MAX_REQUEST_SIZE)]);
    if o.Going? && |ring| >= MAX_REQUEST_SIZE && o.m.state != End then Failed(HeaderTooLarge) else o
  }

  class LineParser {
    const protocol: seq<byte>
    var m: Machine

    constructor (protocol: seq<byte>)
      requires protocol != []
      ensures this.protocol == protocol && m == START && Safe(protocol, m)
    {
      this.protocol := protocol;
      m := START;
    }

    /** One pass through the switch; false when the byte is refused. */
    method TakeByte(c: byte) returns (ok: bool)
      requires Safe(protocol, m)
      modifies this
      ensures Take(protocol, old(m), c) == if ok then Going(m) else Failed(RequestInvalid)
    {
      hide IsHostChar, IsResourceChar;
      match m.state {
        case WaitProtocolEnd =>
          if c != protocol[m.protocol.size] { return false; }
          m := m.(protocol := Location(m.protocol.offset, m.protocol.size + 1));
          if m.protocol.size == |protocol| {
            m := m.(method_ := Location(|protocol|, m.method_.size), state := WaitMethodEnd);
          }
        case WaitMethodEnd =>
          if IsHostChar(c) { m := m.(method_ := Location(m.method_.offset, m.method_.size + 1)); }
          else if c == SLASH { m := m.(resource := Location(m.streamSize, 1), state := WaitResourceEnd); }
          else if c == CR { m := m.(state := WaitFinalLineLf); }
          else if c == LF { m := m.(toleratedLf := true, state := End); }
          else { return false; }
        case WaitResourceEnd =>
          if IsResourceChar(c) { m := m.(resource := Location(m.resource.offset, m.resource.size + 1)); }
          else if c == CR { m := m.(state := WaitFinalLineLf); }
          else if c == LF { m := m.(toleratedLf := true, state := End); }
          else { return false; }
        case WaitFinalLineLf =>
          if c != LF { return false; }
          m := m.(state := End);
        case _ =>
          return false;
      }
      return true;
    }

    /** parser_parse_gemini_like */
    method ParsePart(part: seq<byte>) returns (o: Outcome)
      requires Safe(protocol, m)
      modifies this
      ensures o == FeedPart(protocol, old(m), part)
      ensures o.Going? ==> m == o.m
    {
      hide Take;
      if m.state == Begin { m := m.(state := WaitProtocolEnd); }
      ghost var begun := m;
      var p := 0;
      assert part[0..] == part;
      while p < |part|
        invariant 0 <= p <= |part| && Safe(protocol, m)
        invariant Feed(protocol, begun, part) == Feed(protocol, m, part[p..])
      {
        ghost var before, rest := m, part[p..];
        assert rest[0] == part[p] && rest[1..] == part[p + 1..];
        var ok := TakeByte(part[p]);
        if !ok { return Failed(RequestInvalid); }
        m := m.(streamSize := m.streamSize + 1);
        TakeCounts(protocol, before, part[p]);
        p := p + 1;
      }
      FeedNone(protocol, m, part[p..]);
      return Going(m);
    }

    /** parser_parse: both parts of what is new, however the ring wraps. */
    method Parse(stream: Ring) returns (o: Outcome)
      requires stream.Valid() && Safe(protocol, m) && m.streamSize <= Min(stream.size, MAX_REQUEST_SIZE)
      modifies this
      ensures o == FeedStream(protocol, old(m), stream.Content())
      ensures o.Going? ==> m == o.m && Safe(protocol, m) && m.streamSize == Min(stream.size, MAX_REQUEST_SIZE)
    {
      hide Take, Feed, Unroll, Safe;
      var limit := if stream.size >= MAX_REQUEST_SIZE then MAX_REQUEST_SIZE else stream.size;
      var r, spans := stream.Get(Location(m.streamSize, limit - m.streamSize), false);
      var parts := spans.View(stream.p[..]);
      assert stream.Content()[m.streamSize..limit] == parts.part0 + parts.part1;
      BegunKeeps(protocol, m);
      FeedCounts(protocol, Begun(m), parts.part0 + parts.part1);
      FeedCounts(protocol, Begun(m), parts.part0);
      CutsDoNotMatter(protocol, m, parts.part0, parts.part1);
      o := ParsePart(parts.part0);
      if o.Failed? { return; }
      o := ParsePart(parts.part1);
      if o.Failed? { return; }
      if stream.size >= MAX_REQUEST_SIZE && m.state != End { o := Failed(HeaderTooLarge); }
    }
  }

  lemma BegunKeeps(protocol: seq<byte>, m: Machine)
    requires Safe(protocol, m)
    ensures Safe(protocol, Begun(m)) && Begun(m).streamSize == m.streamSize
  {
  }

  lemma TakeCounts(protocol: seq<byte>, m: Machine, c: byte)
    requires Safe(protocol, m)
    ensures var o := Take(protocol, m, c);
      o.Going? ==> o.m.streamSize == m.streamSize && Safe(protocol, o.m.(streamSize := m.streamSize + 1))
  {
  }
}
