/** processor_print and processor_print_http: a page is printed entry by entry as HTML. */
module HtmlPages {
  import opened Bytes

  datatype Style =
    | Initialize | Finalize
    | Normal | Paragraph | Itemize | Enumeration | Quote | Large | Larger | Largest | Header
    | InternalReference | ExternalReference

  datatype Element = Html | Head | Title | Body | P | Ul | Ol | Li | Blockquote | H1 | H2 | H3 | HeaderElement | A

  /** A piece of HTML: a tag, an element without content (<meta> or <br>), or text (taken to hold no tags). */
  datatype Token = Open(element: Element) | Close(element: Element) | Meta | Break | Text(text: seq<byte>)

  datatype Entry = Entry(style: Style, text: seq<byte>)

  const TITLE: seq<byte> := [77, 121, 32, 56, 45, 98, 105, 116, 32, 115, 111, 117, 108] // "My 8-bit soul"

  const HTML_OPEN := [Open(Html), Open(Head), Meta, Meta, Open(Title), Text(TITLE), Close(Title), Close(Head),
    Open(Body)]
  const HTML_CLOSE := [Close(Body), Close(Html)]

  // ---- What a page means ----

  /** A text and the elements around it, outermost first. */
  datatype Place = Place(around: seq<Element>, text: seq<byte>)

  datatype Reading = Nested(places: seq<Place>, open: seq<Element>) | IllNested

  /** Reads tokens as a browser would: every closing tag must close the innermost open element. */
  function Read(open: seq<Element>, tokens: seq<Token>): Reading
    decreases |tokens|
  {
    if tokens == [] then Nested([], open)
    else
      match tokens[0]
      case Open(e) => Read(open + [e], tokens[1..])
      case Close(e) => if open != [] && open[|open| - 1] == e then Read(open[..|open| - 1], tokens[1..]) else IllNested
      case Meta => Read(open, tokens[1..])
      case Break => Read(open, tokens[1..])
      case Text(t) =>
        match Read(open, tokens[1..])
        case Nested(places, o) => Nested([Place(open, t)] + places, o)
        case IllNested => IllNested
  }

  lemma {:induction false} ReadConcat(open: seq<Element>, a: seq<Token>, b: seq<Token>)
    ensures Read(open, a + b) ==
      match Read(open, a)
      case IllNested => IllNested
      case Nested(places, o) =>
        match Read(o, b)
        case IllNested => IllNested
        case Nested(more, end) => Nested(places + more, end)
    decreases |a|
  {
    if a == [] {
      assert a + b == b;
      assert forall more: seq<Place> :: [] + more == more;
    } else {
      assert (a + b)[0] == a[0] && (a + b)[1..] == a[1..] + b;
      match a[0]
      case Open(e) => ReadConcat(open + [e], a[1..], b);
      case Close(e) => if open != [] { ReadConcat(open[..|open| - 1], a[1..], b); }
      case Meta => ReadConcat(open, a[1..], b);
      case Break => ReadConcat(open, a[1..], b);
      case Text(t) =>
        ReadConcat(open, a[1..], b);
        assert forall p: seq<Place>, q: seq<Place> :: [Place(open, t)] + p + q == [Place(open, t)] + (p + q);
    }
  }

  /** The elements an entry of each style stands in. */
  function Around(style: Style): seq<Element> {
    match style
    case Paragraph => [P]
    case Itemize => [Ul, Li]
    case Enumeration => [Ol, Li]
    case Quote => [Blockquote, P]
    case Large => [H3, P]
    case Larger => [H2, P]
    case Largest => [H1, P]
    case Header => [HeaderElement, H1]
    case InternalReference => [A]
    case ExternalReference => [A]
    case _ => []
  }

  function Places(entries: seq<Entry>): seq<Place> {
    if entries == [] then []
    else Places(entries[..|entries| - 1]) + [PlaceOf(entries[|entries| - 1])]
  }

  function PlaceOf(entry: Entry): Place {
    Place([Html, Body] + Around(entry.style), entry.text)
  }

  // ---- Printing ----

  /** The list that is still open after an entry of that style. */
  function OpenList(style: Style): seq<Element> {
    match style
    case Itemize => [Ul]
    case Enumeration => [Ol]
    case _ => []
  }

  predicate IsEntry(style: Style) {
    style != Initialize && style != Finalize
  }

  function Closing(previous: Style, style: Style): seq<Token> {
    if previous == style then []
    else if previous == Itemize then [Close(Ul)]
    else if previous == Enumeration then [Close(Ol)]
    else []
  }

  function OpenAll(elements: seq<Element>): seq<Token> {
    seq(|elements|, i requires 0 <= i < |elements| => Open(elements[i]))
  }

  /** Closing tags, innermost first. */
  function CloseAll(elements: seq<Element>): seq<Token> {
    seq(|elements|, i requires 0 <= i < |elements| => Close(elements[|elements| - 1 - i]))
  }

  lemma AllOf(elements: seq<Element>)
    ensures |elements| == 0 ==> OpenAll(elements) == [] && CloseAll(elements) == []
    ensures |elements| == 1 ==> OpenAll(elements) == [Open(elements[0])] && CloseAll(elements) == [Close(elements[0])]
    ensures |elements| == 2 ==> OpenAll(elements) == [Open(elements[0]), Open(elements[1])]
    ensures |elements| == 2 ==> CloseAll(elements) == [Close(elements[1]), Close(elements[0])]
  {
  }

  /** The elements that an entry opens itself: a list only if it does not continue one. */
  function Opening(previous: Style, style: Style): seq<Element> {
    if previous == style && OpenList(style) != [] then Around(style)[1..] else Around(style)
  }

  /** The elements that an entry closes itself: all but its list. */
  function Inner(style: Style): seq<Element> {
    if OpenList(style) != [] then Around(style)[1..] else Around(style)
  }

  function LineBreak(style: Style): seq<Token> {
    if style in {Normal, InternalReference, ExternalReference} then [Break] else []
  }

  function Printed(previous: Style, entry: Entry): seq<Token> {
    Closing(previous, entry.style) + OpenAll(Opening(previous, entry.style)) + [Text(entry.text)]
      + CloseAll(Inner(entry.style)) + LineBreak(entry.style)
  }

  /** struct ProcessorPrintContext, as far as HTML uses it */
  class PrintContext {
    var two: seq<Token>
    var previousStyle: Style
    var listIndex: nat
    ghost var printed: seq<Entry> // the entries of the page, without Initialize and Finalize

    /** A page has been started, and this is what is printed so far. */
    ghost predicate InPage()
      reads this
    {
      && two == HTML_OPEN + PageBody(printed)
      && previousStyle == LastStyle(printed)
      && listIndex == ItemNumber(printed)
    }

    constructor ()
      ensures two == [] && previousStyle == Initialize && listIndex == 0
    {
      two := [];
      printed := [];
      previousStyle := Initialize;
      listIndex := 0;
    }

    method Append(tokens: seq<Token>)
      modifies this`two
      ensures two == old(two) + tokens
    {
      two := two + tokens;
    }

    /** The pre-prefix: closes the list that the entry does not continue. */
    method CloseList(style: Style)
      modifies this`two
      ensures two == old(two) + Closing(previousStyle, style)
    {
      if previousStyle == Itemize && style != Itemize { Append([Close(Ul)]); }
      if previousStyle == Enumeration && style != Enumeration { Append([Close(Ol)]); }
    }

    /** The prefix of an entry. */
    method OpenEntry(style: Style)
      requires IsEntry(style)
      modifies this`two
      ensures two == old(two) + OpenAll(Opening(previousStyle, style))
    {
      AllOf(Opening(previousStyle, style));
      match style {
        case Paragraph => Append([Open(P)]);
        case Itemize =>
          if previousStyle != Itemize { Append([Open(Ul)]); }
          Append([Open(Li)]);
        case Enumeration =>
          if previousStyle != Enumeration { Append([Open(Ol)]); }
          Append([Open(Li)]);
        case Quote => Append([Open(Blockquote), Open(P)]);
        case Large => Append([Open(H3), Open(P)]);
        case Larger => Append([Open(H2), Open(P)]);
        case Largest => Append([Open(H1), Open(P)]);
        case Header => Append([Open(HeaderElement), Open(H1)]);
        case InternalReference => Append([Open(A)]);
        case ExternalReference => Append([Open(A)]);
        case _ =>
      }
    }

    /** The suffix of an entry. */
    method CloseEntry(style: Style)
      requires IsEntry(style)
      modifies this`two
      ensures two == old(two) + (CloseAll(Inner(style)) + LineBreak(style))
    {
      AllOf(Inner(style));
      match style {
        case Normal => Append([Break]);
        case Paragraph => Append([Close(P)]);
        case Itemize => Append([Close(Li)]);
        case Enumeration => Append([Close(Li)]);
        case Quote => Append([Close(P), Close(Blockquote)]);
        case Large => Append([Close(P), Close(H3)]);
        case Larger => Append([Close(P), Close(H2)]);
        case Largest => Append([Close(P), Close(H1)]);
        case Header => Append([Close(H1), Close(HeaderElement)]);
        case InternalReference => Append([Close(A), Break]);
        case ExternalReference => Append([Close(A), Break]);
        case _ =>
      }
    }

    /** processor_print_http */
    method PrintHttp(entry: Entry)
      modifies this`two
      ensures entry.style == Initialize ==> two == HTML_OPEN
      ensures entry.style == Finalize ==> two == old(two) + (Closing(previousStyle, Finalize) + HTML_CLOSE)
      ensures IsEntry(entry.style) ==> two == old(two) + Printed(previousStyle, entry)
    {
      hide Closing, OpenAll, Opening, CloseAll, Inner, LineBreak, HTML_OPEN, HTML_CLOSE;
      CloseList(entry.style);
      if entry.style == Initialize { two := HTML_OPEN; return; }
      if entry.style == Finalize { Append(HTML_CLOSE); return; }
      OpenEntry(entry.style);
      Append([Text(entry.text)]);
      CloseEntry(entry.style);
    }

    /** processor_print, for HTTP. A page starts with Initialize; after Finalize it reads as its entries, each in
        exactly the elements its style asks for, and everything is closed. */
    method Print(entry: Entry)
      requires entry.style != Initialize ==> InPage()
      modifies this
      ensures previousStyle == entry.style
      ensures entry.style == Initialize ==> printed == [] && InPage()
      ensures IsEntry(entry.style) ==> printed == old(printed) + [entry] && InPage()
      ensures entry.style == Finalize ==> printed == old(printed) && Read([], two) == Nested(PagePlaces(printed), [])
    {
      hide Read, PageBody, HTML_OPEN, HTML_CLOSE, Printed, Places, ItemNumber;
      listIndex := if entry.style == Enumeration then listIndex + 1 else 0;
      PrintHttp(entry);
      if entry.style == Initialize {
        printed := [];
        EmptyPage();
      } else if entry.style == Finalize {
        PageReads(printed);
      } else {
        PageGrows(printed, entry);
        printed := printed + [entry];
      }
      previousStyle := entry.style;
    }
  }

  // ---- The page so far ----

  function LastStyle(entries: seq<Entry>): Style {
    if entries == [] then Initialize else entries[|entries| - 1].style
  }

  function PageBody(entries: seq<Entry>): seq<Token> {
    if entries == [] then []
    else
      var n := |entries| - 1;
      PageBody(entries[..n]) + Printed(LastStyle(entries[..n]), entries[n])
  }

  function PagePlaces(entries: seq<Entry>): seq<Place> {
    [Place([Html, Head, Title], TITLE)] + Places(entries)
  }

  /** The number of the last entry in the enumeration it belongs to, or 0. */
  function ItemNumber(entries: seq<Entry>): (n: nat)
    ensures n <= |entries| && forall k | |entries| - n <= k < |entries| :: entries[k].style == Enumeration
    ensures n == |entries| || entries[|entries| - 1 - n].style != Enumeration
  {
    if LastStyle(entries) == Enumeration then 1 + ItemNumber(entries[..|entries| - 1]) else 0
  }

  lemma EmptyPage()
    ensures PageBody([]) == [] && ItemNumber([]) == 0 && HTML_OPEN + PageBody([]) == HTML_OPEN
  {
  }

  lemma PageGrows(entries: seq<Entry>, entry: Entry)
    ensures PageBody(entries + [entry]) == PageBody(entries) + Printed(LastStyle(entries), entry)
    ensures HTML_OPEN + PageBody(entries + [entry])
      == HTML_OPEN + PageBody(entries) + Printed(LastStyle(entries), entry)
    ensures ItemNumber(entries + [entry]) == if entry.style == Enumeration then ItemNumber(entries) + 1 else 0
  {
    assert (entries + [entry])[..|entries|] == entries;
  }

  // ---- Reading what was printed ----

  lemma {:induction false} ReadOpenAll(open: seq<Element>, elements: seq<Element>)
    ensures Read(open, OpenAll(elements)) == Nested([], open + elements)
    decreases |elements|
  {
    if elements != [] {
      assert OpenAll(elements)[1..] == OpenAll(elements[1..]);
      ReadOpenAll(open + [elements[0]], elements[1..]);
      assert open + [elements[0]] + elements[1..] == open + elements;
    } else {
      assert open + elements == open;
    }
  }

  lemma {:induction false} ReadCloseAll(open: seq<Element>, elements: seq<Element>)
    ensures Read(open + elements, CloseAll(elements)) == Nested([], open)
    decreases |elements|
  {
    if elements != [] {
      var n := |elements| - 1;
      assert CloseAll(elements)[1..] == CloseAll(elements[..n]);
      assert (open + elements)[..|open| + n] == open + elements[..n];
      ReadCloseAll(open, elements[..n]);
    } else {
      assert open + elements == open;
    }
  }

  const BODY := [Html, Body]

  lemma ReadClosing(previous: Style, style: Style)
    ensures Read(BODY + OpenList(previous), Closing(previous, style))
      == Nested([], BODY + if previous == style then OpenList(style) else [])
  {
    assert (BODY + OpenList(previous))[..2] == BODY;
    assert BODY + [] == BODY;
  }

  lemma ReadText(open: seq<Element>, text: seq<byte>)
    ensures Read(open, [Text(text)]) == Nested([Place(open, text)], open)
  {
    assert Read(open, [Text(text)][1..]) == Nested([], open);
    assert [Place(open, text)] + [] == [Place(open, text)];
  }

  lemma ReadLineBreak(open: seq<Element>, style: Style)
    ensures Read(open, LineBreak(style)) == Nested([], open)
  {
    assert LineBreak(style) != [] ==> LineBreak(style)[1..] == [];
  }

  lemma OpeningCompletes(previous: Style, style: Style)
    ensures (BODY + if previous == style then OpenList(style) else []) + Opening(previous, style)
      == BODY + Around(style)
    ensures (BODY + OpenList(style)) + Inner(style) == BODY + Around(style)
  {
  }

  /** One entry, read where the one before left off: its text stands in the elements of its style, and at most its own
      list stays open. */
  lemma PrintedReads(previous: Style, entry: Entry)
    ensures Read(BODY + OpenList(previous), Printed(previous, entry))
      == Nested([PlaceOf(entry)], BODY + OpenList(entry.style))
  {
    hide Read, Around, Closing, Opening, Inner, OpenList, LineBreak, BODY;
    var style := entry.style;
    var a, b, c := Closing(previous, style), OpenAll(Opening(previous, style)), [Text(entry.text)];
    var d, e := CloseAll(Inner(style)), LineBreak(style);
    var start := BODY + OpenList(previous);
    var mid := BODY + if previous == style then OpenList(style) else [];
    OpeningCompletes(previous, style);
    ReadClosing(previous, style);
    ReadOpenAll(mid, Opening(previous, style));
    ReadText(BODY + Around(style), entry.text);
    ReadCloseAll(BODY + OpenList(style), Inner(style));
    ReadLineBreak(BODY + OpenList(style), style);
    ReadConcat(start, a, b);
    ReadConcat(start, a + b, c);
    ReadConcat(start, a + b + c, d);
    ReadConcat(start, a + b + c + d, e);
    PlaceIs(entry);
  }

  lemma PlaceIs(entry: Entry)
    ensures PlaceOf(entry) == Place(BODY + Around(entry.style), entry.text)
  {
  }

  lemma {:induction false} BodyReads(entries: seq<Entry>)
    ensures Read(BODY, PageBody(entries)) == Nested(Places(entries), BODY + OpenList(LastStyle(entries)))
    decreases |entries|
  {
    hide Read, Printed;
    if entries == [] {
      ReadOpenAll(BODY, []);
      assert OpenAll([]) == [] && BODY + [] == BODY;
    } else {
      var n := |entries| - 1;
      BodyReads(entries[..n]);
      PrintedReads(LastStyle(entries[..n]), entries[n]);
      ReadConcat(BODY, PageBody(entries[..n]), Printed(LastStyle(entries[..n]), entries[n]));
    }
  }

  lemma ReadMeta(open: seq<Element>)
    ensures Read(open, [Meta, Meta]) == Nested([], open)
  {
    assert [Meta, Meta][1..] == [Meta] && [Meta][1..] == [];
  }

  lemma ReadHead()
    ensures Read([Html, Head], [Meta, Meta] + OpenAll([Title]) + [Text(TITLE)] + CloseAll([Head, Title]))
      == Nested([Place([Html, Head, Title], TITLE)], [Html])
  {
    hide Read, OpenAll, CloseAll, TITLE;
    var b, c, d, e := [Meta, Meta], OpenAll([Title]), [Text(TITLE)], CloseAll([Head, Title]);
    ReadMeta([Html, Head]);
    ReadOpenAll([Html, Head], [Title]);
    assert [Html] + [Head, Title] == [Html, Head, Title] == [Html, Head] + [Title];
    ReadText([Html, Head, Title], TITLE);
    ReadCloseAll([Html], [Head, Title]);
    ReadConcat([Html, Head], b, c);
    ReadConcat([Html, Head], b + c, d);
    ReadConcat([Html, Head], b + c + d, e);
  }

  lemma FrameIs()
    ensures HTML_OPEN == OpenAll([Html, Head])
      + ([Meta, Meta] + OpenAll([Title]) + [Text(TITLE)] + CloseAll([Head, Title])) + OpenAll([Body])
    ensures HTML_CLOSE == CloseAll(BODY)
  {
    hide TITLE;
    AllOf([Html, Head]);
    AllOf([Title]);
    AllOf([Head, Title]);
    AllOf([Body]);
    AllOf(BODY);
  }

  lemma ReadFrame()
    ensures Read([], HTML_OPEN) == Nested([Place([Html, Head, Title], TITLE)], BODY)
    ensures Read(BODY, HTML_CLOSE) == Nested([], [])
  {
    hide Read, OpenAll, CloseAll, TITLE, HTML_OPEN, HTML_CLOSE;
    FrameIs();
    var a, c := OpenAll([Html, Head]), OpenAll([Body]);
    var b := [Meta, Meta] + OpenAll([Title]) + [Text(TITLE)] + CloseAll([Head, Title]);
    ReadOpenAll([], [Html, Head]);
    assert [] + [Html, Head] == [Html, Head] && [Html] + [Body] == BODY && [] + BODY == BODY;
    ReadHead();
    ReadOpenAll([Html], [Body]);
    ReadConcat([], a, b);
    ReadConcat([], a + b, c);
    ReadCloseAll([], BODY);
  }

  /** A whole page is well nested and reads as its entries. */
  lemma PageReads(entries: seq<Entry>)
    ensures Read([], HTML_OPEN + PageBody(entries) + (Closing(LastStyle(entries), Finalize) + HTML_CLOSE))
      == Nested(PagePlaces(entries), [])
  {
    hide Read, PageBody, Places, HTML_OPEN, HTML_CLOSE, BODY;
    var last := LastStyle(entries);
    var all := Closing(last, Finalize) + HTML_CLOSE;
    ReadFrame();
    BodyReads(entries);
    ReadClosing(last, Finalize);
    assert BODY + [] == BODY;
    ReadConcat(BODY + OpenList(last), Closing(last, Finalize), HTML_CLOSE);
    ReadConcat([], HTML_OPEN, PageBody(entries));
    ReadConcat([], HTML_OPEN + PageBody(entries), all);
  }

  // ---- One list for each run of items ----

  /** How many runs of entries of that style there are. */
  function Runs(entries: seq<Entry>, style: Style): nat {
    if entries == [] then 0
    else
      var n := |entries| - 1;
      Runs(entries[..n], style) + if entries[n].style == style && LastStyle(entries[..n]) != style then 1 else 0
  }

  function CountOf(tokens: seq<Token>, token: Token): nat {
    multiset(tokens)[token]
  }

  lemma OpeningLists(previous: Style, style: Style)
    ensures CountOf(OpenAll(Opening(previous, style)), Open(Ul))
      == if style == Itemize && previous != Itemize then 1 else 0
    ensures CountOf(OpenAll(Opening(previous, style)), Open(Ol))
      == if style == Enumeration && previous != Enumeration then 1 else 0
  {
    AllOf(Opening(previous, style));
  }

  lemma NoListsElsewhere(previous: Style, entry: Entry, list: Token)
    requires list == Open(Ul) || list == Open(Ol)
    ensures CountOf(Closing(previous, entry.style), list) == 0 && CountOf([Text(entry.text)], list) == 0
    ensures CountOf(CloseAll(Inner(entry.style)), list) == 0 && CountOf(LineBreak(entry.style), list) == 0
  {
    OpensOnly(CloseAll(Inner(entry.style)));
    OpensOnly(Closing(previous, entry.style));
    OpensOnly(LineBreak(entry.style));
    OpensOnly([Text(entry.text)]);
  }

  lemma CountConcat(a: seq<Token>, b: seq<Token>, token: Token)
    ensures CountOf(a + b, token) == CountOf(a, token) + CountOf(b, token)
  {
  }

  lemma PrintedCount(previous: Style, entry: Entry, list: Token)
    requires list == Open(Ul) || list == Open(Ol)
    ensures CountOf(Printed(previous, entry), list) == CountOf(OpenAll(Opening(previous, entry.style)), list)
  {
    hide OpenAll, Opening, Inner, CloseAll, Closing, LineBreak, CountOf;
    var a, b, c := Closing(previous, entry.style), OpenAll(Opening(previous, entry.style)), [Text(entry.text)];
    var d, e := CloseAll(Inner(entry.style)), LineBreak(entry.style);
    NoListsElsewhere(previous, entry, list);
    CountConcat(a, b, list);
    CountConcat(a + b, c, list);
    CountConcat(a + b + c, d, list);
    CountConcat(a + b + c + d, e, list);
  }

  lemma PrintedLists(previous: Style, entry: Entry)
    ensures CountOf(Printed(previous, entry), Open(Ul))
      == if entry.style == Itemize && previous != Itemize then 1 else 0
    ensures CountOf(Printed(previous, entry), Open(Ol))
      == if entry.style == Enumeration && previous != Enumeration then 1 else 0
  {
    hide OpenAll, Opening, Printed, CountOf;
    PrintedCount(previous, entry, Open(Ul));
    PrintedCount(previous, entry, Open(Ol));
    OpeningLists(previous, entry.style);
  }

  lemma OpensOnly(tokens: seq<Token>)
    requires forall i | 0 <= i < |tokens| :: !tokens[i].Open?
    ensures CountOf(tokens, Open(Ul)) == 0 && CountOf(tokens, Open(Ol)) == 0
  {
  }

  /** Consecutive items share a list, and every list is one such run. */
  lemma {:induction false} OneListPerRun(entries: seq<Entry>)
    ensures CountOf(PageBody(entries), Open(Ul)) == Runs(entries, Itemize)
    ensures CountOf(PageBody(entries), Open(Ol)) == Runs(entries, Enumeration)
  {
    hide Printed;
    if entries != [] {
      var n := |entries| - 1;
      OneListPerRun(entries[..n]);
      PrintedLists(LastStyle(entries[..n]), entries[n]);
    }
  }

  /** The line ends behind normal entries and references, and nowhere else. */
  lemma EntryBreaks(previous: Style, entry: Entry)
    ensures var t := Printed(previous, entry);
      forall k | 0 <= k < |t| ::
        t[k] == Break <==> k == |t| - 1 && entry.style in [Normal, InternalReference, ExternalReference]
  {
    var front := Closing(previous, entry.style) + OpenAll(Opening(previous, entry.style)) + [Text(entry.text)]
      + CloseAll(Inner(entry.style));
    assert forall k | 0 <= k < |front| :: front[k] != Break by {
      hide Opening, Inner, Around;
    }
  }
}
