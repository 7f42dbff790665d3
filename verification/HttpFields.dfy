/** Header fields as clients write them: names in any case, blanks around values and list elements. Everything here is
    said in bytes and words, apart from the functions that the parser is specified with. */
module HttpFields {
  import opened Bytes
  import opened Values
  import opened Rings
  import opened Http
  import opened HttpCuts
  import opened HttpRoundTrip

  // ---- Words and blanks ----

  /** Lower-case letters and hyphens. */
  predicate IsWord(word: seq<byte>) {
    forall i | 0 <= i < |word| :: 97 <= word[i] <= 122 || word[i] == 45
  }

  /** s is the word in upper or lower case. */
  predicate Spells(s: seq<byte>, word: seq<byte>) {
    && |s| == |word|
    && forall i | 0 <= i < |s| :: s[i] == word[i] || (97 <= word[i] <= 122 && s[i] == word[i] - 32)
  }

  /** Spaces and tabs. */
  predicate Blank(s: seq<byte>) {
    forall i | 0 <= i < |s| :: s[i] == 32 || s[i] == 9
  }

  /** No blank and no line break at either end. */
  predicate Tight(s: seq<byte>) {
    s != [] ==> s[0] !in {9, 10, 11, 13, 32} && s[|s| - 1] !in {9, 10, 11, 13, 32}
  }

  lemma SpellsIsLower(s: seq<byte>, word: seq<byte>)
    requires IsWord(word)
    ensures Spells(s, word) <==> LowerAll(s) == word
  {
    if LowerAll(s) == word {
      forall i | 0 <= i < |s|
        ensures s[i] == word[i] || (97 <= word[i] <= 122 && s[i] == word[i] - 32)
      {
        assert LowerAll(s)[i] == word[i];
      }
    }
  }

  lemma {:induction false} TrimFrontBlanks(a: seq<byte>, s: seq<byte>)
    requires Blank(a) && (s != [] ==> s[0] !in {9, 10, 11, 13, 32})
    ensures TrimFront(a + s) == s
    decreases |a|
  {
    if a == [] {
      assert a + s == s;
    } else {
      assert (a + s)[0] == a[0] && (a + s)[1..] == a[1..] + s;
      TrimFrontBlanks(a[1..], s);
    }
  }

  lemma {:induction false} TrimBackBlanks(s: seq<byte>, b: seq<byte>)
    requires Blank(b) && (s != [] ==> s[|s| - 1] !in {9, 10, 11, 13, 32})
    ensures TrimBack(s + b) == s
    decreases |b|
  {
    if b == [] {
      assert s + b == s;
    } else {
      var last := |b| - 1;
      assert (s + b)[|s + b| - 1] == b[last] && (s + b)[..|s + b| - 1] == s + b[..last];
      TrimBackBlanks(s, b[..last]);
    }
  }

  lemma TrimBlanks(a: seq<byte>, s: seq<byte>, b: seq<byte>)
    requires Blank(a) && Blank(b) && Tight(s)
    ensures Trim(a + s + b) == s
  {
    hide TrimFront, TrimBack;
    if s == [] {
      assert a + s + b == (a + b) + [];
      TrimFrontBlanks(a + b, []);
      TrimBackBlanks([], []);
    } else {
      assert a + s + b == a + (s + b);
      TrimFrontBlanks(a, s + b);
      TrimBackBlanks(s, b);
    }
  }

  // ---- Content-Length ----

  lemma NumbersAreTight(n: nat)
    ensures Tight(Decimal(n))
  {
    DecimalValue(n);
    assert IsDigit(Decimal(n)[0]) && IsDigit(Decimal(n)[|Decimal(n)| - 1]);
  }

  lemma LengthReads(n: nat, a: seq<byte>, b: seq<byte>)
    requires Blank(a) && Blank(b)
    ensures IsLength(a + Decimal(n) + b) <==> n < 4294967280
    ensures n < 4294967280 ==> LengthOf(a + Decimal(n) + b) == n
  {
    NumbersAreTight(n);
    TrimBlanks(a, Decimal(n), b);
    DecimalValue(n);
  }

  /** What the field "Content-Length" does, in any case and with blanks around the number. */
  lemma LengthTakesEffect(m: Machine, ring: seq<byte>, n: nat, a: seq<byte>, b: seq<byte>)
    requires Spells(Part(ring, m.name), Ascii("content-length"))
    requires Blank(a) && Blank(b) && Part(ring, m.value) == a + Decimal(n) + b
    ensures NameValue(m, ring)
      == if n >= 4294967280 then Failed(RequestInvalid)
         else if m.value.offset + m.value.size + n > 0x10_0000 then Failed(ContentTooLarge)
         else Going(m.(remaining := n))
  {
    hide IsLength, LengthOf, Part, LowerAll, ListsKeepAlive;
    LengthReads(n, a, b);
    Words();
    SpellsIsLower(Part(ring, m.name), CONTENT_LENGTH);
  }

  lemma Words()
    ensures Ascii("content-length") == CONTENT_LENGTH && IsWord(CONTENT_LENGTH)
    ensures Ascii("connection") == CONNECTION && IsWord(CONNECTION)
    ensures Ascii("keep-alive") == KEEP_ALIVE && IsWord(KEEP_ALIVE)
  {
  }

  lemma RecordedWords()
    ensures Ascii("user-agent") == USER_AGENT && IsWord(USER_AGENT)
    ensures Ascii("accept-language") == ACCEPT_LANGUAGE && IsWord(ACCEPT_LANGUAGE)
  {
  }

  // ---- Connection ----

  /** A list element with the blanks around it. */
  datatype Item = Item(before: seq<byte>, word: seq<byte>, after: seq<byte>)
  {
    function Text(): seq<byte> {
      before + word + after
    }

    predicate Valid() {
      Blank(before) && Blank(after) && Tight(word) && 44 !in word
    }
  }

  /** The elements with commas (byte 44) between them. */
  function Listed(items: seq<Item>): seq<byte> {
    if items == [] then []
    else if |items| == 1 then items[0].Text()
    else items[0].Text() + [44] + Listed(items[1..])
  }

  lemma CommaBehind(s: seq<byte>, rest: seq<byte>)
    requires 44 !in s
    ensures CommaAt(s) == |s| && CommaAt(s + [44] + rest) == |s|
  {
    CommaAtFirst(s);
    assert s + [44] + rest == s + ([44] + rest);
    CommaAtConcat(s, [44] + rest);
  }

  lemma ItemHasNoComma(item: Item)
    requires item.Valid()
    ensures 44 !in item.Text()
  {
  }

  lemma {:induction false} ListSplits(items: seq<Item>)
    requires items != [] && forall i | 0 <= i < |items| :: items[i].Valid()
    ensures |CommaSplit(Listed(items))| == |items|
    ensures forall i | 0 <= i < |items| :: CommaSplit(Listed(items))[i] == items[i].Text()
    decreases |items|
  {
    hide Item.Valid, Item.Text, CommaAt;
    var text := items[0].Text();
    ItemHasNoComma(items[0]);
    if |items| == 1 {
      CommaBehind(text, []);
    } else {
      var rest := Listed(items[1..]);
      CommaBehind(text, rest);
      ListSplits(items[1..]);
      assert (text + [44] + rest)[..|text|] == text && (text + [44] + rest)[|text| + 1..] == rest;
    }
  }

  /** Whether one of the words is keep-alive, in upper or lower case. */
  predicate Asks(items: seq<Item>) {
    exists i | 0 <= i < |items| :: Spells(items[i].word, Ascii("keep-alive"))
  }

  lemma ItemAsks(item: Item)
    requires item.Valid()
    ensures IsKeepAlive(item.Text()) <==> Spells(item.word, Ascii("keep-alive"))
  {
    hide Trim, LowerAll, Spells, Blank, Tight;
    Words();
    TrimBlanks(item.before, item.word, item.after);
    SpellsIsLower(item.word, KEEP_ALIVE);
  }

  lemma ListAsks(items: seq<Item>)
    requires items != [] && forall i | 0 <= i < |items| :: items[i].Valid()
    ensures ListsKeepAlive(Listed(items)) <==> Asks(items)
  {
    hide CommaSplit, Listed, Spells, IsKeepAlive, Item.Valid, Item.Text, Ascii;
    ListSplits(items);
    var elements := CommaSplit(Listed(items));
    forall i | 0 <= i < |items|
      ensures IsKeepAlive(elements[i]) <==> Spells(items[i].word, Ascii("keep-alive"))
    {
      ItemAsks(items[i]);
    }
  }

  /** What the field "Connection" does, in any case and with blanks around the elements. */
  lemma ConnectionTakesEffect(m: Machine, ring: seq<byte>, items: seq<Item>)
    requires Spells(Part(ring, m.name), Ascii("connection"))
    requires items != [] && forall i | 0 <= i < |items| :: items[i].Valid()
    requires Part(ring, m.value) == Listed(items)
    ensures NameValue(m, ring) == Going(if Asks(items) then m.(keepAlive := true) else m)
  {
    hide IsLength, LengthOf, Part, LowerAll, ListsKeepAlive, Asks, Listed;
    ListAsks(items);
    Words();
    SpellsIsLower(Part(ring, m.name), CONNECTION);
    assert |CONTENT_LENGTH| != |CONNECTION|;
  }

  // ---- Which bytes are refused ----

  /** Blanks that separate words: space, tab, vertical tab. */
  predicate Separates(c: byte) {
    c in {9, 11, 32}
  }

  /** Letters, digits and ! # $ % & ' * + - . ^ _ | ~ */
  predicate NameByte(c: byte) {
    || 65 <= c <= 90 || 97 <= c <= 122 || 48 <= c <= 57
    || c in {33, 35, 36, 37, 38, 39, 42, 43, 45, 46, 94, 95, 124, 126}
  }

  /** The bytes that each word may go on with or end at; every other byte makes the request invalid. A value ends at a
      line break only, so a tab in it is refused, although the trimming of values knows tabs. */
  lemma AcceptedBytes(m: Machine, ring: seq<byte>, c: byte)
    ensures m.state == WaitMethodEnd ==> (Step(m, ring, c).Going? <==> Separates(c) || NameByte(c))
    ensures m.state == WaitResourceEnd ==> (Step(m, ring, c).Going? <==> Separates(c) || 33 <= c <= 126)
    ensures m.state == WaitProtocolEnd ==>
      (Step(m, ring, c).Going? <==> Separates(c) || c in {10, 13} || c in Ascii("HTTP/1.0"))
    ensures m.state == WaitNameEnd ==> (Step(m, ring, c).Going? <==> Separates(c) || NameByte(c) || c == 58)
    ensures m.state == WaitValueEnd && c !in {10, 13} ==> (Step(m, ring, c).Going? <==> 32 <= c <= 126)
    ensures m.state in {WaitMethodEnd, WaitResourceEnd, WaitProtocolEnd, WaitNameEnd} && Step(m, ring, c).Failed? ==>
      Step(m, ring, c) == Failed(RequestInvalid)
  {
    hide NameValue;
    var http := Ascii("HTTP/1.0");
    assert http == [72, 84, 84, 80, 47, 49, 46, 48];
  }

  // ---- Whole requests ----

  /** What stands behind the colon: for the two fields that the parser acts on, and for any other. */
  datatype Content =
    | ContentLength(before: seq<byte>, n: nat, after: seq<byte>)
    | Connection(items: seq<Item>)
    | Other(value: seq<byte>)
  {
    function Text(): seq<byte> {
      match this
      case ContentLength(before, n, after) => before + Decimal(n) + after
      case Connection(items) => Listed(items)
      case Other(value) => value
    }
  }

  datatype Header = Header(lead: seq<byte>, name: seq<byte>, gap: seq<byte>, content: Content, lf: bool)
  {
    function Written(): Field {
      Field(lead, name, gap, content.Text(), lf)
    }

    /** The name is that of the content, and the text is made of printable ASCII characters and spaces. */
    predicate Valid(body: nat) {
      && IsName(name) && IsGap(lead) && IsGap(gap)
      && (forall i | 0 <= i < |content.Text()| :: 32 <= content.Text()[i] <= 126)
      && match content
         case ContentLength(before, n, after) =>
           Spells(name, Ascii("content-length")) && n == body && Blank(before) && Blank(after)
         case Connection(items) =>
           Spells(name, Ascii("connection")) && items != [] && forall i | 0 <= i < |items| :: items[i].Valid()
         case Other(_) => !Spells(name, Ascii("content-length")) && !Spells(name, Ascii("connection"))
    }
  }

  /** Letters, digits and hyphens. */
  predicate IsName(s: seq<byte>) {
    s != [] && forall i | 0 <= i < |s| :: 65 <= s[i] <= 90 || 97 <= s[i] <= 122 || 48 <= s[i] <= 57 || s[i] == 45
  }

  function AllWritten(headers: seq<Header>): (fields: seq<Field>)
    ensures |fields| == |headers|
  {
    seq(|headers|, i requires 0 <= i < |headers| => headers[i].Written())
  }

  predicate AsksToStay(headers: seq<Header>) {
    exists i | 0 <= i < |headers| :: headers[i].content.Connection? && Asks(headers[i].content.items)
  }

  predicate TellsLength(headers: seq<Header>) {
    exists i | 0 <= i < |headers| :: headers[i].content.ContentLength?
  }

  lemma NamedSpells(f: Field)
    ensures Named(f, CONTENT_LENGTH) <==> Spells(f.name, Ascii("content-length"))
    ensures Named(f, CONNECTION) <==> Spells(f.name, Ascii("connection"))
  {
    hide LowerAll, Spells;
    Words();
    SpellsIsLower(f.name, CONTENT_LENGTH);
    SpellsIsLower(f.name, CONNECTION);
  }

  lemma WrittenIsValid(h: Header, body: nat)
    requires h.Valid(body) && body < 4294967280
    ensures ValidField(h.Written(), body)
    ensures Named(h.Written(), CONTENT_LENGTH) <==> h.content.ContentLength?
    ensures Named(h.Written(), CONNECTION) && ListsKeepAlive(h.content.Text())
      <==> h.content.Connection? && Asks(h.content.items)
  {
    hide IsLength, LengthOf, Named, ListsKeepAlive, Asks, Spells, Ascii, Listed, Blank, Item.Valid, IsGap;
    var f := h.Written();
    NamedSpells(f);
    NotBoth(h.name);
    match h.content
    case ContentLength(before, n, after) => LengthReads(n, before, after);
    case Connection(items) => ListAsks(items);
    case Other(_) =>
  }

  lemma NotBoth(name: seq<byte>)
    ensures !(Spells(name, Ascii("content-length")) && Spells(name, Ascii("connection")))
  {
    assert |Ascii("content-length")| == 14 && |Ascii("connection")| == 10;
  }

  lemma AllValid(headers: seq<Header>, body: nat)
    requires (forall i | 0 <= i < |headers| :: headers[i].Valid(body)) && body < 4294967280
    ensures ValidFields(AllWritten(headers), body)
    ensures Announces(AllWritten(headers)) <==> TellsLength(headers)
    ensures KeepsAlive(AllWritten(headers)) <==> AsksToStay(headers)
  {
    hide Header.Valid, ValidField, Named, ListsKeepAlive, Asks, Content.Text;
    var fields := AllWritten(headers);
    forall i | 0 <= i < |headers|
      ensures ValidField(fields[i], body)
      ensures Named(fields[i], CONTENT_LENGTH) <==> headers[i].content.ContentLength?
      ensures Named(fields[i], CONNECTION) && ListsKeepAlive(fields[i].value)
        <==> headers[i].content.Connection? && Asks(headers[i].content.items)
    {
      WrittenIsValid(headers[i], body);
    }
  }

  /** What the last header of that name says. */
  function LastNamed(headers: seq<Header>, word: seq<byte>): seq<byte> {
    if headers == [] then []
    else
      var n := |headers| - 1;
      if Spells(headers[n].name, word) then headers[n].content.Text() else LastNamed(headers[..n], word)
  }

  lemma {:induction false} LastIsLast(headers: seq<Header>, word: seq<byte>)
    requires IsWord(word)
    ensures LastValue(AllWritten(headers), word, []) == LastNamed(headers, word)
    decreases |headers|
  {
    hide Spells, LowerAll, IsWord, Content.Text;
    if headers != [] {
      var n := |headers| - 1;
      SpellsIsLower(headers[n].name, word);
      LastIsLast(headers[..n], word);
      assert AllWritten(headers)[..n] == AllWritten(headers[..n]);
    }
  }

  /** A request line as a client writes it. */
  predicate IsPlain(h: Head) {
    && IsName(h.method_) && h.protocol in [Ascii("HTTP/1.0"), Ascii("HTTP/1.1")]
    && h.resource != [] && (forall i | 0 <= i < |h.resource| :: 33 <= h.resource[i] <= 126)
    && IsGap(h.lead) && IsGap(h.gap1) && IsGap(h.gap2) && IsGap(h.gap3) && h.gap1 != [] && h.gap2 != []
  }

  lemma PlainIsValid(h: Head)
    requires IsPlain(h)
    ensures h.Valid()
  {
    hide IsGap;
  }

  /** What the parser makes of such a request with more bytes behind it, as the rest of the server gets it. */
  predicate Understood(o: Outcome, ring: seq<byte>, size: nat, h: Head, headers: seq<Header>, body: seq<byte>,
                       tail: seq<byte>) {
    if body == [] && tail != [] && !AsksToStay(headers) then o == Failed(RequestInvalid)
    else
      && o.Going? && o.m.state == End
      && var request := RequestOf(o.m);
      && request.streamSize == size + |body|
      && Part(ring, request.method_) == h.method_ && Part(ring, request.resource) == h.resource
      && Part(ring, request.protocol) == h.protocol
      && request.keepAlive == AsksToStay(headers)
      && Part(ring, o.m.user) == LastNamed(headers, Ascii("user-agent"))
      && Part(ring, o.m.acceptLanguage) == LastNamed(headers, Ascii("accept-language"))
  }

  lemma RestoredIsUnderstood(o: Outcome, ring: seq<byte>, h: Head, headers: seq<Header>, lf: bool, body: seq<byte>,
                             tail: seq<byte>)
    requires Restored(o, ring, h, AllWritten(headers), lf, body, tail)
    requires KeepsAlive(AllWritten(headers)) <==> AsksToStay(headers)
    ensures Understood(o, ring, |Format(h, AllWritten(headers), lf)|, h, headers, body, tail)
  {
    hide Format, Part, AllWritten, KeepsAlive, AsksToStay, LastNamed, LastValue, IsWord, Ascii;
    RecordedWords();
    LastIsLast(headers, USER_AGENT);
    LastIsLast(headers, ACCEPT_LANGUAGE);
  }

  /** The parser's answer to a request as a client writes it, each line ended by CR LF or by LF alone. */
  lemma ClientRequest(h: Head, headers: seq<Header>, lf: bool, body: seq<byte>, tail: seq<byte>)
    requires IsPlain(h) && forall i | 0 <= i < |headers| :: headers[i].Valid(|body|)
    requires body != [] ==> TellsLength(headers)
    requires |Format(h, AllWritten(headers), lf)| + |body| <= 0x10_0000
    ensures var header := Format(h, AllWritten(headers), lf);
      var ring := header + body + tail;
      Understood(RunPart(START, ring, ring), ring, |header|, h, headers, body, tail)
  {
    hide RunPart, Format, AllWritten, KeepsAlive, Announces, ValidFields, TellsLength, AsksToStay, Header.Valid,
      IsPlain, Head.Valid, Restored, Understood;
    AllValid(headers, |body|);
    PlainIsValid(h);
    RoundTrip(h, AllWritten(headers), lf, body, tail);
    var ring := Format(h, AllWritten(headers), lf) + body + tail;
    RestoredIsUnderstood(RunPart(START, ring, ring), ring, h, headers, lf, body, tail);
  }
}
