/** The response queue: struct Response headers followed by request texts and chunk counters (processor.c, send.c). */
module Frames {
  import opened Bytes
  import opened Values
  import opened Rings

  /** Little-endian image of an unsigned number in memory. */
  function Little(n: nat, width: nat): (s: seq<byte>)
    ensures |s| == width
  {
    if width == 0 then [] else [n % 256] + Little(n / 256, width - 1)
  }

  function FromLittle(s: seq<byte>): nat {
    if s == [] then 0 else s[0] + 256 * FromLittle(s[1..])
  }

  function Pow256(width: nat): nat {
    if width == 0 then 1 else 256 * Pow256(width - 1)
  }

  lemma {:induction false} LittleRoundTrip(n: nat, width: nat)
    requires n < Pow256(width)
    ensures FromLittle(Little(n, width)) == n
  {
    if width > 0 { LittleRoundTrip(n / 256, width - 1); }
  }

  /** struct Response */
  datatype Response = Response(
    streamSize: nat, size: nat, method_: Location, resource: Location, protocol: Location, chunks: Location,
    keepAlive: bool, silent: bool, firstChunk: nat)
  {
    /** Every field is in the range of its C type. */
    predicate Fits() {
      && streamSize < SIZE_MODULUS && size < SIZE_MODULUS && firstChunk <= UINT_MAX
      && method_.offset < SIZE_MODULUS && method_.size < SIZE_MODULUS
      && resource.offset < SIZE_MODULUS && resource.size < SIZE_MODULUS
      && protocol.offset < SIZE_MODULUS && protocol.size < SIZE_MODULUS
      && chunks.offset < SIZE_MODULUS && chunks.size < SIZE_MODULUS
    }
  }

  /** sizeof(struct Response): ten words, two flags with padding, one unsigned int. */
  const HEADER_SIZE := 88

  function Flag(b: bool): byte {
    if b then 1 else 0
  }

  /** The words of a header, in memory order. */
  function Words(r: Response): (w: seq<nat>)
    ensures |w| == 10
  {
    [r.streamSize, r.size, r.method_.offset, r.method_.size, r.resource.offset, r.resource.size,
     r.protocol.offset, r.protocol.size, r.chunks.offset, r.chunks.size]
  }

  function WordBytes(words: seq<nat>): (s: seq<byte>)
    ensures |s| == 8 * |words|
  {
    if words == [] then [] else Little(words[0], 8) + WordBytes(words[1..])
  }

  function BytesToWords(s: seq<byte>): (words: seq<nat>)
    requires |s| % 8 == 0
    ensures 8 * |words| == |s|
  {
    if s == [] then [] else [FromLittle(s[..8])] + BytesToWords(s[8..])
  }

  lemma {:induction false} WordsRoundTrip(words: seq<nat>)
    requires forall i | 0 <= i < |words| :: words[i] < SIZE_MODULUS
    ensures BytesToWords(WordBytes(words)) == words
  {
    if words != [] {
      assert Pow256(4) == 0x1_0000_0000;
      assert Pow256(8) == SIZE_MODULUS;
      LittleRoundTrip(words[0], 8);
      WordsRoundTrip(words[1..]);
      assert WordBytes(words)[..8] == Little(words[0], 8);
      assert WordBytes(words)[8..] == WordBytes(words[1..]);
    }
  }

  /** The image of a header in the queue. */
  function EncodeHeader(r: Response): (s: seq<byte>)
    ensures |s| == HEADER_SIZE
  {
    WordBytes(Words(r)) + [Flag(r.keepAlive), Flag(r.silent), 0, 0] + Little(r.firstChunk, 4)
  }

  function DecodeHeader(s: seq<byte>): (r: Response)
    requires |s| == HEADER_SIZE
  {
    var w := BytesToWords(s[..80]);
    Response(w[0], w[1], Location(w[2], w[3]), Location(w[4], w[5]), Location(w[6], w[7]), Location(w[8], w[9]),
             s[80] != 0, s[81] != 0, FromLittle(s[84..]))
  }

  /** A header read back from the queue is the header written. */
  lemma HeaderRoundTrip(r: Response)
    requires r.Fits()
    ensures DecodeHeader(EncodeHeader(r)) == r
  {
    WordsRoundTrip(Words(r));
    var s := EncodeHeader(r);
    assert s[..80] == WordBytes(Words(r));
    assert s[84..] == Little(r.firstChunk, 4);
    assert Pow256(4) == 0x1_0000_0000;
    LittleRoundTrip(r.firstChunk, 4);
  }

  /** One queue entry: the header, the texts of the request, one counter per chunk. */
  datatype Frame = Frame(header: Response, method_: seq<byte>, resource: seq<byte>, protocol: seq<byte>,
                         counters: seq<byte>)
  {
    function Body(): seq<byte> {
      method_ + resource + protocol + counters
    }

    /** The header locates the texts behind it. */
    predicate WellFormed() {
      && header.Fits() && !header.silent
      && header.size == |Body()|
      && header.method_ == Location(0, |method_|)
      && header.resource == Location(|method_|, |resource|)
      && header.protocol == Location(|method_| + |resource|, |protocol|)
      && header.chunks == Location(|method_| + |resource| + |protocol|, |counters|)
    }
  }

  function EncodeFrame(f: Frame): (s: seq<byte>) {
    EncodeHeader(f.header) + f.Body()
  }

  function EncodeFrames(frames: seq<Frame>): (s: seq<byte>) {
    if frames == [] then [] else EncodeFrame(frames[0]) + EncodeFrames(frames[1..])
  }

  lemma {:induction false} EncodeFramesAppend(frames: seq<Frame>, f: Frame)
    ensures EncodeFrames(frames + [f]) == EncodeFrames(frames) + EncodeFrame(f)
  {
    if frames == [] {
      assert [f][1..] == [];
    } else {
      assert (frames + [f])[1..] == frames[1..] + [f];
      EncodeFramesAppend(frames[1..], f);
    }
  }

  /** Two well-formed frame lists with the same image are the same list: no frame boundary is ambiguous. */
  lemma {:induction false} EncodeFramesInjective(a: seq<Frame>, b: seq<Frame>)
    requires forall f <- a + b :: f.WellFormed()
    requires EncodeFrames(a) == EncodeFrames(b)
    ensures a == b
  {
    hide EncodeFrame, Frame.WellFormed;
    if a != [] && b != [] {
      assert a[0] in a + b && b[0] in a + b;
      SameFront(a[0], EncodeFrames(a[1..]), b[0], EncodeFrames(b[1..]));
      assert forall f <- a[1..] + b[1..] :: f in a + b;
      EncodeFramesInjective(a[1..], b[1..]);
      assert a == [a[0]] + a[1..] && b == [b[0]] + b[1..];
    } else {
      NoFrames(a);
      NoFrames(b);
    }
  }

  lemma NoFrames(frames: seq<Frame>)
    ensures frames == [] <==> EncodeFrames(frames) == []
  {
    if frames != [] { assert |EncodeFrame(frames[0])| >= HEADER_SIZE; }
  }

  /** The front of a queue can be read in one way only. */
  lemma SameFront(f: Frame, rest: seq<byte>, g: Frame, more: seq<byte>)
    requires f.WellFormed() && g.WellFormed() && EncodeFrame(f) + rest == EncodeFrame(g) + more
    ensures f == g && rest == more
  {
    hide EncodeHeader, DecodeHeader;
    var s, t := EncodeFrame(f) + rest, EncodeFrame(g) + more;
    HeaderRoundTrip(f.header);
    HeaderRoundTrip(g.header);
    assert s[..HEADER_SIZE] == EncodeHeader(f.header) && t[..HEADER_SIZE] == EncodeHeader(g.header);
    assert f.header == g.header;
    BodyParts(f, s);
    BodyParts(g, t);
    var n := HEADER_SIZE + f.header.size;
    assert s[n..] == rest && t[n..] == more;
  }

  /** The locations of a header select the texts of its frame. */
  lemma BodyParts(f: Frame, s: seq<byte>)
    requires f.WellFormed() && EncodeFrame(f) <= s
    ensures HEADER_SIZE + f.header.size == |EncodeFrame(f)| <= |s|
    ensures var t := s[HEADER_SIZE..];
      && Part(t, f.header.method_) == f.method_ && Part(t, f.header.resource) == f.resource
      && Part(t, f.header.protocol) == f.protocol && Part(t, f.header.chunks) == f.counters
  {
    var t := s[HEADER_SIZE..];
    assert t[..f.header.size] == f.Body();
    assert Part(t, f.header.method_) == Part(f.Body(), f.header.method_);
    assert Part(t, f.header.resource) == Part(f.Body(), f.header.resource);
    assert Part(t, f.header.protocol) == Part(f.Body(), f.header.protocol);
    assert Part(t, f.header.chunks) == Part(f.Body(), f.header.chunks);
  }

  /** The frame that processor_construct_response appends. */
  function NewFrame(streamSize: nat, keepAlive: bool, firstChunk: nat, chunkNumber: nat,
                    method_: seq<byte>, resource: seq<byte>, protocol: seq<byte>): Frame
  {
    var a, b, c := |method_|, |resource|, |protocol|;
    Frame(Response(streamSize, a + b + c + chunkNumber, Location(0, a), Location(a, b), Location(a + b, c),
                   Location(a + b + c, chunkNumber), keepAlive, false, firstChunk),
          method_, resource, protocol, seq(chunkNumber, _ => 0))
  }

  /** Pushes both parts of a value. */
  method PushValue(queue: Ring, value: Value) returns (r: Result)
    requires queue.Valid()
    modifies queue`size, queue.p
    ensures queue.Valid()
    ensures r == Ok <==> old(queue.size) + |value.Bytes()| <= queue.p.Length
    ensures r == Ok ==> queue.Content() == old(queue.Content()) + value.Bytes()
  {
    hide Unroll;
    r := queue.PushWrite(value.part0);
    if r == Err { return; }
    r := queue.PushWrite(value.part1);
    if r == Ok { assert queue.Content() == old(queue.Content()) + (value.part0 + value.part1); }
  }

  /** processor_construct_response: room is reserved first, so none of the pushes can fail. */
  method ConstructResponse(queue: Ring, streamSize: nat, keepAlive: bool, firstChunk: nat, chunkNumber: nat,
                           method_: Value, resource: Value, protocol: Value)
    returns (response: Response)
    requires queue.Valid()
    requires streamSize < SIZE_MODULUS && firstChunk <= UINT_MAX
    requires |method_.Bytes()| + |resource.Bytes()| + |protocol.Bytes()| + chunkNumber < SIZE_MODULUS
    modifies queue, queue.p
    ensures queue.Valid() && (queue.p == old(queue.p) || fresh(queue.p))
    ensures var f := NewFrame(streamSize, keepAlive, firstChunk, chunkNumber, method_.Bytes(), resource.Bytes(),
      protocol.Bytes());
      f.WellFormed() && response == f.header && queue.Content() == old(queue.Content()) + EncodeFrame(f)
  {
    hide Unroll;
    var size := 0;
    var n := Values.Size(method_);
    var methodLocation := Location(size, n);
    size := size + n;
    n := Values.Size(resource);
    var resourceLocation := Location(size, n);
    size := size + n;
    n := Values.Size(protocol);
    var protocolLocation := Location(size, n);
    size := size + n;
    var chunksLocation := Location(size, chunkNumber);
    size := size + chunkNumber;
    response := Response(streamSize, size, methodLocation, resourceLocation, protocolLocation, chunksLocation,
                         keepAlive, false, firstChunk);

    PushFrame(queue, EncodeHeader(response), method_, resource, protocol, chunkNumber);
    ghost var f := NewFrame(streamSize, keepAlive, firstChunk, chunkNumber, method_.Bytes(), resource.Bytes(),
      protocol.Bytes());
    assert EncodeFrame(f)
      == EncodeHeader(response) + (method_.Bytes() + resource.Bytes() + protocol.Bytes()) + f.counters;
  }

  /** One zeroed counter per chunk. */
  method PushCounters(queue: Ring, n: nat) returns (r: Result)
    requires queue.Valid()
    modifies queue`size, queue.p
    ensures queue.Valid()
    ensures r == Ok <==> old(queue.size) + n <= queue.p.Length
    ensures queue.Content() == if r == Ok then old(queue.Content()) + seq(n, _ => 0) else old(queue.Content())
  {
    hide Unroll, Covers;
    ghost var before := queue.Content();
    var chunks;
    r, chunks := queue.PushGet(n);
    if r == Err { return; }
    queue.Overwrite(chunks, |before|, seq(n, _ => 0));
    assert queue.Content() == before + seq(n, _ => 0);
  }

  /** The pushing half of processor_construct_response; the chunk counters start at zero. */
  method PushFrame(queue: Ring, header: seq<byte>, method_: Value, resource: Value, protocol: Value, chunkNumber: nat)
    requires queue.Valid()
    modifies queue, queue.p
    ensures queue.Valid() && (queue.p == old(queue.p) || fresh(queue.p))
    ensures queue.Content() == old(queue.Content())
      + (header + (method_.Bytes() + resource.Bytes() + protocol.Bytes()) + seq(chunkNumber, _ => 0))
  {
    hide Unroll, Covers;
    ghost var before := queue.Content();
    queue.Reserve(queue.size + |header| + |method_.part0| + |method_.part1| + |resource.part0| + |resource.part1|
                  + |protocol.part0| + |protocol.part1| + chunkNumber);
    var r := queue.PushWrite(header);
    assert r == Ok;
    r := PushValue(queue, method_);
    assert r == Ok;
    r := PushValue(queue, resource);
    assert r == Ok;
    r := PushValue(queue, protocol);
    assert r == Ok;
    r := PushCounters(queue, chunkNumber);
    assert r == Ok;
    ThreeTexts(before, header, method_.Bytes(), resource.Bytes(), protocol.Bytes(), seq(chunkNumber, _ => 0));
  }

  lemma ThreeTexts(before: seq<byte>, header: seq<byte>, a: seq<byte>, b: seq<byte>, c: seq<byte>, d: seq<byte>)
    ensures before + header + a + b + c + d == before + (header + (a + b + c) + d)
  {
  }
}
