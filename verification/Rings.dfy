/** ring.c: a byte queue in a circular buffer that grows by doubling. */
module Rings {
  import opened Bytes
  import opened Values

  datatype Result = Ok | Err

  /** struct ValueLocation */
  datatype Location = Location(offset: nat, size: nat)

  /** One part of a struct MutableValue that points into a ring's buffer. */
  datatype Span = Span(offset: nat, size: nat)
  {
    function Index(j: nat): nat {
      offset + j
    }
  }

  /** struct MutableValue over a ring's buffer. */
  datatype Spans = Spans(span0: Span, span1: Span)
  {
    function Size(): nat {
      span0.size + span1.size
    }

    /** The index, in the buffer, of byte j. */
    function At(j: nat): nat
      requires j < Size()
    {
      if j < span0.size then span0.offset + j else span1.offset + (j - span0.size)
    }

    predicate Fits(length: nat) {
      span0.offset + span0.size <= length && span1.offset + span1.size <= length
    }

    /** What the two pointers point to. */
    function View(buffer: seq<byte>): (v: Value)
      requires Fits(|buffer|)
    {
      Value(buffer[span0.offset..span0.offset + span0.size], buffer[span1.offset..span1.offset + span1.size])
    }
  }

  const NO_SPANS := Spans(Span(0, 0), Span(0, 0))

  /** Buffer index of byte j of a ring that starts at `begin`. */
  function Phys(capacity: nat, begin: nat, j: nat): int {
    if begin + j < capacity then begin + j else begin + j - capacity
  }

  /** The bytes of a ring in order. `begin == capacity` is a legal state. */
  function Unroll(buffer: seq<byte>, begin: nat, size: nat): (s: seq<byte>)
    requires size <= |buffer| && begin <= |buffer|
    ensures |s| == size
  {
    seq(size, j requires 0 <= j < size => buffer[Phys(|buffer|, begin, j)])
  }

  /** The spans cover bytes [offset, offset + |spans|) of the ring, in order. */
  ghost predicate Covers(spans: Spans, capacity: nat, begin: nat, offset: nat)
  {
    && spans.Fits(capacity)
    && forall j | 0 <= j < spans.Size() :: spans.At(j) == Phys(capacity, begin, offset + j)
  }

  /** Reading through spans that cover part of a ring gives that part of its content. */
  lemma CoveredBytes(spans: Spans, buffer: seq<byte>, begin: nat, size: nat, offset: nat)
    requires size <= |buffer| && begin <= |buffer|
    requires Covers(spans, |buffer|, begin, offset) && offset + spans.Size() <= size
    ensures spans.View(buffer).Bytes() == Unroll(buffer, begin, size)[offset..offset + spans.Size()]
  {
    var bytes := spans.View(buffer).Bytes();
    var part := Unroll(buffer, begin, size)[offset..offset + spans.Size()];
    forall j | 0 <= j < spans.Size()
      ensures bytes[j] == part[j]
    {
      assert bytes[j] == buffer[spans.At(j)];
    }
  }

  /** Different bytes of a ring lie at different indices of its buffer. */
  lemma PhysInjective(capacity: nat, begin: nat, size: nat, j: nat, k: nat)
    requires size <= capacity && begin <= capacity && j < size && k < size
    ensures 0 <= Phys(capacity, begin, j) < capacity
    ensures Phys(capacity, begin, j) == Phys(capacity, begin, k) ==> j == k
  {
  }

  /** The case split of ring_get: where the bytes [offset, offset + size) lie in the buffer. */
  method Locate(capacity: nat, begin: nat, offset: nat, size: nat) returns (value: Spans)
    requires begin <= capacity && offset + size <= capacity && size > 0
    ensures Covers(value, capacity, begin, offset) && value.Size() == size
  {
    var continuousAfterBegin := capacity - begin;
    if offset <= continuousAfterBegin {
      var continuousAfterOffset := continuousAfterBegin - offset;
      if continuousAfterOffset == 0 {
        value := Spans(Span(0, size), Span(0, 0));
      } else if size <= continuousAfterOffset {
        value := Spans(Span(begin + offset, size), Span(0, 0));
      } else {
        value := Spans(Span(begin + offset, continuousAfterOffset), Span(0, size - continuousAfterOffset));
      }
    } else {
      value := Spans(Span(offset - continuousAfterBegin, size), Span(0, 0));
    }
  }

  /** The loop of ring_reserve: doubles until there is room. */
  method Doubled(length: nat, capacity: nat) returns (newCapacity: nat)
    ensures newCapacity >= capacity && newCapacity >= length && newCapacity >= 1
    ensures capacity <= length && length > 0 ==> newCapacity == length
    ensures capacity > length && capacity > 1 ==> newCapacity < 2 * capacity
  {
    newCapacity := if length == 0 then 1 else length;
    while capacity > newCapacity
      invariant newCapacity >= 1 && newCapacity >= length
      invariant newCapacity == length || newCapacity == 1 || (capacity > length && newCapacity < 2 * capacity)
      decreases capacity - newCapacity
    {
      newCapacity := newCapacity * 2;
    }
  }

  class Ring {
    var p: array<byte>
    var size: nat
    var begin: nat

    ghost predicate Valid()
      reads this
    {
      size <= p.Length && begin <= p.Length
    }

    ghost function Content(): (s: seq<byte>)
      reads this, p
      requires Valid()
      ensures |s| == size
    {
      Unroll(p[..], begin, size)
    }

    /** A zero-initialised ring: no buffer, nothing in it. */
    constructor ()
      ensures Valid() && fresh(p) && Content() == []
    {
      p := new byte[0];
      size, begin := 0, 0;
    }

    /** ring_finalize */
    method Finalize()
      modifies this
      ensures Valid() && fresh(p) && Content() == []
    {
      p := new byte[0];
      size, begin := 0, 0;
    }

    /** ring_reserve: afterwards the capacity is at least `capacity`; it never shrinks, so the shrinking
        branch of the original is not reachable. A wrapped ring has its front half moved to the new edge. */
    method Reserve(capacity: nat)
      requires Valid()
      modifies this
      ensures Valid() && p.Length >= capacity && p.Length >= old(p.Length)
      ensures p == old(p) || fresh(p)
      ensures capacity <= old(p.Length) && old(p.Length) > 0 ==> p == old(p)
      ensures capacity > old(p.Length) && capacity > 1 ==> p.Length < 2 * capacity
      ensures Content() == old(Content())
    {
      var newCapacity := Doubled(p.Length, capacity);
      if newCapacity == p.Length { return; }
      var newP := new byte[newCapacity];
      forall i | 0 <= i < p.Length { newP[i] := p[i]; }
      var continuousAfterBegin := p.Length - begin;
      var newBegin := begin;
      if size > continuousAfterBegin {
        var expand := newCapacity - p.Length;
        ghost var copied := newP[..];
        forall i | 0 <= i < continuousAfterBegin { newP[begin + expand + i] := newP[begin + i]; }
        newBegin := begin + expand;
      }
      assert Unroll(newP[..], newBegin, size) == Content();
      p := newP;
      begin := newBegin;
    }

    /** Where the content lies: behind `begin`, and what does not fit there at the front of the buffer. */
    function Parts(): Spans
      reads this
      requires Valid()
    {
      var first := Min(size, p.Length - begin);
      Spans(Span(begin, first), Span(0, size - first))
    }

    /** ring_get_all */
    method GetAll() returns (value: Spans)
      requires Valid()
      ensures value == Parts()
      ensures Covers(value, p.Length, begin, 0) && value.Size() == size && value.Fits(p.Length)
      ensures value.View(p[..]).Bytes() == Content()
    {
      var continuousAfterBegin := p.Length - begin;
      if size <= continuousAfterBegin {
        value := Spans(Span(begin, size), Span(0, 0));
      } else {
        value := Spans(Span(begin, continuousAfterBegin), Span(0, size - continuousAfterBegin));
      }
      CoveredBytes(value, p[..], begin, size, 0);
    }

    /** Offset that a location means: counted from the front, or from the back when `latest`. */
    function OffsetOf(location: Location, latest: bool): nat
      reads this
      requires location.offset + location.size <= size
    {
      if latest then size - location.size - location.offset else location.offset
    }

    /** ring_get: at most two parts are ever needed. */
    method Get(location: Location, latest: bool) returns (r: Result, value: Spans)
      requires Valid()
      ensures r == Ok <==> location.offset + location.size <= size
      ensures r == Ok ==>
        && Covers(value, p.Length, begin, OffsetOf(location, latest)) && value.Size() == location.size
        && value.View(p[..]).Bytes()
          == Content()[OffsetOf(location, latest)..OffsetOf(location, latest) + location.size]
    {
      value := NO_SPANS;
      if location.offset + location.size > size { return Err, value; }
      if location.size == 0 { return Ok, value; }
      var offset := if latest then size - location.size - location.offset else location.offset;
      value := Locate(p.Length, begin, offset, location.size);
      CoveredBytes(value, p[..], begin, size, offset);
      return Ok, value;
    }

    /** ring_push: the new bytes are whatever the buffer holds. */
    method Push(n: nat) returns (r: Result)
      requires Valid()
      modifies `size
      ensures Valid()
      ensures r == Ok <==> old(size) + n <= p.Length
      ensures if r == Ok then size == old(size) + n && Content()[..old(size)] == old(Content())
              else size == old(size)
    {
      if size + n > p.Length { return Err; }
      size := size + n;
      return Ok;
    }

    /** ring_push_get: like Push, and points to the new bytes. */
    method PushGet(n: nat) returns (r: Result, value: Spans)
      requires Valid()
      modifies `size
      ensures Valid()
      ensures r == Ok <==> old(size) + n <= p.Length
      ensures r == Err ==> size == old(size)
      ensures r == Ok ==>
        && size == old(size) + n && Content()[..old(size)] == old(Content())
        && Covers(value, p.Length, begin, old(size)) && value.Size() == n
    {
      value := NO_SPANS;
      r := Push(n);
      if r == Err { return; }
      r, value := Get(Location(0, n), true);
    }

    /** Overwrites the bytes that the spans cover (value_write); no other byte of the ring changes. */
    method Overwrite(value: Spans, ghost offset: nat, source: seq<byte>)
      requires Valid()
      requires Covers(value, p.Length, begin, offset) && offset + value.Size() <= size && |source| == value.Size()
      modifies p
      ensures Valid()
      ensures Content() == old(Content())[..offset] + source + old(Content())[offset + |source|..]
    {
      ghost var before := p[..];
      var n := value.span0.size;
      forall j | 0 <= j < n { p[value.span0.offset + j] := source[j]; }
      assert p[..] == Put(before, value.span0, source[..n]);
      ghost var middle := p[..];
      forall j | 0 <= j < value.span1.size { p[value.span1.offset + j] := source[n + j]; }
      assert p[..] == Put(middle, value.span1, source[n..]);
      WrittenBytes(before, begin, size, value, offset, source);
    }

    /** ring_push_write */
    method PushWrite(source: seq<byte>) returns (r: Result)
      requires Valid()
      modifies `size, p
      ensures Valid()
      ensures r == Ok <==> old(size) + |source| <= p.Length
      ensures Content() == if r == Ok then old(Content()) + source else old(Content())
    {
      var value;
      r, value := PushGet(|source|);
      if r == Err { return; }
      Overwrite(value, old(size), source);
      assert Content() == old(Content()) + source;
    }

    /** ring_pop */
    method Pop(n: nat) returns (r: Result)
      requires Valid()
      modifies `size, `begin
      ensures Valid()
      ensures r == Ok <==> n <= old(size)
      ensures Content() == if r == Ok then old(Content())[n..] else old(Content())
    {
      if size < n { return Err; }
      var continuousAfterBegin := p.Length - begin;
      begin := if n <= continuousAfterBegin then begin + n else n - continuousAfterBegin;
      size := size - n;
      if size == 0 { begin := 0; }
      assert Content() == old(Content())[n..];
      return Ok;
    }

    /** ring_pop_read */
    method PopRead(n: nat) returns (r: Result, data: seq<byte>)
      requires Valid()
      modifies `size, `begin
      ensures Valid()
      ensures r == Ok <==> n <= old(size)
      ensures r == Ok ==> old(Content()) == data + Content() && |data| == n
      ensures r == Err ==> Content() == old(Content())
    {
      hide Unroll, Covers;
      data := [];
      ghost var content := Content();
      var value;
      r, value := Get(Location(0, n), false);
      if r == Err { return; }
      data := value.View(p[..]).Bytes();
      assert data == content[0..n];
      r := Pop(n);
    }

    /** ring_unpush */
    method Unpush(n: nat) returns (r: Result)
      requires Valid()
      modifies `size
      ensures Valid()
      ensures r == Ok <==> n <= old(size)
      ensures Content() == if r == Ok then old(Content())[..old(size) - n] else old(Content())
    {
      if size < n { return Err; }
      size := size - n;
      assert Content() == old(Content())[..old(size) - n];
      return Ok;
    }
  }

  /** A buffer index inside a span belongs to exactly the covered byte that the span puts there. */
  lemma IndexInside(value: Spans, capacity: nat, begin: nat, size: nat, offset: nat, j: nat)
    requires size <= capacity && begin <= capacity && j < size
    requires Covers(value, capacity, begin, offset) && offset + value.Size() <= size
    ensures var x := Phys(capacity, begin, j);
      && (value.span0.offset <= x < value.span0.offset + value.span0.size ==> j == offset + (x - value.span0.offset))
      && (value.span1.offset <= x < value.span1.offset + value.span1.size
        ==> j == offset + value.span0.size + (x - value.span1.offset))
  {
    var x := Phys(capacity, begin, j);
    forall k | 0 <= k < value.Size() && value.At(k) == x
      ensures j == offset + k
    {
      PhysInjective(capacity, begin, size, j, offset + k);
    }
    assert value.span0.offset <= x < value.span0.offset + value.span0.size ==> value.At(x - value.span0.offset) == x;
    assert value.span1.offset <= x < value.span1.offset + value.span1.size ==>
      value.At(value.span0.size + (x - value.span1.offset)) == x;
  }

  /** A buffer after data was copied into one span. */
  function Put(buffer: seq<byte>, span: Span, data: seq<byte>): (r: seq<byte>)
    requires span.offset + span.size <= |buffer| && |data| == span.size
    ensures |r| == |buffer|
  {
    buffer[..span.offset] + data + buffer[span.offset + span.size..]
  }

  /** Writing both parts of a value changes exactly the covered bytes of the ring. */
  lemma WrittenBytes(before: seq<byte>, begin: nat, size: nat, value: Spans, offset: nat, source: seq<byte>)
    requires size <= |before| && begin <= |before|
    requires Covers(value, |before|, begin, offset) && offset + value.Size() <= size && |source| == value.Size()
    ensures Unroll(Put(Put(before, value.span0, source[..value.span0.size]), value.span1, source[value.span0.size..]),
      begin, size)
         == Unroll(before, begin, size)[..offset] + source + Unroll(before, begin, size)[offset + |source|..]
  {
    var after := Put(Put(before, value.span0, source[..value.span0.size]), value.span1, source[value.span0.size..]);
    var goal := Unroll(before, begin, size)[..offset] + source + Unroll(before, begin, size)[offset + |source|..];
    forall j | 0 <= j < size
      ensures Unroll(after, begin, size)[j] == goal[j]
    {
      IndexInside(value, |before|, begin, size, offset, j);
      if offset <= j < offset + value.Size() {
        assert value.At(j - offset) == Phys(|before|, begin, j);
      }
    }
  }

  /** The bytes at a location; empty when the location lies outside. */
  function Part(s: seq<byte>, location: Location): seq<byte> {
    if location.offset + location.size <= |s| then s[location.offset..location.offset + location.size] else []
  }

  /** ring_get for a location that is known to lie inside. */
  method GetValue(ring: Ring, location: Location) returns (value: Value)
    requires ring.Valid() && location.offset + location.size <= ring.size
    ensures value.Bytes() == Part(ring.Content(), location)
  {
    hide Unroll;
    var r, spans := ring.Get(location, false);
    value := spans.View(ring.p[..]);
  }
}
