/** The chunk layout of a Guppy message, and the in-place insertion of its sequence markers. */
module Guppy {
  import opened Bytes

  const CHUNK_SIZE := 512

  /** The text in front of chunk k: its sequence number, then a space (first chunk) or CR LF. */
  function Marker(first: nat, k: nat): (m: seq<byte>)
  {
    Decimal(first + k) + if k == 0 then [SPACE] else [CR, LF]
  }

  /** Payload bytes that fit behind the marker of chunk k. */
  function Room(first: nat, k: nat): int {
    CHUNK_SIZE - |Marker(first, k)|
  }

  /** Payload bytes that k full chunks hold. */
  function Full(first: nat, k: nat): int {
    if k == 0 then 0 else Full(first, k - 1) + Room(first, k - 1)
  }

  /** Payload bytes held by the first k chunks of a message with `size` payload bytes. */
  function Held(first: nat, k: nat, size: nat): int {
    if Full(first, k) <= size then Full(first, k) else size
  }

  /** Chunk k of the message: marker, then the payload that is due. */
  function Chunk(first: nat, k: nat, payload: seq<byte>): (c: seq<byte>)
    requires 0 <= Held(first, k, |payload|) <= Held(first, k + 1, |payload|)
  {
    Marker(first, k) + payload[Held(first, k, |payload|)..Held(first, k + 1, |payload|)]
  }

  /** No sequence number of the message leaves the 32-bit range. */
  predicate Fits(first: nat, size: nat) {
    500 * (first + 2) + size <= 500 * 0x1_0000_0000
  }

  /** n is the number of chunks: the last chunk is the first one with no payload left for it. */
  predicate IsCount(first: nat, n: nat, size: nat) {
    && n >= 1
    && size <= Full(first, n - 1)
    && (n >= 2 ==> Full(first, n - 2) < size)
    && first + n <= 0x1_0000_0000
  }

  /** The first k chunks, one after the other. */
  function Chunks(first: nat, k: nat, payload: seq<byte>): (m: seq<byte>)
    requires first + k <= 0x1_0000_0000
    ensures |m| >= k
  {
    if k == 0 then []
    else
      HeldGrows(first, k - 1, |payload|);
      Chunks(first, k - 1, payload) + Chunk(first, k - 1, payload)
  }

  lemma RoomBounds(first: nat, k: nat)
    requires first + k < 0x1_0000_0000
    ensures 500 <= Room(first, k) <= 510
    ensures 2 <= |Marker(first, k)| <= 12
  {
    Pow10Nineteen();
    DecimalLengthBound(first + k, 10);
  }

  lemma {:induction false} FullGrows(first: nat, k: nat)
    requires first + k <= 0x1_0000_0000
    ensures Full(first, k) >= 500 * k
  {
    if k > 0 { FullGrows(first, k - 1); RoomBounds(first, k - 1); }
  }

  lemma HeldGrows(first: nat, k: nat, size: nat)
    requires first + k < 0x1_0000_0000
    ensures 0 <= Held(first, k, size) <= Held(first, k + 1, size) <= size
  {
    FullGrows(first, k);
    RoomBounds(first, k);
  }

  /** A chunk before the last two is full; the last one holds only its marker. */
  lemma ChunkSizes(first: nat, n: nat, k: nat, payload: seq<byte>)
    requires IsCount(first, n, |payload|) && k < n
    ensures 0 <= Held(first, k, |payload|) <= Held(first, k + 1, |payload|)
    ensures k + 2 < n ==> |Chunk(first, k, payload)| == 512
    ensures k + 2 == n ==> |Marker(first, k)| < |Chunk(first, k, payload)| <= 512
    ensures k + 1 == n ==> Chunk(first, k, payload) == Marker(first, k)
    ensures |Chunk(first, k, payload)| <= 512
  {
    HeldGrows(first, k, |payload|);
    FullGrows(first, k);
    RoomBounds(first, k);
    if k + 2 < n { FullMonotone(first, k + 1, n - 2); }
    else if k + 2 == n { }
    else { assert Held(first, k, |payload|) == |payload|; }
  }

  lemma {:induction false} FullMonotone(first: nat, a: nat, b: nat)
    requires a <= b && first + b <= 0x1_0000_0000
    ensures Full(first, a) <= Full(first, b)
    decreases b
  {
    if a < b { FullMonotone(first, a, b - 1); RoomBounds(first, b - 1); }
  }

  /** The number of chunks is determined by the payload size. */
  lemma CountUnique(first: nat, n: nat, m: nat, size: nat)
    requires IsCount(first, n, size) && IsCount(first, m, size)
    ensures n == m
  {
    if n < m { FullMonotone(first, n - 1, m - 2); }
    if m < n { FullMonotone(first, m - 1, n - 2); }
  }

  /** commonlib string buffer: bytes p[..size], a terminating zero behind them. */
  class CharBuffer {
    var p: array<byte>
    var size: nat

    ghost predicate Valid()
      reads this
    {
      size <= p.Length
    }

    ghost function Contents(): seq<byte>
      reads this, p
      requires Valid()
    {
      p[..size]
    }

    constructor ()
      ensures Valid() && fresh(p) && Contents() == []
    {
      p := new byte[0];
      size := 0;
    }

    /** Changes the size, reallocating by doubling; keeps the bytes that both sizes share. */
    method Resize(newSize: nat)
      requires Valid()
      modifies this, p
      ensures Valid() && size == newSize < p.Length
      ensures p == old(p) || fresh(p)
      ensures forall i :: 0 <= i < old(size) && i < newSize ==> p[i] == old(p[i])
    {
      if newSize + 1 > p.Length {
        var newCapacity := if p.Length == 0 then 1 else p.Length;
        while newSize + 1 > newCapacity
          invariant newCapacity >= 1 && newCapacity >= p.Length
          decreases newSize + 1 - newCapacity
        {
          newCapacity := newCapacity * 2;
        }
        var newP := new byte[newCapacity];
        forall i | 0 <= i < p.Length { newP[i] := p[i]; }
        p := newP;
      }
      size := newSize;
      p[size] := 0;
    }
  }

  lemma {:induction false} ChunksLength(first: nat, k: nat, payload: seq<byte>)
    requires first + k <= 0x1_0000_0000
    ensures |Chunks(first, k, payload)| >= Held(first, k, |payload|) >= 0
    ensures k >= 1 ==> |Chunks(first, k, payload)| >= 2
  {
    if k > 0 {
      HeldGrows(first, k - 1, |payload|);
      RoomBounds(first, k - 1);
      ChunksLength(first, k - 1, payload);
    }
  }

  lemma {:induction false} ChunksPrefix(first: nat, a: nat, b: nat, payload: seq<byte>)
    requires a <= b && first + b <= 0x1_0000_0000
    ensures Chunks(first, a, payload) <= Chunks(first, b, payload)
    decreases b
  {
    if a < b { ChunksPrefix(first, a, b - 1, payload); HeldGrows(first, b - 1, |payload|); }
  }

  /** Moves size bytes inside a buffer; the ranges may overlap (memmove). */
  method Move(p: array<byte>, to: nat, from: nat, size: nat)
    requires to + size <= p.Length && from + size <= p.Length
    modifies p
    ensures p[..] == old(p[..to] + p[from..from + size] + p[to + size..])
  {
    forall i | 0 <= i < size { p[to + i] := p[from + i]; }
  }

  /** Copies data into a buffer (memcpy). */
  method Copy(p: array<byte>, to: nat, data: seq<byte>)
    requires to + |data| <= p.Length
    modifies p
    ensures p[..] == old(p[..to]) + data + old(p[to + |data|..])
  {
    forall i | 0 <= i < |data| { p[to + i] := data[i]; }
  }

  /** Size of chunk k, marker included. */
  function ChunkSize(first: nat, k: nat, size: nat): int {
    |Marker(first, k)| + Held(first, k + 1, size) - Held(first, k, size)
  }

  /** older and latest are the sizes of chunks k-2 and k-1, where those exist. */
  ghost predicate LatestSizes(first: nat, k: nat, size: nat, older: int, latest: int)
  {
    && (k >= 1 ==> latest == ChunkSize(first, k - 1, size))
    && (k >= 2 ==> older == ChunkSize(first, k - 2, size))
  }

  /** The forward scan stands before chunk k, which has a sequence number and payload before it in every chunk. */
  ghost predicate Sizing(first: nat, k: nat, payload: seq<byte>, total: int, held: int, older: int, latest: int)
  {
    && first + k < UINT_MAX
    && (k > 0 ==> Full(first, k - 1) < |payload|)
    && held == Held(first, k, |payload|)
    && total == |Chunks(first, k, payload)|
    && LatestSizes(first, k, |payload|, older, latest)
  }

  /** One step of the first loop of guppy_insert_markers: the payload size of the next chunk. */
  method SizeChunk(seqNo: nat, initialPayloadSize: nat, totalSize: nat, payloadSize: nat,
                   ghost first: nat, ghost k: nat, ghost payload: seq<byte>, ghost older: int, ghost latest: int)
    returns (chunkPayloadSize: nat, chunkTotalSize: nat)
    requires seqNo == first + k && initialPayloadSize == |payload| && Fits(first, |payload|)
    requires Sizing(first, k, payload, totalSize, payloadSize, older, latest)
    ensures chunkTotalSize == ChunkSize(first, k, |payload|)
    ensures payloadSize + chunkPayloadSize == Held(first, k + 1, |payload|) <= |payload|
    ensures totalSize + chunkTotalSize == |Chunks(first, k + 1, payload)|
    ensures if chunkPayloadSize == 0 then IsCount(first, k + 1, |payload|)
            else Sizing(first, k + 1, payload, totalSize + chunkTotalSize, payloadSize + chunkPayloadSize, latest,
              chunkTotalSize)
  {
    SizeStep(first, k, payload);
    var digits := IntLength(seqNo);
    var chunkExtraSize := digits.length;
    chunkExtraSize := chunkExtraSize + if totalSize == 0 then 1 else 2;
    var maxChunkPayloadSize := CHUNK_SIZE - chunkExtraSize;
    chunkPayloadSize :=
      if initialPayloadSize - payloadSize < maxChunkPayloadSize then initialPayloadSize - payloadSize
      else maxChunkPayloadSize;
    chunkTotalSize := chunkExtraSize + chunkPayloadSize;
  }

  /** First loop of guppy_insert_markers: sizes all chunks forwards, keeping only the two latest sizes. */
  method SizeChunks(firstChunk: nat, ghost payload: seq<byte>, initialPayloadSize: nat)
    returns (chunkNumber: nat, totalSize: nat, payloadSize: nat, older: nat, latest: nat)
    requires initialPayloadSize == |payload| && Fits(firstChunk, |payload|)
    ensures IsCount(firstChunk, chunkNumber, |payload|)
    ensures totalSize == |Chunks(firstChunk, chunkNumber, payload)|
    ensures payloadSize == Held(firstChunk, chunkNumber, |payload|)
    ensures LatestSizes(firstChunk, chunkNumber, |payload|, older, latest)
  {
    hide Held, Full, Chunks, IsCount;
    older, latest := 0, 0;
    StartSizing(firstChunk, payload);
    var seqNo := firstChunk;
    totalSize, payloadSize := 0, 0;
    ghost var k := 0;
    while true
      invariant seqNo == firstChunk + k && payloadSize <= |payload|
      invariant Sizing(firstChunk, k, payload, totalSize, payloadSize, older, latest)
      decreases initialPayloadSize - payloadSize
    {
      var chunkPayloadSize, chunkTotalSize :=
        SizeChunk(seqNo, initialPayloadSize, totalSize, payloadSize, firstChunk, k, payload, older, latest);
      older := latest;
      latest := chunkTotalSize;
      payloadSize := payloadSize + chunkPayloadSize;
      totalSize := totalSize + chunkTotalSize;
      k := k + 1;
      if chunkPayloadSize == 0 { break; }
      seqNo := seqNo + 1;
    }
    chunkNumber := seqNo - firstChunk + 1;
  }

  lemma StartSizing(first: nat, payload: seq<byte>)
    requires Fits(first, |payload|)
    ensures Sizing(first, 0, payload, 0, 0, 0, 0)
  {
  }

  lemma SizeStep(first: nat, k: nat, payload: seq<byte>)
    requires first + k < UINT_MAX && Fits(first, |payload|)
    requires k > 0 ==> Full(first, k - 1) < |payload|
    ensures 0 <= Held(first, k, |payload|) <= Held(first, k + 1, |payload|) <= |payload|
    ensures |Marker(first, k)| <= 12
    ensures Held(first, k + 1, |payload|) - Held(first, k, |payload|)
         == if |payload| - Held(first, k, |payload|) < Room(first, k) then |payload| - Held(first, k, |payload|)
            else Room(first, k)
    ensures |Chunks(first, k, payload)| == 0 <==> k == 0
    ensures |Chunks(first, k + 1, payload)|
         == |Chunks(first, k, payload)| + |Marker(first, k)| + Held(first, k + 1, |payload|) - Held(first, k, |payload|)
    ensures Held(first, k, |payload|) < Held(first, k + 1, |payload|)
      ==> first + k + 1 < UINT_MAX && Full(first, k) < |payload|
    ensures Held(first, k, |payload|) == Held(first, k + 1, |payload|) ==> IsCount(first, k + 1, |payload|)
  {
    HeldGrows(first, k, |payload|);
    RoomBounds(first, k);
    ChunksLength(first, k, payload);
    FullGrows(first, k);
  }

  /** The buffer after a chunk with the given marker was put at total, its payload taken from `from`. */
  function Placed(p: seq<byte>, extra: seq<byte>, total: nat, from: nat, size: nat): (r: seq<byte>)
    requires from <= total && total + |extra| + size <= |p|
  {
    p[..total] + extra + p[from..from + size] + p[total + |extra| + size..]
  }

  /** Everything from `total` on is in its final place, the first `held` payload bytes are still unmoved. */
  ghost predicate Spreading(p: seq<byte>, message: seq<byte>, total: int, payload: seq<byte>, held: int)
  {
    && 0 <= held <= |payload| && held <= total <= |message| <= |p|
    && p[..held] == payload[..held]
    && p[total..|message|] == message[total..]
  }

  /** Placing chunk k keeps the backward scan correct: nothing unmoved is overwritten. */
  lemma SpreadStep(before: seq<byte>, message: seq<byte>, first: nat, k: nat, payload: seq<byte>, from: nat, size: nat)
    requires first + k < 0x1_0000_0000
    requires Chunks(first, k + 1, payload) <= message
    requires Spreading(before, message, |Chunks(first, k + 1, payload)|, payload, Held(first, k + 1, |payload|))
    requires from == Held(first, k, |payload|) && from + size == Held(first, k + 1, |payload|)
    ensures |Chunks(first, k + 1, payload)| == |Chunks(first, k, payload)| + |Marker(first, k)| + size
    ensures from <= |Chunks(first, k, payload)|
    ensures Spreading(Placed(before, Marker(first, k), |Chunks(first, k, payload)|, from, size), message,
                      |Chunks(first, k, payload)|, payload, from)
  {
    HeldGrows(first, k, |payload|);
    ChunksLength(first, k, payload);
    var done := Chunks(first, k, payload);
    assert Chunks(first, k + 1, payload) == done + (Marker(first, k) + payload[from..from + size]);
    PlacedParts(before, Marker(first, k), done, payload, message, from, size);
  }

  lemma PlacedParts(p: seq<byte>, extra: seq<byte>, done: seq<byte>, payload: seq<byte>, message: seq<byte>, from: nat,
                    size: nat)
    requires from <= |done| && from + size <= |payload|
    requires done + (extra + payload[from..from + size]) <= message && |message| <= |p|
    requires p[..from + size] == payload[..from + size]
    requires p[|done| + |extra| + size..|message|] == message[|done| + |extra| + size..]
    ensures Placed(p, extra, |done|, from, size)[..from] == payload[..from]
    ensures Placed(p, extra, |done|, from, size)[|done|..|message|] == message[|done|..]
  {
    var r := Placed(p, extra, |done|, from, size);
    var next := |done| + |extra| + size;
    assert r[..from] == p[..from + size][..from];
    assert p[from..from + size] == p[..from + size][from..];
    assert message[..next] == done + (extra + payload[from..from + size]);
    assert message[|done|..] == message[..next][|done|..] + message[next..];
    assert r[|done|..|message|] == extra + p[from..from + size] + p[next..|message|];
  }

  /** One step of the second loop of guppy_insert_markers: moves one chunk to its final place. */
  method PlaceChunk(p: array<byte>, extra: seq<byte>, total: nat, from: nat, size: nat)
    requires from <= total && total + |extra| + size <= p.Length
    modifies p
    ensures p[..] == Placed(old(p[..]), extra, total, from, size)
  {
    ghost var before := p[..];
    Move(p, total + |extra|, from, size);
    ghost var moved := p[..];
    Copy(p, total, extra);
    assert moved[..total] == before[..total];
    assert moved[total + |extra|..] == before[from..from + size] + before[total + |extra| + size..];
    assert p[..] == before[..total] + extra + moved[total + |extra|..];
  }

  /** guppy_processor.c: sizes all chunks forwards, then spreads the payload backwards in place.
      Only the two latest chunk sizes are kept; every earlier chunk is taken to be full. */
  method InsertMarkers(buffer: CharBuffer, random: nat) returns (firstChunk: nat, chunkNumber: nat)
    requires buffer.Valid()
    requires random < 0x100_0000
    requires Fits(6 + random, buffer.size)
    modifies buffer, buffer.p
    ensures firstChunk == 6 + random
    ensures IsCount(firstChunk, chunkNumber, |old(buffer.Contents())|)
    ensures buffer.Valid()
    ensures buffer.Contents() == Chunks(firstChunk, chunkNumber, old(buffer.Contents()))
  {
    ghost var payload := buffer.Contents();
    firstChunk := 6 + random;
    var totalSize, payloadSize, older, latest;
    chunkNumber, totalSize, payloadSize, older, latest := SizeChunks(firstChunk, payload, buffer.size);
    AllHeld(firstChunk, chunkNumber, payload);
    buffer.Resize(totalSize);
    assert buffer.p[..|payload|] == payload;
    SpreadChunks(buffer.p, firstChunk, chunkNumber, payload, totalSize, payloadSize, older, latest);
  }

  /** The backward scan stands behind chunk k-1: chunks k.. are final, the payload before them is unmoved. */
  ghost predicate Scanning(p: seq<byte>, first: nat, n: nat, k: nat, payload: seq<byte>,
                           total: int, held: int, older: int, latest: int)
    requires k <= n && first + n <= 0x1_0000_0000
  {
    && held == Held(first, k, |payload|)
    && total == |Chunks(first, k, payload)|
    && LatestSizes(first, k, |payload|, older, latest)
    && Spreading(p, Chunks(first, n, payload), total, payload, held)
  }

  /** One step of the second loop of guppy_insert_markers: moves chunk k to its final place. */
  method SpreadChunk(p: array<byte>, seqNo: nat, firstChunk: nat, total: nat, held: nat, older: int, latest: nat,
                     ghost n: nat, ghost k: nat, ghost payload: seq<byte>)
    returns (totalSize: nat, payloadSize: nat)
    requires k < n && IsCount(firstChunk, n, |payload|) && seqNo == firstChunk + k
    requires Scanning(p[..], firstChunk, n, k + 1, payload, total, held, older, latest)
    modifies p
    ensures Scanning(p[..], firstChunk, n, k, payload, totalSize, payloadSize, CHUNK_SIZE, older)
  {
    hide Held, Full, Chunks, Decimal, Placed;
    var extra := Decimal(seqNo) + if seqNo == firstChunk then [SPACE] else [CR, LF];
    LatestChunk(firstChunk, n, k, payload, older, latest);
    ChunksPrefix(firstChunk, k + 1, n, payload);
    var chunkPayloadSize := latest - |extra|;
    payloadSize := held - chunkPayloadSize;
    totalSize := total - latest;
    SpreadStep(p[..], Chunks(firstChunk, n, payload), firstChunk, k, payload, payloadSize, chunkPayloadSize);
    PlaceChunk(p, extra, totalSize, payloadSize, chunkPayloadSize);
  }

  /** Second loop of guppy_insert_markers: walks the chunks backwards. */
  method SpreadChunks(p: array<byte>, firstChunk: nat, chunkNumber: nat, ghost payload: seq<byte>,
                      initialTotal: nat, initialPayload: nat, initialOlder: nat, initialLatest: nat)
    requires IsCount(firstChunk, chunkNumber, |payload|)
    requires Scanning(p[..], firstChunk, chunkNumber, chunkNumber, payload, initialTotal, initialPayload, initialOlder,
      initialLatest)
    modifies p
    ensures Spreading(p[..], Chunks(firstChunk, chunkNumber, payload), 0, payload, 0)
  {
    var seqNo := firstChunk + chunkNumber - 1;
    var totalSize, payloadSize, older, latest := initialTotal, initialPayload, initialOlder, initialLatest;
    ghost var k := chunkNumber;
    while true
      invariant k <= chunkNumber && seqNo == firstChunk + k - 1 && seqNo >= firstChunk
      invariant Scanning(p[..], firstChunk, chunkNumber, k, payload, totalSize, payloadSize, older, latest)
      decreases k
    {
      k := k - 1;
      totalSize, payloadSize :=
        SpreadChunk(p, seqNo, firstChunk, totalSize, payloadSize, older, latest, chunkNumber, k, payload);
      latest := older;
      older := CHUNK_SIZE;
      if seqNo == firstChunk { break; }
      seqNo := seqNo - 1;
    }
  }

  lemma AllHeld(first: nat, n: nat, payload: seq<byte>)
    requires IsCount(first, n, |payload|)
    ensures Held(first, n, |payload|) == |payload| <= |Chunks(first, n, payload)|
  {
    HeldGrows(first, n - 1, |payload|);
    ChunksLength(first, n, payload);
  }

  /** What the remembered sizes say about chunk k, and what they say afterwards about the one before it. */
  lemma LatestChunk(first: nat, n: nat, k: nat, payload: seq<byte>, older: int, latest: int)
    requires k < n && IsCount(first, n, |payload|)
    requires LatestSizes(first, k + 1, |payload|, older, latest)
    ensures 0 <= Held(first, k, |payload|) <= Held(first, k + 1, |payload|) <= |payload|
    ensures latest == |Marker(first, k)| + Held(first, k + 1, |payload|) - Held(first, k, |payload|)
    ensures |Chunks(first, k + 1, payload)| == |Chunks(first, k, payload)| + latest
    ensures LatestSizes(first, k, |payload|, CHUNK_SIZE, older)
  {
    HeldGrows(first, k, |payload|);
    if k >= 2 { ChunkSizes(first, n, k - 2, payload); }
  }
}
