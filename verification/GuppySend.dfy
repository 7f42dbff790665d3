/** Sending a Guppy message chunk by chunk: cutting, retransmission and acknowledgements. */
module GuppySend {
  import opened Bytes
  import opened Values
  import opened Rings
  import opened Frames
  import opened Guppy

  const REPEATS := 4
  const SIMULTANEOUS := 4

  // ---- Cutting the message where the markers were put ----

  /** The size with which server_send_message cuts chunk k: 512 * (n - 2) is 32-bit unsigned, the rest is size_t. */
  function CutSize(total: nat, n: nat, last: nat, k: nat): (size: nat) {
    if k == n - 2 then (total - last - (CHUNK_SIZE * (n - 2)) % 0x1_0000_0000) % SIZE_MODULUS
    else if k == n - 1 then last
    else CHUNK_SIZE
  }

  /** What sendto is given: that many bytes, from where the data lies. Beyond the end of the message the size is larger
      than the data. */
  datatype Datagram = Datagram(data: seq<byte>, size: nat)

  /** What is left of a message of n chunks before chunk k is cut. */
  function Rest(message: seq<byte>, n: nat, last: nat, k: nat): (r: seq<byte>)
    ensures |r| <= |message|
  {
    if k == 0 then message
    else
      var r := Rest(message, n, last, k - 1);
      r[Min(CutSize(|message|, n, last, k - 1), |r|)..]
  }

  /** The datagram that server_send_message makes of chunk k. */
  function Piece(message: seq<byte>, n: nat, last: nat, k: nat): (d: Datagram) {
    var r := Rest(message, n, last, k);
    var size := CutSize(|message|, n, last, k);
    Datagram(r[..Min(size, |r|)], size)
  }

  /** The size that the callers of server_send_message pass for the last chunk. */
  function LastSize(first: nat, n: nat): nat
    requires n > 0
  {
    |Decimal(first + n - 1)| + 2
  }

  lemma {:induction false} FullChunks(first: nat, n: nat, k: nat, payload: seq<byte>)
    requires IsCount(first, n, |payload|) && k + 1 < n
    ensures |Chunks(first, k, payload)| == CHUNK_SIZE * k
  {
    if k > 0 {
      FullChunks(first, n, k - 1, payload);
      ChunkSizes(first, n, k - 1, payload);
    }
  }

  /** A message is full chunks, then one with the rest of the payload, then one with only a marker. */
  lemma MessageSize(first: nat, n: nat, payload: seq<byte>)
    requires IsCount(first, n, |payload|) && n >= 2
    ensures 0 <= Held(first, n - 2, |payload|) <= Held(first, n - 1, |payload|)
    ensures |Chunks(first, n, payload)| == CHUNK_SIZE * (n - 2) + |Chunk(first, n - 2, payload)| + LastSize(first, n)
    ensures 0 < |Chunk(first, n - 2, payload)| <= CHUNK_SIZE
  {
    FullChunks(first, n, n - 2, payload);
    ChunkSizes(first, n, n - 2, payload);
    ChunkSizes(first, n, n - 1, payload);
  }

  /** For which chunks the sender cuts the right size. */
  predicate CutsRight(first: nat, n: nat, payload: seq<byte>, k: nat)
    requires first + k < 0x1_0000_0000 && n > 0
  {
    HeldGrows(first, k, |payload|);
    first + n <= 0x1_0000_0000 &&
    CutSize(|Chunks(first, n, payload)|, n, LastSize(first, n), k) == |Chunk(first, k, payload)|
  }

  lemma CutsRightWhenMany(first: nat, n: nat, payload: seq<byte>, k: nat)
    requires IsCount(first, n, |payload|) && k < n
    requires 2 <= n <= 0x80_0001
    ensures CutsRight(first, n, payload, k)
  {
    hide CutSize, Chunk, Chunks, Held;
    MessageSize(first, n, payload);
    ChunkSizes(first, n, k, payload);
    CutSizes(|Chunks(first, n, payload)|, n, LastSize(first, n), k, |Chunk(first, n - 2, payload)|);
    HeldGrows(first, k, |payload|);
    if k == n - 1 { LastIsMarker(first, n, payload); }
  }

  lemma LastIsMarker(first: nat, n: nat, payload: seq<byte>)
    requires n >= 2 && Chunk.requires(first, n - 1, payload) && Chunk(first, n - 1, payload) == Marker(first, n - 1)
    ensures |Chunk(first, n - 1, payload)| == LastSize(first, n)
  {
  }

  /** The three sizes, when the 32-bit product does not wrap. */
  lemma CutSizes(total: nat, n: nat, last: nat, k: nat, rest: nat)
    requires 2 <= n <= 0x80_0001 && k < n && total == CHUNK_SIZE * (n - 2) + rest + last && rest < SIZE_MODULUS
    ensures CutSize(total, n, last, k) == if k == n - 2 then rest else if k == n - 1 then last else CHUNK_SIZE
  {
    assert CHUNK_SIZE * (n - 2) < 0x1_0000_0000;
    if k == n - 2 { Reduced(rest, 0, rest); }
  }

  /** A lone chunk is cut one byte too long; past 2^23 + 1 chunks the 32-bit product wraps. */
  lemma CutsWrong(first: nat, n: nat, payload: seq<byte>) returns (k: nat)
    requires IsCount(first, n, |payload|)
    requires n == 1 || n > 0x80_0001
    ensures k < n && !CutsRight(first, n, payload, k)
  {
    if n == 1 {
      k := 0;
      ChunkSizes(first, n, 0, payload);
    } else {
      k := n - 2;
      MessageSize(first, n, payload);
    }
  }

  lemma TakeDrop(a: seq<byte>, b: seq<byte>, message: seq<byte>)
    requires a + b <= message
    ensures message[|a|..][..|b|] == b && message[|a|..][|b|..] == message[|a + b|..]
  {
    assert message == a + (b + message[|a + b|..]);
  }

  lemma RestNext(message: seq<byte>, n: nat, last: nat, k: nat, before: seq<byte>, chunk: seq<byte>)
    requires before + chunk <= message && Rest(message, n, last, k) == message[|before|..]
    requires CutSize(|message|, n, last, k) == |chunk|
    ensures Rest(message, n, last, k + 1) == message[|before + chunk|..]
  {
    hide CutSize;
    TakeDrop(before, chunk, message);
  }

  lemma ChunksNext(first: nat, k: nat, payload: seq<byte>)
    requires first + k < 0x1_0000_0000
    ensures 0 <= Held(first, k, |payload|) <= Held(first, k + 1, |payload|)
    ensures Chunks(first, k + 1, payload) == Chunks(first, k, payload) + Chunk(first, k, payload)
  {
    hide Chunk, Held;
    HeldGrows(first, k, |payload|);
  }

  /** As long as the sizes are right, the pieces cut before chunk k are the first k chunks. */
  lemma {:induction false} RestBehindChunks(first: nat, n: nat, payload: seq<byte>, k: nat)
    requires IsCount(first, n, |payload|) && 2 <= n <= 0x80_0001 && k <= n
    ensures |Chunks(first, k, payload)| <= |Chunks(first, n, payload)|
    ensures Rest(Chunks(first, n, payload), n, LastSize(first, n), k)
      == Chunks(first, n, payload)[|Chunks(first, k, payload)|..]
  {
    hide CutSize, Chunk, Held, LastSize, Chunks;
    ChunksPrefix(first, k, n, payload);
    if k > 0 {
      RestBehindChunks(first, n, payload, k - 1);
      CutsRightWhenMany(first, n, payload, k - 1);
      ChunksNext(first, k - 1, payload);
      RestNext(Chunks(first, n, payload), n, LastSize(first, n), k - 1, Chunks(first, k - 1, payload),
        Chunk(first, k - 1, payload));
    } else {
      NoChunks(first, payload);
    }
  }

  lemma NoChunks(first: nat, payload: seq<byte>)
    requires first <= 0x1_0000_0000
    ensures Chunks(first, 0, payload) == []
  {
  }

  lemma PieceNext(message: seq<byte>, n: nat, last: nat, k: nat, before: seq<byte>, chunk: seq<byte>)
    requires before + chunk <= message && Rest(message, n, last, k) == message[|before|..]
    requires CutSize(|message|, n, last, k) == |chunk|
    ensures Piece(message, n, last, k) == Datagram(chunk, |chunk|)
  {
    hide CutSize, Rest;
    TakeDrop(before, chunk, message);
  }

  lemma PiecesRightWhenMany(first: nat, n: nat, payload: seq<byte>, k: nat)
    requires IsCount(first, n, |payload|) && 2 <= n <= 0x80_0001 && k < n
    ensures PieceRight(first, n, payload, k)
  {
    hide CutSize, Chunk, Held, LastSize, Chunks, Rest, Piece;
    RestBehindChunks(first, n, payload, k);
    CutsRightWhenMany(first, n, payload, k);
    ChunksNext(first, k, payload);
    ChunksPrefix(first, k + 1, n, payload);
    PieceNext(Chunks(first, n, payload), n, LastSize(first, n), k, Chunks(first, k, payload), Chunk(first, k, payload));
  }

  /** The datagram for chunk k is the chunk that the generator put there. */
  predicate PieceRight(first: nat, n: nat, payload: seq<byte>, k: nat)
    requires IsCount(first, n, |payload|) && k < n
  {
    HeldGrows(first, k, |payload|);
    var chunk := Chunk(first, k, payload);
    Piece(Chunks(first, n, payload), n, LastSize(first, n), k) == Datagram(chunk, |chunk|)
  }

  /** The sender cuts every chunk where the generator put it, and sends exactly that, if and only if the payload is not
      empty and there are at most 2^23 + 1 chunks. */
  lemma CutAgrees(first: nat, n: nat, payload: seq<byte>)
    requires IsCount(first, n, |payload|)
    ensures (forall k | 0 <= k < n :: PieceRight(first, n, payload, k)) <==> payload != [] && n <= 0x80_0001
  {
    hide PieceRight;
    FullGrows(first, if n >= 2 then n - 2 else 0);
    assert payload != [] <==> n >= 2;
    if 2 <= n <= 0x80_0001 {
      forall k | 0 <= k < n
        ensures PieceRight(first, n, payload, k)
      {
        PiecesRightWhenMany(first, n, payload, k);
      }
    } else {
      var k := CutsWrong(first, n, payload);
      WrongPiece(first, n, payload, k);
    }
  }

  lemma WrongPiece(first: nat, n: nat, payload: seq<byte>, k: nat)
    requires IsCount(first, n, |payload|) && k < n && !CutsRight(first, n, payload, k)
    ensures !PieceRight(first, n, payload, k)
  {
  }

  // ---- What a receiver makes of the datagrams ----

  /** The leading decimal digits of a datagram, bytes 48 to 57. */
  function LeadingDigits(s: seq<byte>): (k: nat)
    ensures k <= |s|
  {
    if s == [] || !(48 <= s[0] <= 57) then 0 else 1 + LeadingDigits(s[1..])
  }

  datatype Packet = Packet(number: nat, opening: bool, payload: seq<byte>) | NoPacket

  /** What a receiver makes of one datagram: decimal digits, then a space (byte 32) in the first chunk or CR LF (bytes
      13 and 10) in all others, then the payload. Anything else is no packet. */
  function ReadChunk(s: seq<byte>): Packet
  {
    var k := LeadingDigits(s);
    var number := DigitsValue(s[..k]);
    if k == 0 || number < 0 then NoPacket
    else if k < |s| && s[k] == 32 then Packet(number, true, s[k + 1..])
    else if k + 1 < |s| && s[k] == 13 && s[k + 1] == 10 then Packet(number, false, s[k + 2..])
    else NoPacket
  }

  lemma {:induction false} LeadingDigitsOf(digits: seq<byte>, tail: seq<byte>)
    requires AllDigits(digits) && tail != [] && !IsDigit(tail[0])
    ensures LeadingDigits(digits + tail) == |digits|
  {
    if digits == [] { assert digits + tail == tail; }
    else {
      assert (digits + tail)[1..] == digits[1..] + tail;
      assert IsDigit(digits[0]);
      LeadingDigitsOf(digits[1..], tail);
    }
  }

  /** Every datagram starts with its own sequence number, whatever the payload and however many digits. */
  lemma ChunkReadsBack(first: nat, k: nat, payload: seq<byte>)
    requires first + k < 0x1_0000_0000
    ensures 0 <= Held(first, k, |payload|) <= Held(first, k + 1, |payload|) <= |payload|
    ensures ReadChunk(Chunk(first, k, payload))
         == Packet(first + k, k == 0, payload[Held(first, k, |payload|)..Held(first, k + 1, |payload|)])
  {
    HeldGrows(first, k, |payload|);
    DecimalValue(first + k);
    var digits := Decimal(first + k);
    var ending := if k == 0 then [SPACE] else [CR, LF];
    var piece := payload[Held(first, k, |payload|)..Held(first, k + 1, |payload|)];
    var s := Chunk(first, k, payload);
    assert s == digits + (ending + piece);
    LeadingDigitsOf(digits, ending + piece);
    assert s[..|digits|] == digits;
  }

  /** The payloads of the first k chunks, as a receiver collects them. */
  function Collected(first: nat, k: nat, payload: seq<byte>): seq<byte>
    requires first + k <= 0x1_0000_0000
  {
    if k == 0 then []
    else
      HeldGrows(first, k - 1, |payload|);
      var packet := ReadChunk(Chunk(first, k - 1, payload));
      Collected(first, k - 1, payload) + if packet.Packet? then packet.payload else []
  }

  lemma TakeMore(s: seq<byte>, a: nat, b: nat)
    requires a <= b <= |s|
    ensures s[..a] + s[a..b] == s[..b]
  {
  }

  lemma {:induction false} CollectedHeld(first: nat, k: nat, payload: seq<byte>)
    requires first + k <= 0x1_0000_0000
    ensures 0 <= Held(first, k, |payload|) <= |payload|
    ensures Collected(first, k, payload) == payload[..Held(first, k, |payload|)]
  {
    hide ReadChunk, Chunk;
    if k > 0 {
      CollectedHeld(first, k - 1, payload);
      ChunkReadsBack(first, k - 1, payload);
      TakeMore(payload, Held(first, k - 1, |payload|), Held(first, k, |payload|));
    }
  }

  /** Stripping the markers off all chunks gives the original page; the last chunk is the empty one. */
  lemma ReceiverGetsPage(first: nat, n: nat, payload: seq<byte>)
    requires IsCount(first, n, |payload|)
    ensures Collected(first, n, payload) == payload
    ensures 0 <= Held(first, n - 1, |payload|) <= Held(first, n, |payload|)
    ensures ReadChunk(Chunk(first, n - 1, payload)) == Packet(first + n - 1, n == 1, [])
  {
    hide Collected, ReadChunk, Chunk;
    CollectedHeld(first, n, payload);
    AllHeld(first, n, payload);
    ChunkReadsBack(first, n - 1, payload);
  }

  // ---- The retransmission scan ----

  /** Outcome of one scan over the chunk counters: new counters, chunks sent, and whether a chunk was given up. */
  datatype Scan = Scan(counters: seq<int>, sent: seq<nat>, failed: bool)

  /** The scan of server_send_message from chunk k on. A negative counter means acknowledged. */
  function ScanFrom(counters: seq<int>, k: nat, dry: bool, sent: seq<nat>): (r: Scan)
    requires k <= |counters|
    ensures |r.counters| == |counters|
    decreases |counters| - k
  {
    if k == |counters| then Scan(counters, sent, false)
    else if counters[k] >= REPEATS then Scan(counters, sent, true)
    else if counters[k] < 0 || dry then ScanFrom(counters, k + 1, dry, sent)
    else
      var c := counters[k := counters[k] + 1];
      if |sent| + 1 == SIMULTANEOUS then Scan(c, sent + [k], false)
      else ScanFrom(c, k + 1, dry, sent + [k])
  }

  predicate AllAcked(counters: seq<int>) {
    forall k | 0 <= k < |counters| :: counters[k] < 0
  }

  /** Counters are -1 (acknowledged) or the number of times the chunk was sent, at most four. */
  predicate InRange(counters: seq<int>) {
    forall k | 0 <= k < |counters| :: -1 <= counters[k] <= REPEATS
  }

  /** Chunks below k that are not acknowledged. */
  function Unacked(counters: seq<int>, k: nat): (n: nat)
    requires k <= |counters|
  {
    if k == 0 then 0 else Unacked(counters, k - 1) + if counters[k - 1] >= 0 then 1 else 0
  }

  function Bumped(counters: seq<int>, sent: seq<nat>): (r: seq<int>)
    ensures |r| == |counters|
  {
    seq(|counters|, k requires 0 <= k < |counters| => if k in sent then counters[k] + 1 else counters[k])
  }

  /** The scan so far: `sent` lists, in order, exactly the unacknowledged chunks below k. */
  ghost predicate SentBelow(counters: seq<int>, k: nat, sent: seq<nat>) {
    && k <= |counters|
    && (forall i | 0 <= i < |sent| :: sent[i] < k && 0 <= counters[sent[i]] < REPEATS)
    && (forall i, j | 0 <= i < j < |sent| :: sent[i] < sent[j])
    && (forall j | 0 <= j < k && counters[j] >= 0 :: j in sent)
    && |sent| == Unacked(counters, k)
  }

  lemma SkipAcked(counters: seq<int>, k: nat, sent: seq<nat>)
    requires SentBelow(counters, k, sent) && k < |counters|
    ensures Bumped(counters, sent)[k] == counters[k]
    ensures counters[k] < 0 ==> SentBelow(counters, k + 1, sent)
  {
    assert k !in sent;
  }

  lemma SendNext(counters: seq<int>, k: nat, sent: seq<nat>)
    requires SentBelow(counters, k, sent) && k < |counters| && 0 <= counters[k] < REPEATS
    ensures SentBelow(counters, k + 1, sent + [k])
    ensures Bumped(counters, sent)[k := counters[k] + 1] == Bumped(counters, sent + [k])
  {
    var more := sent + [k];
    forall j | 0 <= j < k + 1 && counters[j] >= 0
      ensures j in more
    {
      if j == k { assert more[|sent|] == k; }
    }
  }

  /** A real scan sends the lowest-numbered unacknowledged chunks, at most four, each once, and bumps exactly
      their counters. It gives up exactly when it meets a chunk that was sent four times before it has sent four. */
  lemma {:induction false} ScanSends(counters: seq<int>, k: nat, sent: seq<nat>) returns (end: nat)
    requires k <= |counters| && |sent| < SIMULTANEOUS && SentBelow(counters, k, sent)
    ensures var r := ScanFrom(Bumped(counters, sent), k, false, sent);
      && SentBelow(counters, end, r.sent) && r.counters == Bumped(counters, r.sent)
      && |r.sent| <= SIMULTANEOUS && k <= end
      && (r.failed ==> end < |counters| && counters[end] >= REPEATS && |r.sent| < SIMULTANEOUS)
      && (!r.failed ==> |r.sent| == SIMULTANEOUS || end == |counters|)
    decreases |counters| - k
  {
    hide SentBelow, Bumped;
    var c := Bumped(counters, sent);
    end := k;
    if k < |counters| {
      SkipAcked(counters, k, sent);
      if 0 <= c[k] < REPEATS {
        SendNext(counters, k, sent);
        if |sent| + 1 == SIMULTANEOUS { end := k + 1; }
        else { end := ScanSends(counters, k + 1, sent + [k]); }
      } else if c[k] < 0 {
        end := ScanSends(counters, k + 1, sent);
      }
    }
  }

  /** A real scan from the start: which chunks are sent, and when the message is given up. */
  lemma RealScan(counters: seq<int>) returns (end: nat)
    ensures var r := ScanFrom(counters, 0, false, []);
      && SentBelow(counters, end, r.sent) && r.counters == Bumped(counters, r.sent)
      && |r.sent| <= 4
      && (r.failed <==> end < |counters| && counters[end] >= 4 && |r.sent| < 4)
      && (!r.failed ==> |r.sent| == 4 || end == |counters|)
  {
    assert Bumped(counters, []) == counters;
    end := ScanSends(counters, 0, []);
  }

  /** A dry scan sends nothing and changes nothing; it fails exactly when some chunk was sent four times. */
  lemma {:induction false} DryScan(counters: seq<int>, k: nat)
    requires k <= |counters|
    ensures var r := ScanFrom(counters, k, true, []);
      && r.counters == counters && r.sent == []
      && (r.failed <==> exists j | k <= j < |counters| :: counters[j] >= 4)
    decreases |counters| - k
  {
    if k < |counters| && counters[k] < REPEATS { DryScan(counters, k + 1); }
  }

  // ---- Whole runs of ticks and acknowledgements ----

  datatype Event = Tick | DryTick | Ack(chunk: nat)

  /** A message under way, delivered, or given up. */
  datatype Sender = Sending(counters: seq<int>) | Delivered | GivenUp

  function Step(s: Sender, e: Event): (r: Sender)
    requires s.Sending?
  {
    match e
    case Ack(k) => if k < |s.counters| then Sending(s.counters[k := -1]) else GivenUp
    case _ =>
      var r := ScanFrom(s.counters, 0, e.DryTick?, []);
      if r.failed then GivenUp else if AllAcked(s.counters) then Delivered else Sending(r.counters)
  }

  function Run(s: Sender, events: seq<Event>): Sender
    decreases |events|
  {
    if events == [] || !s.Sending? then s else Run(Step(s, events[0]), events[1..])
  }

  function Ticks(events: seq<Event>): (n: nat) {
    if events == [] then 0 else (if events[0].Tick? then 1 else 0) + Ticks(events[1..])
  }

  /** Transmissions left before every unacknowledged chunk has used up its repeats. */
  function Unused(counters: seq<int>): int {
    if counters == [] then 0
    else (if counters[0] < 0 then 0 else REPEATS - counters[0]) + Unused(counters[1..])
  }

  lemma {:induction false} UnusedOne(counters: seq<int>, k: nat, v: int)
    requires k < |counters|
    ensures Unused(counters[k := v]) == Unused(counters)
      - (if counters[k] < 0 then 0 else REPEATS - counters[k]) + (if v < 0 then 0 else REPEATS - v)
  {
    if k > 0 {
      assert counters[k := v][1..] == counters[1..][k - 1 := v];
      UnusedOne(counters[1..], k - 1, v);
    } else {
      assert counters[0 := v][1..] == counters[1..];
    }
  }

  /** Every chunk sent uses up one repeat. */
  lemma {:induction false} ScanUses(counters: seq<int>, k: nat, dry: bool, sent: seq<nat>)
    requires k <= |counters| && InRange(counters)
    ensures var r := ScanFrom(counters, k, dry, sent);
      && InRange(r.counters) && |r.sent| >= |sent|
      && Unused(r.counters) == Unused(counters) - (|r.sent| - |sent|)
      && (forall j | 0 <= j < |counters| :: counters[j] < 0 <==> r.counters[j] < 0)
    decreases |counters| - k
  {
    if k < |counters| && counters[k] < REPEATS {
      if counters[k] < 0 || dry {
        ScanUses(counters, k + 1, dry, sent);
      } else {
        var c := counters[k := counters[k] + 1];
        UnusedOne(counters, k, counters[k] + 1);
        if |sent| + 1 != SIMULTANEOUS { ScanUses(c, k + 1, dry, sent + [k]); }
      }
    }
  }

  lemma {:induction false} UnusedRange(counters: seq<int>)
    requires InRange(counters)
    ensures 0 <= Unused(counters) <= REPEATS * |counters|
  {
    if counters != [] { UnusedRange(counters[1..]); }
  }

  /** What one event keeps: counters in range, acknowledged chunks acknowledged, and every tick costs a repeat. */
  lemma StepKeeps(counters: seq<int>, e: Event)
    requires InRange(counters)
    ensures var s := Step(Sending(counters), e);
      s.Sending? ==>
        && |s.counters| == |counters| && InRange(s.counters)
        && (forall k | 0 <= k < |counters| :: counters[k] < 0 ==> s.counters[k] < 0)
        && (forall k | 0 <= k < |counters| :: s.counters[k] < 0 ==> counters[k] < 0 || e == Ack(k))
        && Unused(s.counters) <= Unused(counters) - (if e.Tick? then 1 else 0)
  {
    match e
    case Ack(k) =>
      if k < |counters| { UnusedOne(counters, k, -1); }
    case _ =>
      ScanUses(counters, 0, e.DryTick?, []);
      if e.Tick? {
        var end := RealScan(counters);
      }
  }

  /** A message of n chunks is delivered or given up after at most 4n real ticks, whatever acknowledgements
      and dry runs come in between; until then every counter stays between -1 and 4. */
  lemma {:induction false} SenderEnds(counters: seq<int>, events: seq<Event>)
    requires InRange(counters)
    ensures var s := Run(Sending(counters), events);
      s.Sending? ==>
        |s.counters| == |counters| && InRange(s.counters) && Ticks(events) + Unused(s.counters) <= Unused(counters)
    ensures Run(Sending(counters), events).Sending? ==> Ticks(events) <= 4 * |counters|
    decreases |events|
  {
    UnusedRange(counters);
    if events != [] {
      StepKeeps(counters, events[0]);
      var s := Step(Sending(counters), events[0]);
      if s.Sending? {
        SenderEnds(s.counters, events[1..]);
        if Run(s, events[1..]).Sending? { UnusedRange(Run(s, events[1..]).counters); }
      }
    } else {
      UnusedRange(counters);
    }
  }

  /** A message is delivered only when every chunk that was not acknowledged before has been acknowledged since. */
  lemma {:induction false} DeliveredMeansAcked(counters: seq<int>, events: seq<Event>, k: nat)
    requires InRange(counters) && k < |counters| && counters[k] >= 0
    requires Run(Sending(counters), events) == Delivered
    ensures Ack(k) in events
    decreases |events|
  {
    StepKeeps(counters, events[0]);
    var s := Step(Sending(counters), events[0]);
    if s.Sending? && events[0] != Ack(k) {
      assert s.counters[k] >= 0;
      DeliveredMeansAcked(s.counters, events[1..], k);
    }
  }

  /** Once all chunks are acknowledged, the next tick delivers, dry or not. */
  lemma AllAckedDelivers(counters: seq<int>, e: Event)
    requires AllAcked(counters) && !e.Ack?
    ensures Step(Sending(counters), e) == Delivered
  {
    if e.DryTick? { DryScan(counters, 0); } else { var end := RealScan(counters); }
  }

  // ---- The scan in the ring ----

  /** A byte as signed char. */
  function Signed(b: byte): int {
    if b < 128 then b else b - 256
  }

  /** The n chunk counters at an offset of the response queue. */
  function Counters(content: seq<byte>, offset: nat, n: nat): (c: seq<int>)
    requires offset + n <= |content|
    ensures |c| == n
  {
    seq(n, k requires 0 <= k < n => Signed(content[offset + k]))
  }

  /** Nothing outside [offset, offset + n) differs. */
  predicate SameOutside(a: seq<byte>, b: seq<byte>, offset: nat, n: nat) {
    |a| == |b| && offset + n <= |a| && a[..offset] == b[..offset] && a[offset + n..] == b[offset + n..]
  }

  /** Counting one transmission writes one byte of the queue and no other. */
  method Bump(queue: Ring, index: nat, ghost offset: nat, ghost n: nat, ghost k: nat)
    requires queue.Valid() && offset + n <= queue.size && k < n
    requires index < queue.p.Length && index == Phys(queue.p.Length, queue.begin, offset + k)
    requires 0 <= Signed(queue.p[index]) < REPEATS
    modifies queue.p
    ensures queue.Valid() && SameOutside(queue.Content(), old(queue.Content()), offset, n)
    ensures var c := Counters(old(queue.Content()), offset, n);
      Counters(queue.Content(), offset, n) == c[k := c[k] + 1]
  {
    ghost var before := queue.Content();
    var b: byte := queue.p[index] + 1;
    assert before[offset + k] == queue.p[index];
    queue.Overwrite(Spans(Span(index, 1), Span(0, 0)), offset + k, [b]);
    assert queue.Content() == before[offset + k := b];
    CounterUpdate(before, offset, n, k, b);
  }

  lemma CounterUpdate(content: seq<byte>, offset: nat, n: nat, k: nat, b: byte)
    requires offset + n <= |content| && k < n
    ensures Counters(content[offset + k := b], offset, n) == Counters(content, offset, n)[k := Signed(b)]
    ensures SameOutside(content[offset + k := b], content, offset, n)
  {
  }

  /** The datagrams for the chunks that a scan sends. */
  ghost function Datagrams(message: seq<byte>, n: nat, last: nat, sent: seq<nat>): (d: seq<Datagram>)
    ensures |d| == |sent|
  {
    seq(|sent|, i requires 0 <= i < |sent| => Piece(message, n, last, sent[i]))
  }

  predicate Unsplit(value: Value) {
    value.part0 == [] || value.part1 == []
  }

  /** What the buffer on the stack demands: a piece that has to be copied because it lies in two parts fits into it. */
  ghost predicate Copyable(local: Value, message: seq<byte>, n: nat, last: nat) {
    Unsplit(local) || forall k | 0 <= k < n :: |Piece(message, n, last, k).data| <= CHUNK_SIZE
  }

  /** The scan position of server_send_message inside its two loops. */
  ghost predicate AtChunk(counters: seq<int>, now: seq<int>, k: nat, dry: bool, sent: seq<nat>, acknowledged: nat) {
    && |now| == |counters| && k <= |counters|
    && ScanFrom(counters, 0, dry, []) == ScanFrom(now, k, dry, sent)
    && |sent| < SIMULTANEOUS
    && acknowledged == k - Unacked(counters, k)
    && (forall j | k <= j < |counters| :: now[j] == counters[j])
    && (forall i | 0 <= i < |sent| :: sent[i] < |counters|)
  }

  datatype Verdict = Exhausted | Acknowledged | Skipped | Sent

  /** The scan after chunk k, by what was decided about it. */
  ghost predicate Decided(verdict: Verdict, counters: seq<int>, now: seq<int>, k: nat, dry: bool, sent: seq<nat>,
                          acknowledged: nat)
    requires k < |counters|
  {
    match verdict
    case Exhausted => ScanFrom(counters, 0, dry, []) == Scan(now, sent, true)
    case Acknowledged => AtChunk(counters, now, k + 1, dry, sent, acknowledged + 1)
    case Skipped => AtChunk(counters, now, k + 1, dry, sent, acknowledged)
    case Sent =>
      && !AllAcked(counters)
      && (|sent| + 1 == SIMULTANEOUS ==> ScanFrom(counters, 0, dry, []) == Scan(now, sent + [k], false))
      && (|sent| + 1 != SIMULTANEOUS ==> AtChunk(counters, now, k + 1, dry, sent + [k], acknowledged))
  }

  /** What the loop body of server_send_message decides about chunk k from its counter. */
  lemma ScanStep(counters: seq<int>, now: seq<int>, k: nat, dry: bool, sent: seq<nat>, acknowledged: nat)
    requires AtChunk(counters, now, k, dry, sent, acknowledged) && k < |counters|
    ensures now[k] >= REPEATS ==> ScanFrom(counters, 0, dry, []) == Scan(now, sent, true)
    ensures now[k] < 0 ==> AtChunk(counters, now, k + 1, dry, sent, acknowledged + 1)
    ensures 0 <= now[k] < REPEATS && dry ==> AtChunk(counters, now, k + 1, dry, sent, acknowledged)
    ensures 0 <= now[k] < REPEATS && !dry ==>
      Decided(Sent, counters, now[k := now[k] + 1], k, dry, sent, acknowledged)
  {
    assert now[k] == counters[k];
  }

  /** The part of the loop body that looks at and counts up the counter of chunk k. */
  method CountChunk(queue: Ring, index: nat, dry: bool, ghost offset: nat, ghost counters: seq<int>, ghost k: nat,
                    ghost sent: seq<nat>, ghost acknowledged: nat)
    returns (verdict: Verdict)
    requires queue.Valid() && k < |counters| && offset + |counters| <= queue.size
    requires index < queue.p.Length && index == Phys(queue.p.Length, queue.begin, offset + k)
    requires AtChunk(counters, Counters(queue.Content(), offset, |counters|), k, dry, sent, acknowledged)
    modifies queue.p
    ensures queue.Valid() && SameOutside(queue.Content(), old(queue.Content()), offset, |counters|)
    ensures Decided(verdict, counters, Counters(queue.Content(), offset, |counters|), k, dry, sent, acknowledged)
  {
    hide AtChunk, Unroll, AllAcked;
    ghost var now := Counters(queue.Content(), offset, |counters|);
    ScanStep(counters, now, k, dry, sent, acknowledged);
    CounterAt(queue, index, offset, |counters|, k);
    var p := Signed(queue.p[index]);
    if p >= REPEATS { return Exhausted; }
    if p < 0 { return Acknowledged; }
    if dry { return Skipped; }
    Bump(queue, index, offset, |counters|, k);
    return Sent;
  }

  lemma CounterAt(queue: Ring, index: nat, offset: nat, n: nat, k: nat)
    requires queue.Valid() && k < n && offset + n <= queue.size
    requires index < queue.p.Length && index == Phys(queue.p.Length, queue.begin, offset + k)
    ensures Counters(queue.Content(), offset, n)[k] == Signed(queue.p[index])
  {
    assert queue.Content()[offset + k] == queue.p[index];
  }

  /** Cutting the next piece off the local copy of the message. */
  method TakeChunk(local: Value, chunkSize: nat, buffer: array<byte>) returns (rest: Value, data: seq<byte>)
    requires Unsplit(local) || Min(chunkSize, |local.Bytes()|) <= buffer.Length
    modifies buffer
    ensures data == local.Bytes()[..Min(chunkSize, |local.Bytes()|)]
    ensures rest.Bytes() == local.Bytes()[Min(chunkSize, |local.Bytes()|)..]
    ensures Unsplit(local) ==> Unsplit(rest)
  {
    var first;
    rest, first := FirstSecond(local, chunkSize);
    data := ToContinuous(first, buffer);
  }

  lemma AllAckedCount(counters: seq<int>, k: nat)
    requires k <= |counters|
    ensures Unacked(counters, k) == 0 <==> AllAcked(counters[..k])
    ensures Unacked(counters, k) <= k
  {
    if k > 0 {
      AllAckedCount(counters, k - 1);
      assert counters[..k] == counters[..k - 1] + [counters[k - 1]];
    }
  }

  lemma ScanStart(counters: seq<int>, dry: bool)
    ensures AtChunk(counters, counters, 0, dry, [], 0)
  {
  }

  /** The scan ran over all chunks: the acknowledged ones were counted. */
  lemma ScanDone(counters: seq<int>, now: seq<int>, dry: bool, sent: seq<nat>, acknowledged: nat)
    requires AtChunk(counters, now, |counters|, dry, sent, acknowledged)
    ensures ScanFrom(counters, 0, dry, []) == Scan(now, sent, false)
    ensures acknowledged == |counters| <==> AllAcked(counters)
  {
    AllAckedCount(counters, |counters|);
    assert counters[..|counters|] == counters;
  }

  /** The run of server_send_message so far: queue, scan position, local copy and datagrams belong together. */
  ghost predicate Progress(before: seq<byte>, content: seq<byte>, offset: nat, counters: seq<int>, k: nat, dry: bool,
                           sent: seq<nat>, acknowledged: nat, local: Value, message: seq<byte>, last: nat,
                           datagrams: seq<Datagram>)
  {
    && SameOutside(content, before, offset, |counters|)
    && AtChunk(counters, Counters(content, offset, |counters|), k, dry, sent, acknowledged)
    && local.Bytes() == Rest(message, |counters|, last, k) && Copyable(local, message, |counters|, last)
    && datagrams == Datagrams(message, |counters|, last, sent)
  }

  /** What a call has done to the queue and sent: exactly the scan from the old counters. */
  ghost predicate Performed(before: seq<byte>, content: seq<byte>, offset: nat, counters: seq<int>, dry: bool,
                            sent: seq<nat>, failed: bool, message: seq<byte>, last: nat, datagrams: seq<Datagram>)
  {
    && SameOutside(content, before, offset, |counters|)
    && ScanFrom(counters, 0, dry, []) == Scan(Counters(content, offset, |counters|), sent, failed)
    && datagrams == Datagrams(message, |counters|, last, sent)
  }

  /** The run ended before all chunks were looked at, or gave the message up. */
  ghost predicate Stopped(before: seq<byte>, content: seq<byte>, offset: nat, counters: seq<int>, dry: bool,
                          sent: seq<nat>, failed: bool, message: seq<byte>, last: nat, datagrams: seq<Datagram>)
  {
    && Performed(before, content, offset, counters, dry, sent, failed, message, last, datagrams)
    && (failed || !AllAcked(counters))
  }

  lemma MoreDatagrams(message: seq<byte>, n: nat, last: nat, sent: seq<nat>, k: nat)
    ensures Datagrams(message, n, last, sent + [k]) == Datagrams(message, n, last, sent) + [Piece(message, n, last, k)]
  {
  }

  /** Cutting the next piece: it is the datagram for chunk k, and the rest is what is left before chunk k + 1. */
  lemma PieceTaken(local: Value, message: seq<byte>, n: nat, last: nat, k: nat)
    requires k < n && local.Bytes() == Rest(message, n, last, k) && Copyable(local, message, n, last)
    ensures var size := CutSize(|message|, n, last, k); var cut := Min(size, |local.Bytes()|);
      && (Unsplit(local) || cut <= CHUNK_SIZE)
      && Piece(message, n, last, k) == Datagram(local.Bytes()[..cut], size)
      && Rest(message, n, last, k + 1) == local.Bytes()[cut..]
  {
    hide CutSize;
    var r := Rest(message, n, last, k);
    assert Piece(message, n, last, k).data == r[..Min(CutSize(|message|, n, last, k), |r|)];
  }

  /** The loop body of server_send_message for chunk k: cutting, checking, sending. */
  method HandleChunk(queue: Ring, index: nat, dry: bool, local: Value, chunkSize: nat, buffer: array<byte>,
                     datagrams: seq<Datagram>, acknowledged: nat,
                     ghost before: seq<byte>, ghost message: seq<byte>, ghost last: nat, ghost k: nat,
                     ghost offset: nat, ghost counters: seq<int>, ghost sent: seq<nat>)
    returns (stop: bool, r: Result, rest: Value, datagrams': seq<Datagram>, acknowledged': nat, ghost sent': seq<nat>)
    requires queue.Valid() && k < |counters| && offset + |counters| <= queue.size && buffer != queue.p
    requires index < queue.p.Length && index == Phys(queue.p.Length, queue.begin, offset + k)
    requires chunkSize == CutSize(|message|, |counters|, last, k) && buffer.Length == CHUNK_SIZE
    requires Progress(before, queue.Content(), offset, counters, k, dry, sent, acknowledged, local, message, last,
      datagrams)
    modifies queue.p, buffer
    ensures queue.Valid()
    ensures !stop ==> r == Ok
    ensures !stop ==>
      Progress(before, queue.Content(), offset, counters, k + 1, dry, sent', acknowledged', rest, message, last,
        datagrams')
    ensures stop ==> Stopped(before, queue.Content(), offset, counters, dry, sent', r == Err, message, last, datagrams')
  {
    hide Datagrams, AtChunk, Unroll, Rest, Piece, CutSize, ScanFrom, AllAcked, Counters, Unsplit;
    stop, r, datagrams', acknowledged', sent' := false, Ok, datagrams, acknowledged, sent;
    PieceTaken(local, message, |counters|, last, k);
    var data;
    rest, data := TakeChunk(local, chunkSize, buffer);
    MoreDatagrams(message, |counters|, last, sent, k);
    var verdict := CountChunk(queue, index, dry, offset, counters, k, sent, acknowledged);
    match verdict {
      case Exhausted => stop, r := true, Err;
      case Acknowledged => acknowledged' := acknowledged + 1;
      case Skipped =>
      case Sent =>
        datagrams' := datagrams + [Datagram(data, chunkSize)];
        sent' := sent + [k];
        stop := |datagrams'| == SIMULTANEOUS;
    }
  }

  /** The part holds the bytes of the ring from position `from` on. */
  ghost predicate LiesAt(part: Span, capacity: nat, begin: nat, from: nat) {
    forall j | 0 <= j < part.size :: part.Index(j) < capacity && part.Index(j) == Phys(capacity, begin, from + j)
  }

  lemma IndexAt(part: Span, capacity: nat, begin: nat, from: nat, j: nat)
    requires LiesAt(part, capacity, begin, from) && j < part.size
    ensures part.Index(j) < capacity && part.Index(j) == Phys(capacity, begin, from + j)
  {
  }

  /** The inner loop of server_send_message: all counters in one part of the queue value. */
  method HandlePart(queue: Ring, part: Span, dry: bool, local: Value, totalSize: nat, chunkNumber: nat, last: nat,
                    chunk: nat, buffer: array<byte>, datagrams: seq<Datagram>, acknowledged: nat,
                    ghost before: seq<byte>, ghost message: seq<byte>, ghost offset: nat, ghost counters: seq<int>,
                    ghost sent: seq<nat>)
    returns (stop: bool, r: Result, rest: Value, datagrams': seq<Datagram>, acknowledged': nat, ghost sent': seq<nat>)
    requires queue.Valid() && chunk + part.size <= |counters| == chunkNumber && offset + |counters| <= queue.size
      && buffer != queue.p
    requires LiesAt(part, queue.p.Length, queue.begin, offset + chunk)
    requires totalSize == |message| && buffer.Length == CHUNK_SIZE
    requires Progress(before, queue.Content(), offset, counters, chunk, dry, sent, acknowledged, local, message, last,
      datagrams)
    modifies queue.p, buffer
    ensures queue.Valid()
    ensures !stop ==> r == Ok
    ensures !stop ==>
      Progress(before, queue.Content(), offset, counters, chunk + part.size, dry, sent', acknowledged', rest, message,
        last, datagrams')
    ensures stop ==> Stopped(before, queue.Content(), offset, counters, dry, sent', r == Err, message, last, datagrams')
  {
    hide *;
    stop, r, rest, datagrams', acknowledged', sent' := false, Ok, local, datagrams, acknowledged, sent;
    var p := 0;
    while p < part.size
      invariant 0 <= p <= part.size
      invariant queue.Valid() && r == Ok
      invariant Progress(before, queue.Content(), offset, counters, chunk + p, dry, sent', acknowledged', rest, message,
        last, datagrams')
    {
      var chunkSize := CutSize(totalSize, chunkNumber, last, chunk + p);
      IndexAt(part, queue.p.Length, queue.begin, offset + chunk, p);
      stop, r, rest, datagrams', acknowledged', sent' :=
        HandleChunk(queue, part.Index(p), dry, rest, chunkSize, buffer, datagrams', acknowledged', before, message,
                    last, chunk + p, offset, counters, sent');
      if stop { return; }
      p := p + 1;
    }
  }

  lemma ProgressDone(before: seq<byte>, content: seq<byte>, offset: nat, counters: seq<int>, dry: bool,
                     sent: seq<nat>, acknowledged: nat, local: Value, message: seq<byte>, last: nat,
                     datagrams: seq<Datagram>)
    requires Progress(before, content, offset, counters, |counters|, dry, sent, acknowledged, local, message, last,
      datagrams)
    ensures Performed(before, content, offset, counters, dry, sent, false, message, last, datagrams)
    ensures acknowledged == |counters| <==> AllAcked(counters)
  {
    ScanDone(counters, Counters(content, offset, |counters|), dry, sent, acknowledged);
  }

  lemma ProgressStart(content: seq<byte>, offset: nat, n: nat, dry: bool, message: Value, last: nat)
    requires offset + n <= |content| && Copyable(message, message.Bytes(), n, last)
    ensures Progress(content, content, offset, Counters(content, offset, n), 0, dry, [], 0, message, message.Bytes(),
      last, [])
  {
    hide Copyable;
    ScanStart(Counters(content, offset, n), dry);
  }

  /** server_send_message: `chunks` points to the counters inside the response queue. Sends what the scan says, every
      datagram being the piece cut for that number; clears the message exactly when all chunks are acknowledged. */
  method SendMessage(message: Value, queue: Ring, chunks: Spans, ghost offset: nat, dry: bool, last: nat)
    returns (r: Result, rest: Value, datagrams: seq<Datagram>, ghost sent: seq<nat>)
    requires queue.Valid() && Covers(chunks, queue.p.Length, queue.begin, offset)
      && offset + chunks.Size() <= queue.size
    requires chunks.Size() <= UINT_MAX && Copyable(message, message.Bytes(), chunks.Size(), last)
    modifies queue.p
    ensures queue.Valid()
    ensures Performed(old(queue.Content()), queue.Content(), offset,
                      Counters(old(queue.Content()), offset, chunks.Size()), dry, sent,
                      r == Err, message.Bytes(), last, datagrams)
    ensures r == Ok && AllAcked(Counters(old(queue.Content()), offset, chunks.Size())) ==> rest.Bytes() == []
    ensures r == Err || !AllAcked(Counters(old(queue.Content()), offset, chunks.Size())) ==> rest == message
  {
    hide Progress, Performed, AllAcked, Unroll, Covers, Counters, Copyable, LiesAt;
    var chunkNumber := chunks.Size();
    var totalSize := Values.Size(message);
    ghost var before := queue.Content();
    ghost var counters := Counters(before, offset, chunkNumber);
    r, rest, datagrams, sent := Ok, message, [], [];
    var buffer := new byte[CHUNK_SIZE];
    var local := message;
    var acknowledged, chunk := 0, 0;
    ProgressStart(before, offset, chunkNumber, dry, message, last);
    for i := 0 to VALUE_PARTS
      invariant queue.Valid() && rest == message && r == Ok
      invariant chunk == (if i > 0 then chunks.span0.size else 0) + (if i > 1 then chunks.span1.size else 0)
      invariant Progress(before, queue.Content(), offset, counters, chunk, dry, sent, acknowledged, local,
        message.Bytes(), last, datagrams)
    {
      var part := if i == 0 then chunks.span0 else chunks.span1;
      PartCovers(chunks, queue.p.Length, queue.begin, offset, i);
      var stop;
      stop, r, local, datagrams, acknowledged, sent :=
        HandlePart(queue, part, dry, local, totalSize, chunkNumber, last, chunk, buffer, datagrams, acknowledged,
                   before, message.Bytes(), offset, counters, sent);
      if stop { return; }
      chunk := chunk + part.size;
    }
    ProgressDone(before, queue.Content(), offset, counters, dry, sent, acknowledged, local, message.Bytes(), last,
      datagrams);
    if acknowledged == chunkNumber { rest := NO_VALUE; }
  }

  /** For a page, every piece is the chunk that the generator put there, and copying it is safe. */
  lemma PageDatagrams(first: nat, n: nat, payload: seq<byte>, message: Value, sent: seq<nat>)
    requires IsCount(first, n, |payload|) && 2 <= n <= 0x80_0001 && message.Bytes() == Chunks(first, n, payload)
    requires forall i | 0 <= i < |sent| :: sent[i] < n
    ensures Copyable(message, message.Bytes(), n, LastSize(first, n))
    ensures forall i | 0 <= i < |sent| ::
      && 0 <= Held(first, sent[i], |payload|) <= Held(first, sent[i] + 1, |payload|)
      && Datagrams(message.Bytes(), n, LastSize(first, n), sent)[i]
        == Datagram(Chunk(first, sent[i], payload), |Chunk(first, sent[i], payload)|)
  {
    hide Piece, LastSize, IsCount;
    forall k | 0 <= k < n
      ensures |Piece(message.Bytes(), n, LastSize(first, n), k).data| <= CHUNK_SIZE
    {
      PiecesRightWhenMany(first, n, payload, k);
      ChunkSizes(first, n, k, payload);
    }
    forall i | 0 <= i < |sent|
      ensures 0 <= Held(first, sent[i], |payload|) <= Held(first, sent[i] + 1, |payload|)
      ensures Datagrams(message.Bytes(), n, LastSize(first, n), sent)[i]
        == Datagram(Chunk(first, sent[i], payload), |Chunk(first, sent[i], payload)|)
    {
      ChunkSizes(first, n, sent[i], payload);
      PiecesRightWhenMany(first, n, payload, sent[i]);
    }
  }

  // ---- The size of the last chunk ----

  /** How the callers of server_send_message compute it. The subtraction is done in size_t, so for first chunk 0 and no
      chunks, which is how the generator marks a reply that is not cut into chunks, int_length gets 2^64 - 1 and does
      not return. */
  method LastChunkSize(firstChunk: nat, chunks: nat) returns (r: Length)
    requires firstChunk <= UINT_MAX && chunks <= UINT_MAX
    ensures r.Returned? <==> firstChunk + chunks >= 1
    ensures r.Returned? ==> r.length == |Decimal(firstChunk + chunks - 1)| + 2
  {
    var last := (firstChunk + chunks + SIZE_MODULUS - 1) % SIZE_MODULUS;
    LastNumber(firstChunk + chunks);
    r := IntLength(last);
    if r.Returned? { r := Returned(r.length + 2); }
  }

  lemma LastNumber(n: nat)
    requires n < SIZE_MODULUS
    ensures (n + SIZE_MODULUS - 1) % SIZE_MODULUS == if n == 0 then SIZE_MODULUS - 1 else n - 1
  {
  }

  lemma PartCovers(chunks: Spans, capacity: nat, begin: nat, offset: nat, i: nat)
    requires Covers(chunks, capacity, begin, offset) && i < VALUE_PARTS
    ensures LiesAt(if i == 0 then chunks.span0 else chunks.span1, capacity, begin,
      offset + if i == 0 then 0 else chunks.span0.size)
  {
    var part := if i == 0 then chunks.span0 else chunks.span1;
    var start := if i == 0 then 0 else chunks.span0.size;
    forall j | 0 <= j < part.size
      ensures part.Index(j) < capacity && part.Index(j) == Phys(capacity, begin, offset + start + j)
    {
      assert chunks.At(start + j) == part.Index(j);
    }
  }

  /** receive.c: marks chunk seqNo as acknowledged, one byte of the queue. The original takes the branch when the text
      behind the number is not exactly CR LF; `endsWithCrlf` says whether it is. */
  method Acknowledge(queue: Ring, response: Response, seqNo: nat, endsWithCrlf: bool) returns (r: Result)
    requires queue.Valid()
    modifies queue.p
    ensures queue.Valid()
    ensures r == Ok <==>
      && !endsWithCrlf && response.firstChunk <= seqNo < response.firstChunk + response.chunks.size
      && HEADER_SIZE + response.chunks.offset + (seqNo - response.firstChunk) < queue.size
    ensures queue.Content() == if r == Ok
      then old(queue.Content())[HEADER_SIZE + response.chunks.offset + (seqNo - response.firstChunk) := 255]
      else old(queue.Content())
  {
    hide Unroll;
    if endsWithCrlf || seqNo < response.firstChunk
      || seqNo >= response.firstChunk + response.chunks.size { return Err; }
    var offset := HEADER_SIZE + response.chunks.offset + (seqNo - response.firstChunk);
    var value;
    r, value := queue.Get(Location(offset, 1), false);
    if r == Err { return; }
    queue.Overwrite(value, offset, [255]);
  }

  /** Acknowledging chunk k through the queue is the Ack event of the runs above. */
  lemma AcknowledgeIsAck(content: seq<byte>, offset: nat, n: nat, k: nat)
    requires offset + n <= |content| && k < n
    ensures Step(Sending(Counters(content, offset, n)), Ack(k))
      == Sending(Counters(content[offset + k := 255], offset, n))
    ensures SameOutside(content[offset + k := 255], content, offset, n)
  {
    CounterUpdate(content, offset, n, k, 255);
  }
}
