/** random.c: uniform random numbers by rejection sampling. */
module Random {
  import opened Bytes
  import opened Values

  /** Largest result of rand(); RAND_MAX + 1 is a power of two. */
  const RAND_MAX := 0x7FFF_FFFF

  function BitCount(n: nat): nat {
    if n == 0 then 0 else 1 + BitCount(n / 2)
  }

  function Pow2(e: nat): (p: nat)
    ensures p >= 1
  {
    if e == 0 then 1 else 2 * Pow2(e - 1)
  }

  /** Counts the bits of n by halving. */
  method CountBits(n: nat) returns (bits: nat)
    ensures bits == BitCount(n)
  {
    var buffer := n;
    bits := 0;
    while buffer > 0
      invariant bits + BitCount(buffer) == BitCount(n)
    {
      buffer := buffer / 2;
      bits := bits + 1;
    }
  }

  /** The numbers that random_rand does not reject; the subtraction is 64-bit unsigned. */
  function AcceptLimit(maxBuffer: nat, n: nat): nat
    requires n > 0
  {
    var reject := if maxBuffer % n + 1 == n then 0 else maxBuffer % n + 1;
    (maxBuffer - reject) % SIZE_MODULUS
  }

  /** The sampled buffer covers one call of rand() whenever more than one outcome is asked for. */
  function MaxBuffer(n: nat): nat {
    if n <= 1 then 0 else RAND_MAX
  }

  /** The buffer that one result of rand() gives: rand() is not called when there is only one outcome. */
  function Sample(n: nat, draw: nat): nat {
    if n <= 1 then 0 else draw
  }

  /** A result of rand() is accepted and makes outcome r. */
  predicate Gives(n: nat, draw: nat, r: nat)
    requires n > 0
  {
    Sample(n, draw) <= AcceptLimit(MaxBuffer(n), n) && Sample(n, draw) % n == r
  }

  /** random_rand: `draws` are the results of rand(), one per attempt. The first acceptable one decides. */
  method RandomRand(outcomeNumber: nat, draws: seq<nat>) returns (found: bool, result: nat, attempts: nat)
    requires forall i | 0 <= i < |draws| :: draws[i] <= RAND_MAX
    ensures outcomeNumber == 0 ==> found && result == 0
    ensures outcomeNumber > 0 ==> attempts <= |draws|
    ensures outcomeNumber > 0 ==> forall i | 0 <= i < attempts - (if found then 1 else 0) ::
              Sample(outcomeNumber, draws[i]) > AcceptLimit(MaxBuffer(outcomeNumber), outcomeNumber)
    ensures outcomeNumber > 0 && found ==> attempts > 0 && Gives(outcomeNumber, draws[attempts - 1], result)
    ensures outcomeNumber > 0 && !found ==> attempts == |draws|
  {
    if outcomeNumber == 0 { return true, 0, 0; }
    var randMaxBits := CountBits(RAND_MAX);
    var maxBits := CountBits(outcomeNumber - 1);
    BitCountZero(outcomeNumber - 1);
    var maxBuffer, randBits := 0, 0;
    while randBits < maxBits
      invariant (randBits == 0 && maxBuffer == 0) || (randBits == maxBits > 0 && maxBuffer == RAND_MAX)
      decreases maxBits - randBits
    {
      maxBuffer := maxBuffer * Pow2(randMaxBits) + RAND_MAX;
      randBits := randBits + maxBits;
    }
    var acceptLimit := AcceptLimit(maxBuffer, outcomeNumber);
    attempts := 0;
    while attempts < |draws|
      invariant attempts <= |draws|
      invariant forall i | 0 <= i < attempts :: Sample(outcomeNumber, draws[i]) > acceptLimit
    {
      var buffer := 0;
      randBits := 0;
      while randBits < maxBits
        invariant (randBits == 0 && buffer == 0) || (randBits == maxBits > 0 && buffer == draws[attempts])
        decreases maxBits - randBits
      {
        buffer := buffer * Pow2(randMaxBits) + draws[attempts];
        randBits := randBits + maxBits;
      }
      attempts := attempts + 1;
      if buffer <= acceptLimit { return true, buffer % outcomeNumber, attempts; }
    }
    return false, 0, attempts;
  }

  lemma BitCountZero(n: nat)
    ensures BitCount(n) == 0 <==> n == 0
  {
  }

  // ---- Every outcome is hit by the same number of accepted values ----

  /** How many of the values 0..limit-1 give outcome r. */
  function Hits(limit: nat, n: nat, r: nat): (h: nat)
    requires n > 0
  {
    if limit == 0 then 0 else Hits(limit - 1, n, r) + if (limit - 1) % n == r then 1 else 0
  }

  /** Quotient and remainder are determined. */
  lemma DivModUnique(x: nat, n: nat, q: nat, r: nat)
    requires r < n && x == q * n + r
    ensures x / n == q && x % n == r
  {
    var d := q - x / n;
    assert x == (x / n) * n + x % n;
    assert d * n == x % n - r by { assert d * n == q * n - (x / n) * n; }
    if d >= 1 { AtLeastOnce(d, n); }
    if d <= -1 { AtLeastOnce(-d, n); }
  }

  lemma AtLeastOnce(d: int, n: nat)
    requires d >= 1
    ensures d * n >= n
  {
    assert d * n == (d - 1) * n + n;
  }

  lemma NextDivMod(x: nat, n: nat)
    requires n > 0
    ensures x % n + 1 == n ==> (x + 1) % n == 0 && (x + 1) / n == x / n + 1
    ensures x % n + 1 < n ==> (x + 1) % n == x % n + 1 && (x + 1) / n == x / n
  {
    var q := x / n;
    assert x == q * n + x % n;
    if x % n + 1 == n {
      assert (q + 1) * n == q * n + n;
      DivModUnique(x + 1, n, q + 1, 0);
    } else {
      DivModUnique(x + 1, n, q, x % n + 1);
    }
  }

  /** Among the first `limit` values, every outcome is hit once per full period, and once more in the last one. */
  lemma {:induction false} HitsPeriod(limit: nat, n: nat, r: nat)
    requires r < n
    ensures Hits(limit, n, r) == limit / n + if r < limit % n then 1 else 0
  {
    if limit > 0 {
      HitsPeriod(limit - 1, n, r);
      NextDivMod(limit - 1, n);
    } else {
      DivModUnique(0, n, 0, 0);
    }
  }

  /** How many of the results 0..k-1 of rand() do that. */
  function Giving(k: nat, n: nat, r: nat): nat
    requires n > 0
  {
    if k == 0 then 0 else Giving(k - 1, n, r) + if Gives(n, k - 1, r) then 1 else 0
  }

  lemma {:induction false} GivingHits(k: nat, n: nat, r: nat)
    requires n >= 2
    ensures Giving(k, n, r) == Hits(Min(k, AcceptLimit(RAND_MAX, n) + 1), n, r)
  {
    hide AcceptLimit;
    if k > 0 { GivingHits(k - 1, n, r); }
  }

  /** For 2 to 2^31 outcomes, every outcome is given by the same number of results of rand(). */
  lemma Uniform(n: nat, r: nat)
    requires 2 <= n <= 0x8000_0000 && r < n
    ensures Giving(0x8000_0000, n, r) == 0x8000_0000 / n > 0
  {
    hide Hits, Giving, AcceptLimit;
    AcceptsPeriods(n);
    GivingHits(0x8000_0000, n, r);
    HitsPeriod(AcceptLimit(RAND_MAX, n) + 1, n, r);
  }

  /** The accepted values are whole periods, as many as fit. */
  lemma AcceptsPeriods(n: nat)
    requires 2 <= n <= RAND_MAX + 1
    ensures AcceptLimit(RAND_MAX, n) <= RAND_MAX
    ensures (AcceptLimit(RAND_MAX, n) + 1) % n == 0
    ensures (AcceptLimit(RAND_MAX, n) + 1) / n == (RAND_MAX + 1) / n > 0
  {
    var q, e := RAND_MAX / n, RAND_MAX % n;
    NextDivMod(RAND_MAX, n);
    var limit := AcceptLimit(RAND_MAX, n);
    if e + 1 < n {
      PeriodStart(RAND_MAX, n);
      assert limit == RAND_MAX - (e + 1);
    } else {
      assert limit == RAND_MAX;
    }
  }

  lemma PeriodStart(x: nat, n: nat)
    requires 2 <= n <= x + 1 && x % n + 1 < n
    ensures (x - x % n) % n == 0 && (x - x % n) / n == x / n > 0
  {
    var q := x / n;
    assert x == q * n + x % n;
    DivModUnique(x - x % n, n, q, 0);
  }

  /** With more outcomes than rand() has results the last outcome never comes up, so uniformity holds exactly up to
      2^31 outcomes. */
  lemma UniformExactly(n: nat)
    requires 2 <= n < SIZE_MODULUS
    ensures (forall r | 0 <= r < n :: Reached(n, r)) <==> n <= 0x8000_0000
  {
    hide AcceptLimit;
    if n <= 0x8000_0000 {
      AcceptsPeriods(n);
      forall r | 0 <= r < n
        ensures Reached(n, r)
      {
        var limit := AcceptLimit(RAND_MAX, n) + 1;
        assert limit == (limit / n) * n + limit % n;
        AtLeastOnce(limit / n, n);
        DivModUnique(r, n, 0, r);
        assert Gives(n, r, r);
      }
    } else {
      var last := n - 1;
      forall d: nat | d <= 0x7FFF_FFFF
        ensures !Gives(n, d, last)
      {
        DivModUnique(d, n, 0, d);
      }
      assert !Reached(n, last);
    }
  }

  /** Some result of rand() gives outcome r. */
  predicate Reached(n: nat, r: nat)
    requires n > 0
  {
    exists d: nat :: d <= 0x7FFF_FFFF && Gives(n, d, r)
  }
}
