/** Bytes, the C integer ranges the server relies on, and decimal numerals. */
module Bytes {

  type byte = b: int | 0 <= b < 256

  const UINT_MAX := 0xFFFF_FFFF
  const SIZE_MODULUS := 0x1_0000_0000_0000_0000

  const SPACE: byte := 32
  const CR: byte := 13
  const LF: byte := 10

  /** The bytes of an ASCII text. */
  function Ascii(text: string): (s: seq<byte>)
    requires forall i | 0 <= i < |text| :: text[i] as int < 128
    ensures |s| == |text|
  {
    seq(|text|, i requires 0 <= i < |text| => text[i] as int)
  }

  /** The numeral that `%u` prints for n. */
  function Decimal(n: nat): (d: seq<byte>)
    ensures |d| >= 1
  {
    if n < 10 then [48 + n] else Decimal(n / 10) + [48 + n % 10]
  }

  function Pow10(e: nat): nat {
    if e == 0 then 1 else 10 * Pow10(e - 1)
  }

  /** A numeral has `length` digits exactly when n lies between consecutive powers of ten. */
  lemma {:induction false} DecimalLength(n: nat, length: nat)
    requires length >= 1
    requires n < Pow10(length)
    requires length == 1 || Pow10(length - 1) <= n
    ensures |Decimal(n)| == length
  {
    if n < 10 {
      if length > 1 {
        assert Pow10(length - 1) == 10 * Pow10(length - 2);
        Pow10Positive(length - 2);
      }
    } else {
      assert length > 1 && Pow10(length) == 10 * Pow10(length - 1);
      if length > 2 {
        assert Pow10(length - 1) == 10 * Pow10(length - 2);
      }
      DecimalLength(n / 10, length - 1);
    }
  }

  lemma Pow10Positive(e: nat)
    ensures Pow10(e) >= 1
  {
  }

  /** Every 32-bit number has at most ten digits. */
  lemma {:induction false} DecimalLengthBound(n: nat, digits: nat)
    requires n < Pow10(digits) && digits >= 1
    ensures |Decimal(n)| <= digits
  {
    if n >= 10 {
      assert Pow10(digits) == 10 * Pow10(digits - 1);
      assert digits > 1;
      DecimalLengthBound(n / 10, digits - 1);
    }
  }

  /** The threshold of int_length after k steps: a power of ten in a 64-bit size_t. */
  function Threshold(k: nat): (t: nat)
    ensures t < SIZE_MODULUS
  {
    if k == 0 then 1 else Threshold(k - 1) * 10 % SIZE_MODULUS
  }

  /** What a call of int_length comes to. */
  datatype Length = Returned(length: nat) | NeverReturns

  /** The largest threshold there is: 10^49 modulo 2^64. */
  const MAX_THRESHOLD := 17909126868192198656

  /** utility.c: counts the decimal digits of a, without division. Numbers of up to 19 digits are counted right. The
      threshold for 20 digits does not fit, so larger numbers are compared with what is left of higher powers of ten,
      and from the largest of those on the loop goes on for ever. */
  method IntLength(a: nat) returns (r: Length)
    requires a < SIZE_MODULUS
    ensures r == Returned(|Decimal(a)|) <==> a < 10_000_000_000_000_000_000
    ensures r.Returned? <==> a < MAX_THRESHOLD
    ensures r.Returned? ==> Stops(a, r.length)
    ensures r.NeverReturns? ==> forall k | k >= 1 :: a >= Threshold(k)
  {
    hide Threshold, Decimal;
    var length, threshold := 1, 10;
    ThresholdStart();
    ThresholdsEnd();
    while a >= threshold
      invariant 1 <= length <= 64 && threshold == Threshold(length)
      invariant forall k | 1 <= k < length :: a >= Threshold(k)
      decreases 64 - length
    {
      ThresholdNext(length);
      if threshold == 0 { // and zero times ten is zero again
        ZeroForEver(length);
        return NeverReturns;
      }
      threshold := threshold * 10 % SIZE_MODULUS;
      length := length + 1;
    }
    ThresholdBound(length);
    FirstThreshold(a, length);
    return Returned(length);
  }

  /** The loop of int_length ends with this length. */
  ghost predicate Stops(a: nat, length: nat) {
    length >= 1 && a < Threshold(length) && forall k | 1 <= k < length :: a >= Threshold(k)
  }

  lemma ThresholdStart()
    ensures Threshold(0) == 1 && Threshold(1) == 10
  {
  }

  lemma ThresholdNext(k: nat)
    ensures Threshold(k + 1) == Threshold(k) * 10 % SIZE_MODULUS
  {
  }

  lemma {:induction false} ZeroStays(k: nat, l: nat)
    requires k <= l && Threshold(k) == 0
    ensures Threshold(l) == 0
    decreases l
  {
    if k < l { ZeroStays(k, l - 1); }
  }

  lemma ZeroForEver(k: nat)
    requires Threshold(k) == 0
    ensures forall l | l >= k :: Threshold(l) == 0
  {
    forall l | l >= k ensures Threshold(l) == 0 { ZeroStays(k, l); }
  }

  lemma {:induction false} SmallThreshold(k: nat)
    requires k <= 19
    ensures Threshold(k) == Pow10(k)
  {
    if k > 0 {
      SmallThreshold(k - 1);
      Pow10Nineteen();
      Pow10Monotone(k, 19);
      Reduced(Pow10(k), 0, Pow10(k));
    }
  }

  /** A number modulo 2^64. */
  lemma Reduced(p: nat, q: nat, v: nat)
    requires p == q * SIZE_MODULUS + v && v < SIZE_MODULUS
    ensures p % SIZE_MODULUS == v
  {
  }

  /** No threshold up to the k-th is above the largest. */
  ghost predicate Bounded(k: nat) {
    forall j | 0 <= j <= k :: Threshold(j) <= MAX_THRESHOLD
  }

  /** The next threshold, given how often 2^64 goes into ten times the one before. */
  lemma Next(k: nat, q: nat, v: nat)
    requires Bounded(k) && Threshold(k) * 10 == q * SIZE_MODULUS + v && v <= MAX_THRESHOLD
    ensures Threshold(k + 1) == v && Bounded(k + 1)
  {
    Reduced(Threshold(k) * 10, q, v);
  }

  lemma FirstThresholds()
    ensures Bounded(20) && Threshold(19) == 10_000_000_000_000_000_000 && Threshold(20) == 7766279631452241920
  {
    hide Threshold;
    forall j | 0 <= j <= 19
      ensures Threshold(j) <= MAX_THRESHOLD
    {
      SmallThreshold(j);
      Pow10Monotone(j, 19);
      Pow10Nineteen();
    }
    SmallThreshold(19);
    Pow10Nineteen();
    Next(19, 5, 7766279631452241920);
  }

  lemma MiddleThresholds()
    ensures Bounded(42) && Threshold(42) == 11806718586779598848
  {
    hide Threshold, Bounded;
    FirstThresholds();
    Next(20, 4, 3875820019684212736); Next(21, 2, 1864712049423024128); Next(22, 1, 200376420520689664);
    Next(23, 0, 2003764205206896640); Next(24, 1, 1590897978359414784); Next(25, 0, 15908979783594147840);
    Next(26, 8, 11515845246265065472); Next(27, 6, 4477988020393345024); Next(28, 2, 7886392056514347008);
    Next(29, 4, 5076944270305263616); Next(30, 2, 13875954555633532928); Next(31, 7, 9632337040368467968);
    Next(32, 5, 4089650035136921600); Next(33, 2, 4003012203950112768); Next(34, 2, 3136633892082024448);
    Next(35, 1, 12919594847110692864); Next(36, 7, 68739955140067328); Next(37, 0, 687399551400673280);
    Next(38, 0, 6873995514006732800); Next(39, 3, 13399722918938673152); Next(40, 7, 4870020673419870208);
    Next(41, 2, 11806718586779598848);
  }

  /** The 64th threshold is a multiple of 2^64. */
  lemma ThresholdsEnd()
    ensures Bounded(64) && Threshold(64) == 0 && Threshold(49) == MAX_THRESHOLD
  {
    hide Threshold, Bounded;
    MiddleThresholds();
    Next(42, 6, 7386721425538678784); Next(43, 4, 80237960548581376); Next(44, 0, 802379605485813760);
    Next(45, 0, 8023796054858137600); Next(46, 4, 6450984253743169536); Next(47, 3, 9169610316303040512);
    Next(48, 4, 17909126868192198656); Next(49, 9, 13070572018536022016); Next(50, 7, 1578511669393358848);
    Next(51, 0, 15785116693933588480); Next(52, 8, 10277214349659471872); Next(53, 5, 10538423128046960640);
    Next(54, 5, 13150510911921848320); Next(55, 7, 2377900603251621888); Next(56, 1, 5332261958806667264);
    Next(57, 2, 16429131440647569408); Next(58, 8, 16717361816799281152); Next(59, 9, 1152921504606846976);
    Next(60, 0, 11529215046068469760); Next(61, 6, 4611686018427387904); Next(62, 2, 9223372036854775808);
    Next(63, 5, 0);
  }

  lemma ThresholdBound(k: nat)
    ensures Threshold(k) <= MAX_THRESHOLD
  {
    hide Threshold;
    ThresholdsEnd();
    if k > 64 { ZeroStays(64, k); }
  }

  /** The first threshold above a tells its number of digits exactly if a has at most 19 of them. */
  lemma FirstThreshold(a: nat, length: nat)
    requires Stops(a, length)
    ensures length == |Decimal(a)| <==> a < 10_000_000_000_000_000_000
  {
    hide Threshold, Decimal;
    FirstThresholds();
    Pow10Nineteen();
    if a < 10_000_000_000_000_000_000 {
      SmallThreshold(length);
      if length > 1 { SmallThreshold(length - 1); }
      DecimalLength(a, length);
    } else {
      assert Pow10(20) == 10 * Pow10(19);
      DecimalLength(a, 20);
    }
  }

  lemma Pow10Nineteen()
    ensures Pow10(10) == 10_000_000_000
    ensures Pow10(19) == 10_000_000_000_000_000_000
  {
    assert Pow10(5) == 100_000;
    assert Pow10(10) == 10_000_000_000;
    assert Pow10(15) == 1_000_000_000_000_000;
  }

  lemma {:induction false} Pow10Monotone(a: nat, b: nat)
    requires a <= b
    ensures Pow10(a) <= Pow10(b)
    decreases b - a
  {
    if a < b { Pow10Monotone(a, b - 1); }
  }
}
