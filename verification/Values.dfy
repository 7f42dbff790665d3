/** value.c: memory in at most two parts, used as one byte sequence. */
module Values {
  import opened Bytes

  const VALUE_PARTS := 2

  /** struct ConstantValue: what its two pointers point to. Advancing a pointer drops bytes from the front of a part. */
  datatype Value = Value(part0: seq<byte>, part1: seq<byte>)
  {
    function Bytes(): (s: seq<byte>) {
      part0 + part1
    }

    function Get(i: nat): seq<byte>
      requires i < VALUE_PARTS
    {
      if i == 0 then part0 else part1
    }

    function Set(i: nat, part: seq<byte>): Value
      requires i < VALUE_PARTS
    {
      if i == 0 then Value(part, part1) else Value(part0, part)
    }

    /** Where part i starts in Bytes(). */
    function StartOf(i: nat): nat
      requires i <= VALUE_PARTS
    {
      if i == 0 then 0 else if i == 1 then |part0| else |part0| + |part1|
    }
  }

  const NO_VALUE := Value([], [])

  function Min(a: nat, b: nat): nat {
    if a < b then a else b
  }

  /** value_size */
  method Size(value: Value) returns (sum: nat)
    ensures sum == |value.Bytes()|
  {
    sum := 0;
    for i := 0 to VALUE_PARTS
      invariant sum == value.StartOf(i)
    {
      sum := sum + |value.Get(i)|;
    }
  }

  /** How many bytes of part i fall into the first `size` bytes of the value. */
  function CutAt(value: Value, size: nat, i: nat): (n: nat)
    requires i < VALUE_PARTS
    ensures n <= |value.Get(i)|
  {
    if i == 0 then Min(size, |value.part0|) else Min(size - Min(size, |value.part0|), |value.part1|)
  }

  /** What is left of `size` before part i. */
  function LeftAt(value: Value, size: nat, i: nat): (n: nat)
    requires i <= VALUE_PARTS
  {
    if i == 0 then size
    else if i == 1 then size - CutAt(value, size, 0)
    else size - CutAt(value, size, 0) - CutAt(value, size, 1)
  }

  lemma CutBytes(value: Value, size: nat)
    ensures var n, m, k := CutAt(value, size, 0), CutAt(value, size, 1), Min(size, |value.Bytes()|);
      && value.part0[..n] + value.part1[..m] == value.Bytes()[..k]
      && value.part0[n..] + value.part1[m..] == value.Bytes()[k..]
  {
  }

  /** value_first: keeps the first `size` bytes, or everything. */
  method First(value: Value, size: nat) returns (r: Value)
    ensures r.Bytes() == value.Bytes()[..Min(size, |value.Bytes()|)]
  {
    r := value;
    var left := size;
    for i := 0 to VALUE_PARTS
      invariant r == Value(if i > 0 then value.part0[..CutAt(value, size, 0)] else value.part0,
                           if i > 1 then value.part1[..CutAt(value, size, 1)] else value.part1)
      invariant left == LeftAt(value, size, i)
    {
      if |r.Get(i)| > left {
        r := r.Set(i, r.Get(i)[..left]);
        left := 0;
      } else {
        left := left - |r.Get(i)|;
      }
    }
    CutBytes(value, size);
  }

  /** value_first_second: splits after `size` bytes; `second` is what value becomes. */
  method FirstSecond(value: Value, size: nat) returns (second: Value, first: Value)
    ensures first.Bytes() == value.Bytes()[..Min(size, |value.Bytes()|)]
    ensures second.Bytes() == value.Bytes()[Min(size, |value.Bytes()|)..]
    ensures value.part0 == [] ==> first.part0 == second.part0 == []
    ensures value.part1 == [] ==> first.part1 == second.part1 == []
  {
    first := value;
    second := value;
    var left := size;
    for i := 0 to VALUE_PARTS
      invariant first == Value(if i > 0 then value.part0[..CutAt(value, size, 0)] else value.part0,
                               if i > 1 then value.part1[..CutAt(value, size, 1)] else value.part1)
      invariant second == Value(if i > 0 then value.part0[CutAt(value, size, 0)..] else value.part0,
                                if i > 1 then value.part1[CutAt(value, size, 1)..] else value.part1)
      invariant left == LeftAt(value, size, i)
    {
      if |second.Get(i)| > left {
        second := second.Set(i, second.Get(i)[left..]);
        first := first.Set(i, first.Get(i)[..left]);
        left := 0;
      } else {
        left := left - |second.Get(i)|;
        second := second.Set(i, []);
      }
    }
    CutBytes(value, size);
  }

  /** value_second: drops the first `size` bytes. */
  method Second(value: Value, size: nat) returns (r: Value)
    ensures r.Bytes() == value.Bytes()[Min(size, |value.Bytes()|)..]
  {
    r := value;
    var left := size;
    var i := 0;
    while i < VALUE_PARTS && left > 0
      invariant 0 <= i <= VALUE_PARTS
      invariant r == Value(if i > 0 then value.part0[CutAt(value, size, 0)..] else value.part0,
                           if i > 1 then value.part1[CutAt(value, size, 1)..] else value.part1)
      invariant left == LeftAt(value, size, i)
    {
      if |r.Get(i)| > left {
        r := r.Set(i, r.Get(i)[left..]);
        left := 0;
      } else {
        left := left - |r.Get(i)|;
        r := r.Set(i, []);
      }
      i := i + 1;
    }
    assert i <= 1 ==> CutAt(value, size, 1) == 0;
    CutBytes(value, size);
  }

  // ---- Trimming ----

  predicate IsTrimmed(c: byte) {
    c == SPACE || c == 9 || c == LF || c == CR || c == 11
  }

  function TrimFront(s: seq<byte>): (r: seq<byte>)
    ensures |r| <= |s|
  {
    if s == [] || !IsTrimmed(s[0]) then s else TrimFront(s[1..])
  }

  function TrimBack(s: seq<byte>): (r: seq<byte>)
    ensures |r| <= |s|
  {
    if s == [] || !IsTrimmed(s[|s| - 1]) then s else TrimBack(s[..|s| - 1])
  }

  function Trim(s: seq<byte>): (r: seq<byte>) {
    TrimBack(TrimFront(s))
  }

  /** Trimming cuts blanks off both ends, and only blanks. */
  lemma TrimIsMaximal(s: seq<byte>) returns (before: seq<byte>, after: seq<byte>)
    ensures s == before + Trim(s) + after
    ensures forall c <- before + after :: IsTrimmed(c)
    ensures Trim(s) != [] ==> !IsTrimmed(Trim(s)[0]) && !IsTrimmed(Trim(s)[|Trim(s)| - 1])
  {
    before := FrontParts(s);
    after := BackParts(TrimFront(s));
  }

  lemma {:induction false} FrontParts(s: seq<byte>) returns (before: seq<byte>)
    ensures s == before + TrimFront(s) && forall c <- before :: IsTrimmed(c)
    ensures TrimFront(s) != [] ==> !IsTrimmed(TrimFront(s)[0])
  {
    before := [];
    if s != [] && IsTrimmed(s[0]) {
      var b := FrontParts(s[1..]);
      before := [s[0]] + b;
      assert s == [s[0]] + s[1..];
    }
  }

  lemma {:induction false} BackParts(s: seq<byte>) returns (after: seq<byte>)
    ensures s == TrimBack(s) + after && forall c <- after :: IsTrimmed(c)
    ensures TrimBack(s) != [] ==> TrimBack(s)[0] == s[0] && !IsTrimmed(TrimBack(s)[|TrimBack(s)| - 1])
  {
    after := [];
    if s != [] && IsTrimmed(s[|s| - 1]) {
      var a := BackParts(s[..|s| - 1]);
      after := a + [s[|s| - 1]];
      assert s == s[..|s| - 1] + [s[|s| - 1]];
    }
  }

  /** value_trim, first loop. */
  method TrimLeading(value: Value) returns (r: Value)
    ensures r.Bytes() == TrimFront(value.Bytes())
  {
    r := value;
    var i := 0;
    while true
      invariant 0 <= i < VALUE_PARTS && (i == 1 ==> r.part0 == [])
      invariant TrimFront(r.Bytes()) == TrimFront(value.Bytes())
      decreases |r.Bytes()|
    {
      while r.Get(i) == []
        invariant 0 <= i < VALUE_PARTS && (i == 1 ==> r.part0 == [])
        decreases VALUE_PARTS - i
      {
        i := i + 1;
        if i == VALUE_PARTS { return; }
      }
      var c := r.Get(i)[0];
      if !IsTrimmed(c) { break; }
      ghost var before := r.Bytes();
      r := r.Set(i, r.Get(i)[1..]);
      assert r.Bytes() == before[1..];
    }
  }

  /** value_trim, second loop: no lower bound check, it relies on a byte that is no blank. */
  method TrimTrailing(value: Value) returns (r: Value)
    requires |value.Bytes()| > 0 && !IsTrimmed(value.Bytes()[0])
    ensures r.Bytes() == TrimBack(value.Bytes())
  {
    r := value;
    var i := VALUE_PARTS - 1;
    while true
      invariant 0 <= i < VALUE_PARTS && (i == 0 ==> r.part1 == [])
      invariant TrimBack(r.Bytes()) == TrimBack(value.Bytes())
      invariant |r.Bytes()| > 0 && r.Bytes()[0] == value.Bytes()[0]
      decreases |r.Bytes()|
    {
      while r.Get(i) == []
        invariant 0 <= i < VALUE_PARTS && (i == 0 ==> r.part1 == [])
        decreases i
      {
        i := i - 1;
      }
      ghost var before := r.Bytes();
      var c := r.Get(i)[|r.Get(i)| - 1];
      assert c == before[|before| - 1];
      if !IsTrimmed(c) { break; }
      r := r.Set(i, r.Get(i)[..|r.Get(i)| - 1]);
      assert r.Bytes() == before[..|before| - 1];
    }
  }

  /** value_trim: drops blanks at both ends, whatever the split into parts. */
  method TrimValue(value: Value) returns (r: Value)
    ensures r.Bytes() == Trim(value.Bytes())
  {
    r := TrimLeading(value);
    if r.Bytes() == [] { return; }
    assert !IsTrimmed(r.Bytes()[0]) by { var before := FrontParts(value.Bytes()); }
    r := TrimTrailing(r);
  }

  // ---- Comma-separated lists ----

  const COMMA: byte := 44

  /** The elements between the commas. */
  function CommaSplit(s: seq<byte>): (r: seq<seq<byte>>)
    ensures |r| >= 1
    decreases |s|
  {
    var k := CommaAt(s);
    if k == |s| then [s] else [s[..k]] + CommaSplit(s[k + 1..])
  }

  /** Position of the first comma, or the length. */
  function CommaAt(s: seq<byte>): (k: nat)
    ensures k <= |s|
  {
    if s == [] || s[0] == COMMA then 0 else 1 + CommaAt(s[1..])
  }

  lemma {:induction false} CommaAtFirst(s: seq<byte>)
    ensures COMMA !in s[..CommaAt(s)]
    ensures CommaAt(s) < |s| ==> s[CommaAt(s)] == COMMA
  {
    if s != [] && s[0] != COMMA {
      CommaAtFirst(s[1..]);
      assert s[..CommaAt(s)] == [s[0]] + s[1..][..CommaAt(s[1..])];
    }
  }

  /** Joining the elements with commas gives the text back, and no element holds a comma. */
  lemma {:induction false} CommaSplitJoins(s: seq<byte>)
    ensures CommaJoin(CommaSplit(s)) == s
    ensures forall e <- CommaSplit(s) :: COMMA !in e
    decreases |s|
  {
    var k := CommaAt(s);
    CommaAtFirst(s);
    assert s[..|s|] == s;
    if k < |s| {
      CommaSplitJoins(s[k + 1..]);
      assert s == s[..k] + [COMMA] + s[k + 1..];
    }
  }

  function CommaJoin(list: seq<seq<byte>>): seq<byte> {
    if list == [] then [] else if |list| == 1 then list[0] else list[0] + [COMMA] + CommaJoin(list[1..])
  }

  lemma {:induction false} CommaAtConcat(a: seq<byte>, b: seq<byte>)
    ensures CommaAt(a + b) == if CommaAt(a) < |a| then CommaAt(a) else |a| + CommaAt(b)
  {
    if a == [] { assert a + b == b; }
    else if a[0] != COMMA {
      assert (a + b)[1..] == a[1..] + b;
      CommaAtConcat(a[1..], b);
    }
  }

  /** memchr: the offset of the first comma, or the size. */
  method FindComma(part: seq<byte>) returns (k: nat)
    ensures k == CommaAt(part)
  {
    k := 0;
    while k < |part| && part[k] != COMMA
      invariant k <= |part| && CommaAt(part) == k + CommaAt(part[k..])
    {
      assert part[k..][1..] == part[k + 1..];
      k := k + 1;
    }
  }

  /** No comma before part i: those parts belong to the element, the others wait. */
  ghost predicate Uncut(value: Value, i: nat, rest: Value, result: Value, more: bool) {
    && rest == Value(if i > 0 then [] else value.part0, if i > 1 then [] else value.part1)
    && result == Value(if i > 0 then value.part0 else [], if i > 1 then value.part1 else [])
    && (i > 0 ==> CommaAt(value.part0) == |value.part0|)
    && (i > 1 ==> CommaAt(value.part1) == |value.part1|)
    && i <= VALUE_PARTS && more == (value.StartOf(i) > 0)
  }

  /** What value_parse_comma promises. */
  ghost predicate Cut(value: Value, rest: Value, result: Value, more: bool) {
    var s := value.Bytes();
    var k := CommaAt(s);
    && result.Bytes() == s[..k]
    && (k < |s| ==> more && rest.Bytes() == s[k + 1..])
    && (k == |s| ==> more == (s != []) && rest.Bytes() == [])
  }

  lemma CutInPart(value: Value, i: nat, rest: Value, result: Value, more: bool)
    requires i < VALUE_PARTS && Uncut(value, i, rest, result, more) && CommaAt(rest.Get(i)) < |rest.Get(i)|
    ensures var k := CommaAt(rest.Get(i));
      Cut(value, rest.Set(i, rest.Get(i)[k + 1..]), result.Set(i, rest.Get(i)[..k]), true)
  {
    hide CommaAt;
    if i == 0 { CommaInFirst(value.part0, value.part1); } else { CommaInSecond(value.part0, value.part1); }
  }

  lemma NoCommaInPart(value: Value, i: nat, rest: Value, result: Value, more: bool)
    requires i < VALUE_PARTS && Uncut(value, i, rest, result, more) && CommaAt(rest.Get(i)) == |rest.Get(i)|
    ensures Uncut(value, i + 1, rest.Set(i, []), result.Set(i, rest.Get(i)), more || |rest.Get(i)| > 0)
  {
    hide CommaAt;
  }

  lemma NoCommaAtAll(value: Value, rest: Value, result: Value, more: bool)
    requires Uncut(value, VALUE_PARTS, rest, result, more)
    ensures Cut(value, rest, result, more)
  {
    hide CommaAt;
    CommaNowhere(value.part0, value.part1);
  }

  /** value_parse_comma: cuts the first list element off; `more` says whether there was anything to cut. */
  method ParseComma(value: Value) returns (rest: Value, result: Value, more: bool)
    ensures Cut(value, rest, result, more)
  {
    hide CommaAt, Cut;
    rest, result, more := value, NO_VALUE, false;
    for i := 0 to VALUE_PARTS
      invariant Uncut(value, i, rest, result, more)
    {
      var found := FindComma(rest.Get(i));
      if found < |rest.Get(i)| {
        CutInPart(value, i, rest, result, more);
        result := result.Set(i, rest.Get(i)[..found]);
        rest := rest.Set(i, rest.Get(i)[found + 1..]);
        more := true;
        return;
      }
      NoCommaInPart(value, i, rest, result, more);
      more := more || |rest.Get(i)| > 0;
      result := result.Set(i, rest.Get(i));
      rest := rest.Set(i, []);
    }
    NoCommaAtAll(value, rest, result, more);
  }

  /** A comma in the first part is the first comma of the value. */
  lemma CommaInFirst(a: seq<byte>, b: seq<byte>)
    requires CommaAt(a) < |a|
    ensures CommaAt(a + b) == CommaAt(a)
    ensures a[..CommaAt(a)] + [] == (a + b)[..CommaAt(a)]
    ensures a[CommaAt(a) + 1..] + b == (a + b)[CommaAt(a) + 1..]
  {
    CommaAtConcat(a, b);
  }

  /** Otherwise the first comma of the second part is. */
  lemma CommaInSecond(a: seq<byte>, b: seq<byte>)
    requires CommaAt(a) == |a| && CommaAt(b) < |b|
    ensures CommaAt(a + b) == |a| + CommaAt(b)
    ensures a + b[..CommaAt(b)] == (a + b)[..|a| + CommaAt(b)]
    ensures [] + b[CommaAt(b) + 1..] == (a + b)[|a| + CommaAt(b) + 1..]
  {
    CommaAtConcat(a, b);
  }

  lemma CommaNowhere(a: seq<byte>, b: seq<byte>)
    requires CommaAt(a) == |a| && CommaAt(b) == |b|
    ensures CommaAt(a + b) == |a + b| && (a + b)[..|a + b|] == a + b
  {
    CommaAtConcat(a, b);
  }

  // ---- Numbers ----

  predicate IsDigit(c: byte) {
    48 <= c <= 57
  }

  predicate AllDigits(s: seq<byte>) {
    forall c <- s :: IsDigit(c)
  }

  function DigitsValue(s: seq<byte>): (n: int)
  {
    if s == [] then 0 else 10 * DigitsValue(s[..|s| - 1]) + (s[|s| - 1] as int - 48)
  }

  lemma {:induction false} DigitsValueGrows(s: seq<byte>, k: nat)
    requires AllDigits(s) && k <= |s|
    ensures 0 <= DigitsValue(s[..k]) <= DigitsValue(s)
    ensures k < |s| ==> DigitsValue(s) >= 10 * DigitsValue(s[..k])
    decreases |s|
  {
    if s != [] {
      var t := s[..|s| - 1];
      assert IsDigit(s[|s| - 1]) && AllDigits(t);
      DigitsValueGrows(t, if k < |s| then k else |t|);
      assert t[..|t|] == t && s[..|s|] == s;
      assert k < |s| ==> t[..k] == s[..k];
    }
  }

  /** Printing a number and reading it back. */
  lemma {:induction false} DecimalValue(n: nat)
    ensures AllDigits(Decimal(n)) && DigitsValue(Decimal(n)) == n
  {
    if n >= 10 {
      DecimalValue(n / 10);
      assert Decimal(n)[..|Decimal(n)| - 1] == Decimal(n / 10);
    }
  }

  /** value_to_uint: 32-bit unsigned arithmetic without overflow; accepts exactly the digit strings below 4294967280. */
  method ToUint(value: Value) returns (ok: bool, result: nat)
    ensures ok <==> AllDigits(value.Bytes()) && DigitsValue(value.Bytes()) < 4294967280
    ensures ok ==> result == DigitsValue(value.Bytes())
  {
    ghost var s := value.Bytes();
    ghost var at := 0;
    var localResult := 0;
    result := 0;
    for i := 0 to VALUE_PARTS
      invariant at == value.StartOf(i)
      invariant IsPrefixValue(s, at, localResult)
    {
      var part := value.Get(i);
      var p := 0;
      while p < |part|
        invariant 0 <= p <= |part| && at == value.StartOf(i) + p
        invariant IsPrefixValue(s, at, localResult)
      {
        PrefixValueStep(s, at, localResult);
        if localResult >= (UINT_MAX - 9) / 10 { return false, result; }
        var c := part[p];
        assert c == s[at];
        if !IsDigit(c) { return false, result; }
        localResult := 10 * localResult + (c as int - 48);
        p := p + 1;
        at := at + 1;
      }
    }
    assert s[..at] == s;
    return true, localResult;
  }

  /** n is the value of the first k digits, and it is in the accepted range. */
  ghost predicate IsPrefixValue(s: seq<byte>, k: nat, n: int) {
    k <= |s| && AllDigits(s[..k]) && 0 <= n == DigitsValue(s[..k]) < 4294967280
  }

  lemma PrefixValueStep(s: seq<byte>, k: nat, n: int)
    requires IsPrefixValue(s, k, n) && k < |s|
    ensures n >= (UINT_MAX - 9) / 10 ==> !AllDigits(s) || DigitsValue(s) >= 4294967280
    ensures n < (UINT_MAX - 9) / 10 && IsDigit(s[k]) ==>
              && 10 * n + (s[k] as int - 48) <= UINT_MAX
              && IsPrefixValue(s, k + 1, 10 * n + (s[k] as int - 48))
  {
    if AllDigits(s) { DigitsValueGrows(s, k); }
    assert s[..k + 1][..k] == s[..k];
    assert s[..k + 1] == s[..k] + [s[k]];
  }

  // ---- Comparison ----

  function Lower(c: byte): byte {
    if 65 <= c <= 90 then c + 32 else c
  }

  function LowerAll(s: seq<byte>): (r: seq<byte>)
    ensures |r| == |s|
  {
    seq(|s|, i requires 0 <= i < |s| => Lower(s[i]))
  }

  /** value_compare_case_mem: b is expected in lower case. */
  method CompareCase(value: Value, b: seq<byte>) returns (equal: bool)
    ensures equal <==> LowerAll(value.Bytes()) == b
  {
    ghost var s := value.Bytes();
    var size := Size(value);
    if size != |b| { return false; }
    var bi := 0;
    for i := 0 to VALUE_PARTS
      invariant bi == value.StartOf(i)
      invariant forall j :: 0 <= j < bi ==> Lower(s[j]) == b[j]
    {
      var ai := 0;
      while ai < |value.Get(i)|
        invariant 0 <= ai <= |value.Get(i)| && bi == value.StartOf(i) + ai
        invariant forall j :: 0 <= j < bi ==> Lower(s[j]) == b[j]
      {
        assert value.Get(i)[ai] == s[bi];
        if Lower(value.Get(i)[ai]) != b[bi] {
          assert LowerAll(s)[bi] != b[bi];
          return false;
        }
        ai := ai + 1;
        bi := bi + 1;
      }
    }
    assert LowerAll(s) == b;
    return true;
  }

  /** value_compare_mem */
  method Compare(value: Value, b: seq<byte>) returns (equal: bool)
    ensures equal <==> value.Bytes() == b
  {
    var size := Size(value);
    if size != |b| { return false; }
    var at := 0;
    for i := 0 to VALUE_PARTS
      invariant at == value.StartOf(i)
      invariant b[..at] == value.Bytes()[..at]
    {
      if value.Get(i) != b[at..at + |value.Get(i)|] {
        assert value.Bytes()[at..at + |value.Get(i)|] == value.Get(i);
        return false;
      }
      assert value.Bytes()[..at + |value.Get(i)|] == value.Bytes()[..at] + value.Get(i);
      at := at + |value.Get(i)|;
    }
    assert value.Bytes()[..at] == value.Bytes() && b[..at] == b;
    return true;
  }

  /** value_to_continuous: the bytes in one piece, copied into the buffer only when they are split.
      The buffer must have room for them in that case. */
  method ToContinuous(value: Value, buffer: array<byte>) returns (r: seq<byte>)
    requires value.part0 != [] && value.part1 != [] ==> |value.Bytes()| <= buffer.Length
    modifies buffer
    ensures r == value.Bytes()
  {
    var size := Size(value);
    for i := 0 to VALUE_PARTS
      invariant forall j :: 0 <= j < i ==> |value.Get(j)| != size
      invariant buffer[..] == old(buffer[..])
    {
      if |value.Get(i)| == size {
        assert value.Bytes() == value.Get(i);
        return value.Get(i);
      }
    }
    assert value.Get(0) == value.part0 && value.Get(1) == value.part1;
    assert |value.Get(0)| != size && |value.Get(1)| != size;
    forall j | 0 <= j < |value.part0| { buffer[j] := value.part0[j]; }
    forall j | 0 <= j < |value.part1| { buffer[|value.part0| + j] := value.part1[j]; }
    r := buffer[..size];
    assert r == value.part0 + value.part1;
  }
}
