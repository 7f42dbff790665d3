/** nex_processor.c: breaking the lines of a page in place. */
module NexWrap {
  import opened Bytes

  const LINE_WIDTH := 70

  // ---- Lines ----

  /** Where the line that contains position i starts. */
  function LineStart(s: seq<byte>, i: nat): (l: nat)
    requires i <= |s|
    ensures l <= i && (l == 0 || s[l - 1] == LF) && forall k | l <= k < i :: s[k] != LF
  {
    if i == 0 || s[i - 1] == LF then i else LineStart(s, i - 1)
  }

  /** Where the line that contains position i ends: at its newline or at the end of the text. */
  function LineEnd(s: seq<byte>, i: nat): (e: nat)
    requires i <= |s|
    ensures i <= e <= |s| && (e == |s| || s[e] == LF) && forall k | i <= k < e :: s[k] != LF
    decreases |s| - i
  {
    if i == |s| || s[i] == LF then i else LineEnd(s, i + 1)
  }

  /** A break at position i that the page did not have: it replaces a space, the line was too long without it, and
      no later space would have kept the line within the width. */
  predicate ForcedBreak(page: seq<byte>, s: seq<byte>, i: nat)
    requires |s| == |page| && i < |s|
  {
    var l := LineStart(s, i);
    && page[i] == 32 && s[i] == 10
    && LineEnd(page, l) > l + 70
    && forall k | i < k <= l + 70 :: page[k] != 32
  }

  /** A space that was left alone: its line is short enough. */
  predicate FittingSpace(s: seq<byte>, i: nat)
    requires i < |s|
  {
    LineEnd(s, i) - LineStart(s, i) <= 70
  }

  /** s is the page with its lines broken: where they must be, as late as possible, and only at spaces. So a line that
      is longer than the width has no space. */
  predicate Wrapped(page: seq<byte>, s: seq<byte>) {
    && |s| == |page|
    && (forall i | 0 <= i < |s| :: s[i] == page[i] || ForcedBreak(page, s, i))
    && (forall i | 0 <= i < |s| && s[i] == 32 :: FittingSpace(s, i))
  }

  /** There is only one way to do that. */
  lemma WrappedIsUnique(page: seq<byte>, s: seq<byte>, t: seq<byte>)
    requires Wrapped(page, s) && Wrapped(page, t)
    ensures s == t
  {
    if s != t {
      var i := FirstDifference(s, t);
      if s[i] != page[i] { BothBreak(page, s, t, i); }
      if t[i] != page[i] { BothBreak(page, t, s, i); }
    }
  }

  lemma {:induction false} FirstDifference(s: seq<byte>, t: seq<byte>) returns (i: nat)
    requires |s| == |t| && s != t
    ensures i < |s| && s[i] != t[i] && s[..i] == t[..i]
    decreases |s|
  {
    assert s == [s[0]] + s[1..] && t == [t[0]] + t[1..];
    i := 0;
    if s[0] == t[0] {
      var j := FirstDifference(s[1..], t[1..]);
      i := j + 1;
      assert s[..i] == [s[0]] + s[1..][..j] && t[..i] == [t[0]] + t[1..][..j];
    }
  }

  /** If one text breaks at i, so does the other: it would have a space in a line that is too long. */
  lemma BothBreak(page: seq<byte>, s: seq<byte>, t: seq<byte>, i: nat)
    requires Wrapped(page, s) && Wrapped(page, t) && i < |s| && s[..i] == t[..i]
    requires s[i] != page[i]
    ensures t[i] != page[i]
  {
    if t[i] == page[i] { SameStart(s, t, i); }
  }

  lemma {:induction false} SameStart(s: seq<byte>, t: seq<byte>, i: nat)
    requires i <= |s| && i <= |t| && s[..i] == t[..i]
    ensures LineStart(s, i) == LineStart(t, i)
  {
    if i > 0 {
      assert s[i - 1] == s[..i][i - 1] == t[..i][i - 1] == t[i - 1];
      assert s[..i - 1] == s[..i][..i - 1] == t[..i][..i - 1] == t[..i - 1];
      if s[i - 1] != LF { SameStart(s, t, i - 1); }
    }
  }

  lemma {:induction false} StartIs(s: seq<byte>, i: nat, l: nat)
    requires l <= i <= |s| && (l == 0 || s[l - 1] == LF) && forall k | l <= k < i :: s[k] != LF
    ensures LineStart(s, i) == l
  {
  }

  lemma EndIs(s: seq<byte>, i: nat, e: nat)
    requires i <= e <= |s| && (e == |s| || s[e] == LF) && forall k | i <= k < e :: s[k] != LF
    ensures LineEnd(s, i) == e
  {
  }

  // ---- The loop ----

  const NONE := -1 // NULL

  /** Before byte p is looked at: s is the text so far, its current line starts at l, and `last` is the last space in
      it. */
  ghost predicate Going(page: seq<byte>, s: seq<byte>, p: nat, l: nat, last: int) {
    && l <= p <= |s| == |page| && s[p..] == page[p..]
    && (l == 0 || s[l - 1] == LF) && (forall k | l <= k < p :: s[k] == page[k] && s[k] != LF)
    && (if last == NONE then forall k | l <= k < p :: s[k] != SPACE
        else l <= last < p <= l + LINE_WIDTH && s[last] == SPACE && forall k | last < k < p :: s[k] != SPACE)
    && (forall i | 0 <= i < l :: s[i] == page[i] || ForcedBreak(page, s, i))
    && (forall i | 0 <= i < l && s[i] == SPACE :: FittingSpace(s, i))
  }

  /** The last space once byte p has been looked at. */
  function LastAt(s: seq<byte>, p: nat, last: int): int
    requires p < |s|
  {
    if s[p] == SPACE then p else last
  }

  lemma PassByte(page: seq<byte>, s: seq<byte>, p: nat, l: nat, last: int)
    requires Going(page, s, p, l, last) && p < |s| && s[p] != LF
    requires LastAt(s, p, last) == NONE || p < l + LINE_WIDTH
    ensures Going(page, s, p + 1, l, LastAt(s, p, last))
  {
    hide ForcedBreak, FittingSpace;
    assert s[p] == s[p..][0] == page[p..][0] == page[p];
    assert s[p + 1..] == s[p..][1..] == page[p..][1..] == page[p + 1..];
  }

  lemma PassNewline(page: seq<byte>, s: seq<byte>, p: nat, l: nat, last: int)
    requires Going(page, s, p, l, last) && p < |s| && s[p] == LF
    ensures Going(page, s, p + 1, p + 1, NONE)
  {
    hide ForcedBreak;
    assert s[p] == s[p..][0] == page[p..][0] == page[p];
    assert s[p + 1..] == s[p..][1..] == page[p..][1..] == page[p + 1..];
    forall i | l <= i < p && s[i] == SPACE
      ensures FittingSpace(s, i)
    {
      StartIs(s, i, l);
      EndIs(s, i, p);
    }
  }

  /** Only the start of later lines depends on a break. */
  lemma BreakKeeps(page: seq<byte>, s: seq<byte>, t: seq<byte>, b: nat, i: nat)
    requires |s| == |t| == |page| && i < b < |s| && t == s[b := LF] && s[i..b] == t[i..b]
    ensures s[i] != page[i] && ForcedBreak(page, s, i) ==> ForcedBreak(page, t, i)
    ensures LineEnd(s, i) < b && FittingSpace(s, i) ==> FittingSpace(t, i)
  {
    assert s[..i] == t[..i];
    SameStart(s, t, i);
    assert s[i] == s[i..b][0] == t[i..b][0] == t[i];
    if LineEnd(s, i) < b { EndIs(t, i, LineEnd(s, i)); }
  }

  lemma BreakIsForced(page: seq<byte>, s: seq<byte>, t: seq<byte>, p: nat, l: nat, last: int, b: nat)
    requires Going(page, s, p, l, last) && p < |s| && s[p] != LF && l + LINE_WIDTH <= p
    requires LastAt(s, p, last) == b && t == s[b := LF]
    ensures ForcedBreak(page, t, b)
  {
    hide FittingSpace;
    assert s[p] == s[p..][0] == page[p..][0] == page[p];
    StartIs(t, b, l);
    var e := LineEnd(page, l);
    assert e > p;
  }

  lemma BreakLine(page: seq<byte>, s: seq<byte>, p: nat, l: nat, last: int, b: nat)
    requires Going(page, s, p, l, last) && p < |s| && s[p] != LF && l + LINE_WIDTH <= p
    requires LastAt(s, p, last) == b
    ensures l <= b <= p <= b + LINE_WIDTH
    ensures Going(page, s[b := LF], p + 1, b + 1, NONE)
  {
    hide ForcedBreak, FittingSpace;
    var t := s[b := LF];
    assert s[p] == s[p..][0] == page[p..][0] == page[p];
    assert t[p + 1..] == s[p + 1..] == s[p..][1..] == page[p..][1..] == page[p + 1..];
    forall k | b < k <= p ensures t[k] == page[k] && t[k] != LF && t[k] != SPACE {
      assert t[k] == s[k];
    }
    BreakIsForced(page, s, t, p, l, last, b);
    forall i | 0 <= i < b
      ensures t[i] == page[i] || ForcedBreak(page, t, i)
      ensures t[i] == SPACE ==> FittingSpace(t, i)
    {
      assert t[i] == s[i];
      if i < l { EarlierLineKeeps(page, s, t, l, b, i); }
      else if t[i] == SPACE { SpaceBeforeBreak(page, s, t, p, l, last, b, i); }
    }
  }

  lemma EarlierLineKeeps(page: seq<byte>, s: seq<byte>, t: seq<byte>, l: nat, b: nat, i: nat)
    requires |s| == |t| == |page| && i < l <= b < |s| && s[l - 1] == LF && t == s[b := LF]
    requires s[i] == page[i] || ForcedBreak(page, s, i)
    requires s[i] == SPACE ==> FittingSpace(s, i)
    ensures t[i] == page[i] || ForcedBreak(page, t, i)
    ensures t[i] == SPACE ==> FittingSpace(t, i)
  {
    hide ForcedBreak, FittingSpace;
    assert s[i..b] == t[i..b];
    assert LineEnd(s, i) < l;
    BreakKeeps(page, s, t, b, i);
  }

  lemma SpaceBeforeBreak(page: seq<byte>, s: seq<byte>, t: seq<byte>, p: nat, l: nat, last: int, b: nat, i: nat)
    requires Going(page, s, p, l, last) && p < |s| && s[p] != LF && l + LINE_WIDTH <= p
    requires LastAt(s, p, last) == b && t == s[b := LF] && l <= i < b && t[i] == SPACE
    ensures FittingSpace(t, i)
  {
    hide ForcedBreak;
    assert t[i] == s[i];
    StartIs(t, i, l);
    EndIs(t, i, b);
  }

  lemma LastLine(page: seq<byte>, s: seq<byte>, l: nat, last: int)
    requires Going(page, s, |s|, l, last)
    ensures Wrapped(page, s)
  {
    hide ForcedBreak;
    forall i | l <= i < |s| && s[i] == SPACE
      ensures FittingSpace(s, i)
    {
      StartIs(s, i, l);
      EndIs(s, i, |s|);
    }
  }

  /** wrap: one pass, in place. The unsigned subtraction never underflows. */
  method Wrap(text: array<byte>)
    modifies text
    ensures Wrapped(old(text[..]), text[..])
  {
    hide Wrapped, Going;
    ghost var page := text[..];
    ghost var l := 0;
    var symbolsTillWantNewline := LINE_WIDTH;
    var lastSpace := NONE;
    var p := 0;
    BeforeFirst(page);
    while p < text.Length
      invariant 0 <= p <= text.Length && l <= p
      invariant Going(page, text[..], p, l, lastSpace)
      invariant symbolsTillWantNewline == if p < l + LINE_WIDTH then l + LINE_WIDTH - p else 0
    {
      var c := text[p];
      ghost var last := lastSpace;
      if c == SPACE { lastSpace := p; }
      if c == LF {
        PassNewline(page, text[..], p, l, last);
        symbolsTillWantNewline := LINE_WIDTH;
        lastSpace := NONE;
        l := p + 1;
      } else if symbolsTillWantNewline > 0 {
        PassByte(page, text[..], p, l, last);
        symbolsTillWantNewline := symbolsTillWantNewline - 1;
      } else if lastSpace != NONE {
        LastSpaceExists(page, text[..], p, l, last);
        BreakLine(page, text[..], p, l, last, lastSpace);
        assert p - lastSpace <= LINE_WIDTH;
        symbolsTillWantNewline := LINE_WIDTH - (p - lastSpace);
        ghost var before := text[..];
        text[lastSpace] := LF;
        assert text[..] == before[lastSpace := LF];
        l := lastSpace + 1;
        lastSpace := NONE;
      } else {
        PassByte(page, text[..], p, l, last);
      }
      p := p + 1;
    }
    LastLine(page, text[..], l, lastSpace);
  }

  lemma BeforeFirst(page: seq<byte>)
    ensures Going(page, page, 0, 0, NONE)
  {
  }

  lemma LastSpaceExists(page: seq<byte>, s: seq<byte>, p: nat, l: nat, last: int)
    requires Going(page, s, p, l, last)
    ensures last != NONE ==> 0 <= last < p
  {
  }
}
