/** language.c and the link normalisation of generic.c: the language of a page travels in its links. */
module Links {
  import opened Bytes
  import opened Values

  const MAX_LANGUAGE_SIZE := 2

  /** '\0', 'e' and 'd' */
  datatype Language = Unspecified | English | German

  const IMPLICIT_LANGUAGE := English

  const SLASH: byte := 47
  const QUESTION: byte := 63
  const HASH: byte := 35

  const EN: seq<byte> := [101, 110]
  const DE: seq<byte> := [100, 101]
  const LANG: seq<byte> := [108, 97, 110, 103, 61] // "lang="

  // ---- language.c ----

  /** language_get */
  function LanguageGet(s: seq<byte>): Language {
    if s == EN then English else if s == DE then German else Unspecified
  }

  function Or(language: Language, otherwise: Language): Language {
    if language == Unspecified then otherwise else language
  }

  /** language_explicit: whether a link has to name its language. */
  predicate Explicit(language: Language, requested: Language, implicit: Language) {
    var i := Or(implicit, IMPLICIT_LANGUAGE);
    language != i || (requested != Unspecified && requested == i)
  }

  function Code(language: Language): seq<byte> {
    match language
    case English => EN
    case German => DE
    case Unspecified => []
  }

  /** language_question */
  function LanguageQuestion(language: Language, requested: Language, implicit: Language): seq<byte> {
    if language != Unspecified && Explicit(language, requested, implicit) then [QUESTION] + LANG + Code(language)
    else []
  }

  /** language_slash */
  function LanguageSlash(language: Language, requested: Language, implicit: Language): seq<byte> {
    if language != Unspecified && Explicit(language, requested, implicit) then [SLASH] + Code(language) else []
  }

  /** What a link says of its language, and when it leaves that out: if nobody asked for the language that the browser
      gets anyway. */
  lemma LanguageTexts(requested: Language, implicit: Language)
    ensures LanguageQuestion(English, requested, implicit)
      == if implicit == German || requested == English then Ascii("?lang=en") else []
    ensures LanguageQuestion(German, requested, implicit)
      == if implicit != German || requested == German then Ascii("?lang=de") else []
    ensures LanguageSlash(English, requested, implicit)
      == if implicit == German || requested == English then Ascii("/en") else []
    ensures LanguageSlash(German, requested, implicit)
      == if implicit != German || requested == German then Ascii("/de") else []
    ensures LanguageQuestion(Unspecified, requested, implicit) == LanguageSlash(Unspecified, requested, implicit) == []
  {
  }

  /** The language of a page: what its address says, else what the browser prefers, else English. */
  function Effective(requested: Language, implicit: Language): Language {
    Or(Or(requested, implicit), IMPLICIT_LANGUAGE)
  }

  // ---- Slashes at both ends ----

  predicate AllSlashes(s: seq<byte>) {
    forall i | 0 <= i < |s| :: s[i] == SLASH
  }

  function CutFront(s: seq<byte>): (r: seq<byte>)
    ensures |r| <= |s|
    ensures r != [] ==> r[0] != SLASH
  {
    if s == [] || s[0] != SLASH then s else CutFront(s[1..])
  }

  function CutBack(s: seq<byte>): (r: seq<byte>)
    ensures |r| <= |s| && r == s[..|r|]
    ensures r != [] ==> r[|r| - 1] != SLASH
  {
    if s == [] || s[|s| - 1] != SLASH then s else CutBack(s[..|s| - 1])
  }

  predicate Trimmed(s: seq<byte>) {
    s == [] || (s[0] != 47 && s[|s| - 1] != 47)
  }

  lemma {:induction false} CutFrontExactly(lead: seq<byte>, s: seq<byte>)
    requires AllSlashes(lead) && (s == [] || s[0] != SLASH)
    ensures CutFront(lead + s) == s
    decreases |lead|
  {
    if lead == [] {
      assert lead + s == s;
    } else {
      assert (lead + s)[1..] == lead[1..] + s;
      CutFrontExactly(lead[1..], s);
    }
  }

  lemma {:induction false} CutBackExactly(s: seq<byte>, tail: seq<byte>)
    requires AllSlashes(tail) && (s == [] || s[|s| - 1] != SLASH)
    ensures CutBack(s + tail) == s
    decreases |tail|
  {
    if tail == [] {
      assert s + tail == s;
    } else {
      assert (s + tail)[..|s + tail| - 1] == s + tail[..|tail| - 1];
      CutBackExactly(s, tail[..|tail| - 1]);
    }
  }

  /** The first part from i on that is not empty. */
  method NextPart(value: Value, i: nat) returns (j: nat)
    requires i < VALUE_PARTS && (i == 1 ==> value.part0 == [])
    ensures i <= j <= VALUE_PARTS
    ensures if j == VALUE_PARTS then value.Bytes() == []
            else value.Get(j) != [] && (j == 1 ==> value.part0 == [])
  {
    j := i;
    while j < VALUE_PARTS && value.Get(j) == []
      invariant i <= j <= VALUE_PARTS && (j >= 1 ==> value.part0 == []) && (j == 2 ==> value.part1 == [])
    {
      j := j + 1;
    }
  }

  /** trim_leading_shash */
  method TrimLeadingSlash(resource: Value) returns (r: Value)
    ensures r.Bytes() == CutFront(resource.Bytes())
  {
    r := resource;
    var i := 0;
    while true
      invariant 0 <= i < VALUE_PARTS && (i == 1 ==> r.part0 == [])
      invariant CutFront(r.Bytes()) == CutFront(resource.Bytes())
      decreases |r.Bytes()|
    {
      while r.Get(i) == []
        invariant 0 <= i < VALUE_PARTS && (i == 1 ==> r.part0 == [])
        decreases VALUE_PARTS - i
      {
        i := i + 1;
        if i == VALUE_PARTS { return; }
      }
      var c := r.Get(i)[0];
      if c != SLASH { break; }
      ghost var before := r.Bytes();
      r := r.Set(i, r.Get(i)[1..]);
      assert r.Bytes() == before[1..];
    }
  }

  /** Takes the last byte off part i. */
  method PopLast(value: Value, i: nat) returns (rest: Value, c: byte)
    requires i < VALUE_PARTS && value.Get(i) != [] && (i == 0 ==> value.part1 == [])
    ensures value.Bytes() == rest.Bytes() + [c] && (i == 0 ==> rest.part1 == [])
  {
    c := value.Get(i)[|value.Get(i)| - 1];
    rest := value.Set(i, value.Get(i)[..|value.Get(i)| - 1]);
    assert value.Get(i) == rest.Get(i) + [c];
    assert value.Bytes() == rest.Bytes() + [c];
  }

  lemma CutSlash(s: seq<byte>)
    ensures CutBack(s + [SLASH]) == CutBack(s)
  {
    assert (s + [SLASH])[..|s|] == s;
  }

  lemma CutNothing(s: seq<byte>)
    requires s == [] || s[|s| - 1] != SLASH
    ensures CutBack(s) == s
  {
  }

  /** trim_trailing_shash */
  method TrimTrailingSlash(resource: Value) returns (r: Value)
    ensures r.Bytes() == CutBack(resource.Bytes())
  {
    hide CutBack;
    r := resource;
    var i := VALUE_PARTS - 1;
    while true
      invariant 0 <= i < VALUE_PARTS && (i == 0 ==> r.part1 == [])
      invariant CutBack(r.Bytes()) == CutBack(resource.Bytes())
      decreases |r.Bytes()|
    {
      while r.Get(i) == []
        invariant 0 <= i < VALUE_PARTS && (i == 0 ==> r.part1 == [])
        decreases i
      {
        if i == 0 { CutNothing(r.Bytes()); return; }
        i := i - 1;
      }
      var rest, c := PopLast(r, i);
      if c != SLASH { break; }
      CutSlash(rest.Bytes());
      r := rest;
    }
    CutNothing(r.Bytes());
  }

  // ---- The slash form: resource/en ----

  /** Where the last segment starts. */
  function LastSegment(s: seq<byte>): (k: nat)
    ensures k <= |s| && SLASH !in s[k..]
    ensures k > 0 ==> s[k - 1] == SLASH
  {
    if s == [] then 0
    else if s[|s| - 1] == SLASH then |s|
    else
      var k := LastSegment(s[..|s| - 1]);
      assert s[k..] == s[..|s| - 1][k..] + [s[|s| - 1]];
      k
  }

  predicate EndsInLanguage(s: seq<byte>) {
    LanguageGet(s[LastSegment(s)..]) != Unspecified
  }

  datatype Normal = Normal(resource: seq<byte>, language: Language)

  /** What processor_generic_normalize_slash makes of a resource. */
  function NormalizeSlash(s: seq<byte>): Normal {
    var t := CutBack(CutFront(s));
    if EndsInLanguage(t) then Normal(CutBack(t[..LastSegment(t)]), LanguageGet(t[LastSegment(t)..]))
    else Normal(t, Unspecified)
  }

  lemma SegmentIs(s: seq<byte>, k: nat)
    requires k <= |s| && SLASH !in s[k..] && (k > 0 ==> s[k - 1] == SLASH)
    ensures LastSegment(s) == k
  {
  }

  /** What the backward loop has collected is the last segment, if it ends before it has seen three bytes. */
  method CollectSegment(resource: Value) returns (local: Value, collected: seq<byte>, tooLong: bool)
    ensures var s, k := resource.Bytes(), LastSegment(resource.Bytes());
      if tooLong then |s| - k > MAX_LANGUAGE_SIZE
      else collected == s[k..] && CutBack(local.Bytes()) == CutBack(s[..k])
  {
    hide LastSegment, CutBack;
    ghost var s := resource.Bytes();
    var languageStr := new byte[MAX_LANGUAGE_SIZE];
    var languageSize := 0;
    local := resource;
    var i := VALUE_PARTS - 1;
    while true
      invariant 0 <= i < VALUE_PARTS && (i == 0 ==> local.part1 == [])
      invariant 0 <= languageSize <= MAX_LANGUAGE_SIZE
      invariant local.Bytes() + languageStr[MAX_LANGUAGE_SIZE - languageSize..] == s
      invariant SLASH !in languageStr[MAX_LANGUAGE_SIZE - languageSize..]
      decreases |local.Bytes()|
    {
      while local.Get(i) == []
        invariant 0 <= i < VALUE_PARTS && (i == 0 ==> local.part1 == [])
        decreases i
      {
        if i == 0 {
          collected := languageStr[MAX_LANGUAGE_SIZE - languageSize..];
          SegmentFound(s, local.Bytes(), collected);
          return local, collected, false;
        }
        i := i - 1;
      }
      var c;
      ghost var before := local.Bytes();
      local, c := PopLast(local, i);
      collected := languageStr[MAX_LANGUAGE_SIZE - languageSize..];
      assert s == local.Bytes() + ([c] + collected);
      if c == SLASH {
        SegmentFound(s, local.Bytes() + [SLASH], collected);
        CutSlash(local.Bytes());
        return local, collected, false;
      }
      if languageSize == MAX_LANGUAGE_SIZE {
        SegmentIsLong(s, local.Bytes(), [c] + collected);
        return local, [], true;
      }
      languageSize := languageSize + 1;
      languageStr[MAX_LANGUAGE_SIZE - languageSize] := c;
      assert languageStr[MAX_LANGUAGE_SIZE - languageSize..] == [c] + collected;
    }
  }

  lemma SegmentFound(s: seq<byte>, front: seq<byte>, segment: seq<byte>)
    requires s == front + segment && SLASH !in segment && (front != [] ==> front[|front| - 1] == SLASH)
    ensures s[LastSegment(s)..] == segment && s[..LastSegment(s)] == front
  {
    hide LastSegment;
    assert s[|front|..] == segment && s[..|front|] == front;
    SegmentIs(s, |front|);
  }

  lemma SegmentIsLong(s: seq<byte>, front: seq<byte>, segment: seq<byte>)
    requires s == front + segment && SLASH !in segment
    ensures |s| - LastSegment(s) >= |segment|
  {
    var k := LastSegment(s);
    assert forall j | |front| <= j < |s| :: s[j] == segment[j - |front|] && s[j] != SLASH;
  }

  /** processor_generic_normalize_slash, whatever the split into parts. */
  method DoNormalizeSlash(resource: Value) returns (r: Value, language: Language)
    ensures Normal(r.Bytes(), language) == NormalizeSlash(resource.Bytes())
  {
    r := TrimLeadingSlash(resource);
    r := TrimTrailingSlash(r);
    var local, collected, tooLong := CollectSegment(r);
    language := Unspecified;
    if tooLong { return; }
    language := LanguageGet(collected);
    if language == Unspecified { return; }
    r := TrimTrailingSlash(local);
  }

  lemma SlashesOnly(s: seq<byte>)
    requires AllSlashes(s)
    ensures CutFront(s) == []
  {
    CutFrontExactly(s, []);
    assert s + [] == s;
  }

  /** A link in the slash form, to resource r in that language; lead and tail are what else a protocol puts around
      it. */
  function SlashLink(lead: seq<byte>, r: seq<byte>, tail: seq<byte>, language: Language, requested: Language,
                     implicit: Language): seq<byte> {
    lead + (r + LanguageSlash(language, requested, implicit) + tail)
  }

  /** Following a link gives the resource and the language it was made for. */
  predicate Faithful(n: Normal, r: seq<byte>, language: Language, implicit: Language) {
    n.resource == r && Effective(n.language, implicit) == language
  }

  /** Links in the slash form lead where they should exactly when the resource has no slash at its ends and, if the
      link leaves its language out, the last segment does not read as a language. */
  lemma SlashLinkExactly(lead: seq<byte>, r: seq<byte>, tail: seq<byte>, language: Language, requested: Language,
                         implicit: Language)
    requires AllSlashes(lead) && AllSlashes(tail) && language != Unspecified
    ensures Faithful(NormalizeSlash(SlashLink(lead, r, tail, language, requested, implicit)), r, language, implicit)
      <==> Trimmed(r) && (Explicit(language, requested, implicit) || !EndsInLanguage(r))
  {
    hide CutFront, LastSegment, AllSlashes, LanguageGet;
    var link := SlashLink(lead, r, tail, language, requested, implicit);
    NormalIsTrimmed(link);
    if Trimmed(r) {
      if Explicit(language, requested, implicit) { NamedSlashLink(lead, r, tail, language); }
      else { BareLink(lead, r, tail); if EndsInLanguage(r) { ShorterSegment(r); } }
    }
  }

  lemma NormalIsTrimmed(s: seq<byte>)
    ensures Trimmed(NormalizeSlash(s).resource)
  {
    hide LastSegment, LanguageGet;
    var t := CutBack(CutFront(s));
    assert Trimmed(t);
  }

  lemma ShorterSegment(r: seq<byte>)
    requires EndsInLanguage(r)
    ensures CutBack(r[..LastSegment(r)]) != r
  {
  }

  lemma NamedSlashLink(lead: seq<byte>, r: seq<byte>, tail: seq<byte>, language: Language)
    requires AllSlashes(lead) && AllSlashes(tail) && language != Unspecified && Trimmed(r)
    ensures NormalizeSlash(lead + (r + ([SLASH] + Code(language)) + tail)) == Normal(r, language)
  {
    hide CutFront, CutBack, LastSegment, AllSlashes, Code;
    var code := Code(language);
    CodeIs(language);
    if r == [] {
      assert lead + (r + ([SLASH] + code) + tail) == (lead + [SLASH]) + (code + tail);
      assert AllSlashes(lead + [SLASH]) by { OneMoreSlash(lead); }
      CutFrontExactly(lead + [SLASH], code + tail);
      CutBackExactly(code, tail);
      SegmentFound(code, [], code);
      CutBackExactly([], []);
    } else {
      var named := r + ([SLASH] + code);
      CutFrontExactly(lead, named + tail);
      CutBackExactly(named, tail);
      assert named == (r + [SLASH]) + code;
      SegmentFound(named, r + [SLASH], code);
      assert AllSlashes([SLASH]) by { OneMoreSlash([]); }
      CutBackExactly(r, [SLASH]);
    }
  }

  lemma OneMoreSlash(s: seq<byte>)
    ensures AllSlashes([])
    ensures AllSlashes(s) ==> AllSlashes(s + [SLASH])
    ensures AllSlashes([SLASH])
  {
  }

  lemma CodeIs(language: Language)
    requires language != Unspecified
    ensures var code := Code(language);
      |code| == 2 && code[0] != SLASH && code[1] != SLASH && SLASH !in code && QUESTION !in code
        && LanguageGet(code) == language
  {
  }

  /** A link without a language is the resource. */
  lemma BareLink(lead: seq<byte>, r: seq<byte>, tail: seq<byte>)
    requires AllSlashes(lead) && AllSlashes(tail) && Trimmed(r)
    ensures CutBack(CutFront(lead + (r + [] + tail))) == r
  {
    assert r + [] + tail == r + tail;
    if r == [] {
      assert lead + (r + [] + tail) == lead + tail;
      SlashesOnly(lead + tail);
    } else {
      CutFrontExactly(lead, r + tail);
      CutBackExactly(r, tail);
    }
  }

  // ---- The question form: resource?lang=en ----

  /** Where the resource ends: at the first ? or #. */
  function QueryAt(s: seq<byte>): (k: nat)
    ensures k <= |s| && QUESTION !in s[..k] && HASH !in s[..k]
    ensures k < |s| ==> s[k] == QUESTION || s[k] == HASH
  {
    if s == [] || s[0] == QUESTION || s[0] == HASH then 0
    else
      var k := 1 + QueryAt(s[1..]);
      assert s[..k] == [s[0]] + s[1..][..k - 1];
      k
  }

  /** What follows the last question mark. */
  function LastQuery(s: seq<byte>): (k: nat)
    ensures k <= |s|
  {
    if s == [] then 0 else if s[|s| - 1] == QUESTION then |s| else LastQuery(s[..|s| - 1])
  }

  /** The language that a query names: only its last question counts, and what follows the two letters does not. */
  function QueryLanguage(query: seq<byte>): Language {
    if LANG + EN <= query then English else if LANG + DE <= query then German else Unspecified
  }

  /** What processor_generic_normalize_question makes of a resource. */
  function NormalizeQuestion(s: seq<byte>): Normal {
    var t := CutFront(s);
    var k := QueryAt(t);
    Normal(CutBack(t[..k]), if k < |t| && t[k] == QUESTION then QueryLanguage(t[LastQuery(t)..]) else Unspecified)
  }

  /** Takes the first byte off part i. */
  method PopFirst(value: Value, i: nat) returns (rest: Value, c: byte)
    requires i < VALUE_PARTS && value.Get(i) != [] && (i == 1 ==> value.part0 == [])
    ensures value.Bytes() == [c] + rest.Bytes() && (i == 1 ==> rest.part0 == [])
  {
    ghost var s := value.Bytes();
    c := value.Get(i)[0];
    rest := value.Set(i, value.Get(i)[1..]);
    assert rest.Bytes() == s[1..];
    assert s == [s[0]] + s[1..];
  }

  lemma QueryFurther(seen: seq<byte>, c: byte, rest: seq<byte>)
    requires QueryAt(seen + ([c] + rest)) == |seen| + QueryAt([c] + rest)
    ensures c == QUESTION || c == HASH ==> QueryAt([c] + rest) == 0
    ensures c != QUESTION && c != HASH ==> QueryAt(seen + [c] + rest) == |seen| + 1 + QueryAt(rest)
  {
    assert ([c] + rest)[1..] == rest;
    assert seen + ([c] + rest) == seen + [c] + rest;
  }

  /** The search for ? or #. */
  method FindQuery(resource: Value) returns (local: Value, c: byte)
    ensures var s, k := resource.Bytes(), QueryAt(resource.Bytes());
      local.Bytes() == s[k..] && (k < |s| ==> c == s[k])
  {
    hide QueryAt, Value.Get, Value.Bytes;
    ghost var s, seen := resource.Bytes(), [];
    local := resource;
    c := 0;
    var i := 0;
    assert seen + s == s;
    while true
      invariant 0 <= i < VALUE_PARTS && (i == 1 ==> local.part0 == [])
      invariant s == seen + local.Bytes() && QueryAt(s) == |seen| + QueryAt(local.Bytes())
      decreases |local.Bytes()|
    {
      i := NextPart(local, i);
      if i == VALUE_PARTS { return; }
      var rest;
      rest, c := PopFirst(local, i);
      QueryFurther(seen, c, rest.Bytes());
      if c == HASH || c == QUESTION { return; }
      local := rest;
      seen := seen + [c];
    }
  }

  /** How far the language machine has come in the query u behind the last question mark. */
  ghost predicate Matches(u: seq<byte>, size: nat, letters: seq<byte>) {
    && size <= 6 + MAX_LANGUAGE_SIZE && |letters| == MAX_LANGUAGE_SIZE
    && if size == 0 then Dead(u)
       else if size <= 6 then u == LANG[..size - 1]
       else if size < 8 then u == LANG + letters[..size - 6]
       else LANG + letters <= u
  }

  /** No continuation of u names a language. */
  predicate Dead(u: seq<byte>) {
    && !(u <= LANG + EN) && !(LANG + EN <= u)
    && !(u <= LANG + DE) && !(LANG + DE <= u)
  }

  lemma DeadStays(u: seq<byte>, c: byte)
    ensures Dead(u) ==> Dead(u + [c])
  {
    if !Dead(u + [c]) {
      assert u + [c] <= LANG + EN ==> u <= LANG + EN;
      assert u + [c] <= LANG + DE ==> u <= LANG + DE;
      assert (u + [c])[..|u|] == u;
    }
  }

  lemma MatchKeyword(u: seq<byte>, size: nat, letters: seq<byte>, c: byte)
    requires Matches(u, size, letters) && size < 6
    ensures Matches(u + [c], if size > 0 && c == LANG[size - 1] then size + 1 else 0, letters)
  {
    if size == 0 { DeadStays(u, c); }
    else if c == LANG[size - 1] { assert LANG[..size] == LANG[..size - 1] + [c]; }
    else {
      assert (LANG + EN)[size - 1] == LANG[size - 1] && (LANG + DE)[size - 1] == LANG[size - 1];
      assert (u + [c])[size - 1] == c;
    }
  }

  lemma MatchLetter(u: seq<byte>, size: nat, letters: seq<byte>, c: byte)
    requires Matches(u, size, letters) && 6 <= size < 8
    ensures 97 <= c <= 122 ==> Matches(u + [c], size + 1, letters[size - 6 := c])
    ensures !(97 <= c <= 122) ==> Matches(u + [c], 0, letters)
  {
    var n := size - 6;
    if 97 <= c <= 122 {
      assert letters[n := c][..n + 1] == letters[..n] + [c];
      if n == 0 { assert u + [c] == LANG + letters[n := c][..1]; }
      else { assert u + [c] == LANG + letters[n := c]; }
    } else {
      assert |u| == 5 + n && (u + [c])[5 + n] == c;
      assert (LANG + EN)[5 + n] != c && (LANG + DE)[5 + n] != c;
    }
  }

  /** At the end of the query the machine knows its language. */
  lemma MatchEnds(u: seq<byte>, size: nat, letters: seq<byte>)
    requires Matches(u, size, letters)
    ensures size < 6 ==> QueryLanguage(u) == Unspecified
    ensures size >= 6 ==> QueryLanguage(u) == LanguageGet(letters[..size - 6])
  {
    if size == 8 {
      assert letters[..2] == letters;
      assert u[5..7] == letters;
      assert LANG + EN <= u ==> letters == EN;
      assert LANG + DE <= u ==> letters == DE;
    }
  }

  /** Two letters are needed for a language. */
  lemma ShortIsNone(s: seq<byte>)
    requires |s| < MAX_LANGUAGE_SIZE
    ensures LanguageGet(s) == Unspecified
  {
  }

  lemma QueryGrows(t: seq<byte>, c: byte)
    ensures c == QUESTION ==> (t + [c])[LastQuery(t + [c])..] == []
    ensures c != QUESTION ==> (t + [c])[LastQuery(t + [c])..] == t[LastQuery(t)..] + [c]
  {
    assert (t + [c])[..|t|] == t;
  }

  /** The second loop: a byte machine that looks for "?lang=" and two letters. */
  method ParseQuery(query: Value) returns (language: Language)
    requires query.Bytes() != [] && query.Bytes()[0] == QUESTION
    ensures language == QueryLanguage(query.Bytes()[LastQuery(query.Bytes())..])
  {
    hide LastQuery, QueryLanguage, Matches;
    ghost var s, t := query.Bytes(), [];
    var languageStr := new byte[MAX_LANGUAGE_SIZE];
    var languageSize := 0;
    var local := query;
    language := Unspecified;
    var i := 0;
    while true
      invariant 0 <= i < VALUE_PARTS && (i == 1 ==> local.part0 == [])
      invariant t + local.Bytes() == s && language == Unspecified
      invariant if t == [] then languageSize == 0 else Matches(t[LastQuery(t)..], languageSize, languageStr[..])
      invariant languageSize <= 8
      decreases |local.Bytes()|
    {
      while local.Get(i) == []
        invariant 0 <= i < VALUE_PARTS && (i == 1 ==> local.part0 == [])
        decreases VALUE_PARTS - i
      {
        i := i + 1;
        if i == VALUE_PARTS {
          assert t == s;
          MatchEnds(t[LastQuery(t)..], languageSize, languageStr[..]);
          if languageSize >= 6 { language := LanguageGet(languageStr[..languageSize - 6]); }
          return;
        }
      }
      var c := local.Get(i)[0];
      ghost var rest := local.Bytes();
      assert c == rest[0] && s == t + [c] + rest[1..];
      ghost var u := t[LastQuery(t)..];
      QueryGrows(t, c);
      if c == QUESTION {
        languageSize := 1;
        MatchBegins(languageStr[..]);
      } else if languageSize < 6 {
        MatchKeyword(u, languageSize, languageStr[..], c);
        if languageSize > 0 && c == LANG[languageSize - 1] { languageSize := languageSize + 1; }
        else { languageSize := 0; }
      } else if languageSize < 8 {
        MatchLetter(u, languageSize, languageStr[..], c);
        if 97 <= c <= 122 {
          ghost var letters := languageStr[..];
          languageStr[languageSize - 6] := c;
          assert languageStr[..] == letters[languageSize - 6 := c];
          languageSize := languageSize + 1;
        } else {
          language := LanguageGet(languageStr[..languageSize - 6]); // fewer than two letters: never a language
          ShortIsNone(languageStr[..languageSize - 6]);
          languageSize := 0;
        }
      } else {
        MatchStays(u, languageStr[..], c);
      }
      t := t + [c];
      local := local.Set(i, local.Get(i)[1..]);
      assert local.Bytes() == rest[1..];
    }
  }

  lemma MatchBegins(letters: seq<byte>)
    requires |letters| == MAX_LANGUAGE_SIZE
    ensures Matches([], 1, letters)
  {
  }

  lemma MatchStays(u: seq<byte>, letters: seq<byte>, c: byte)
    ensures Matches(u, 8, letters) ==> Matches(u + [c], 8, letters)
  {
  }

  /** processor_generic_normalize_question, whatever the split into parts. */
  method DoNormalizeQuestion(resource: Value) returns (r: Value, language: Language)
    ensures Normal(r.Bytes(), language) == NormalizeQuestion(resource.Bytes())
  {
    hide CutFront, CutBack, QueryAt, LastQuery, QueryLanguage;
    language := Unspecified;
    r := TrimLeadingSlash(resource);
    ghost var t := r.Bytes();
    var local, c := FindQuery(r);
    var all := Size(r);
    var left := Size(local);
    assert |local.Bytes()| == |t| - QueryAt(t);
    if left == 0 {
      assert t[..|t|] == t;
      r := TrimTrailingSlash(r);
      return;
    }
    r := First(r, all - left);
    r := TrimTrailingSlash(r);
    if c == HASH { return; }
    assert local.Bytes()[0] == t[QueryAt(t)] == QUESTION;
    LastQueryBehind(t, QueryAt(t));
    language := ParseQuery(local);
  }

  lemma {:induction false} LastQueryBehind(t: seq<byte>, k: nat)
    requires k < |t| && t[k] == QUESTION
    ensures k < LastQuery(t) && t[LastQuery(t)..] == t[k..][LastQuery(t[k..])..]
    decreases |t|
  {
    var n := |t| - 1;
    assert t[k..][n - k] == t[n];
    if t[n] != QUESTION {
      assert t[k..][..n - k] == t[..n][k..];
      LastQueryBehind(t[..n], k);
    }
  }

  /** A link in the question form. */
  function QuestionLink(lead: seq<byte>, r: seq<byte>, tail: seq<byte>, language: Language, requested: Language,
                        implicit: Language): seq<byte> {
    lead + (r + LanguageQuestion(language, requested, implicit) + tail)
  }

  /** A resource that no query can be mistaken for a part of. */
  predicate Plain(r: seq<byte>) {
    Trimmed(r) && 63 !in r && 35 !in r
  }

  lemma QueryIs(s: seq<byte>, k: nat)
    requires k <= |s| && QUESTION !in s[..k] && HASH !in s[..k]
    requires k < |s| ==> s[k] == QUESTION || s[k] == HASH
    ensures QueryAt(s) == k
  {
    var q := QueryAt(s);
    assert forall i | 0 <= i < k :: s[i] == s[..k][i];
    assert forall i | 0 <= i < q :: s[i] == s[..q][i];
  }

  lemma NormalIsPlain(s: seq<byte>)
    ensures Plain(NormalizeQuestion(s).resource)
  {
    var t := CutFront(s);
    var front := t[..QueryAt(t)];
    var r := CutBack(front);
    assert forall c | c in r :: c in front;
    assert r != [] ==> r[0] == front[0] == t[0];
  }

  /** Links in the question form lead where they should exactly when the resource has no slash at its ends and neither
      a question mark nor a hash sign. */
  lemma QuestionLinkExactly(lead: seq<byte>, r: seq<byte>, tail: seq<byte>, language: Language, requested: Language,
                            implicit: Language)
    requires AllSlashes(lead) && AllSlashes(tail) && language != Unspecified
    ensures Faithful(NormalizeQuestion(QuestionLink(lead, r, tail, language, requested, implicit)), r, language,
      implicit)
      <==> Plain(r)
  {
    var link := QuestionLink(lead, r, tail, language, requested, implicit);
    NormalIsPlain(link);
    if Plain(r) {
      if Explicit(language, requested, implicit) { NamedQuestionLink(lead, r, tail, language); }
      else { BareQuestionLink(lead, r, tail); }
    }
  }

  lemma NamedQuestionLink(lead: seq<byte>, r: seq<byte>, tail: seq<byte>, language: Language)
    requires AllSlashes(lead) && AllSlashes(tail) && language != Unspecified && Plain(r)
    ensures NormalizeQuestion(lead + (r + ([QUESTION] + LANG + Code(language)) + tail)) == Normal(r, language)
  {
    hide CutFront, CutBack, LastQuery, QueryAt, AllSlashes, Code;
    var code := Code(language);
    CodeIs(language);
    var t := r + ([QUESTION] + LANG + code) + tail;
    CutFrontExactly(lead, t);
    assert t[..|r|] == r && t[|r|] == QUESTION;
    QueryIs(t, |r|);
    CutBackExactly(r, []);
    assert r + [] == r;
    NamedQuery(r, tail, language);
  }

  lemma NamedQuery(r: seq<byte>, tail: seq<byte>, language: Language)
    requires AllSlashes(tail) && language != Unspecified
    ensures var t := r + ([QUESTION] + LANG + Code(language)) + tail;
      QueryLanguage(t[LastQuery(t)..]) == language
  {
    hide LastQuery;
    var u := LANG + Code(language) + tail;
    var t := r + ([QUESTION] + LANG + Code(language)) + tail;
    assert t == (r + [QUESTION]) + u;
    CodeIs(language);
    assert QUESTION !in u;
    LastQueryIs(r, u);
    assert u[..7] == LANG + Code(language);
    assert u[5..7] == Code(language);
  }

  lemma {:induction false} LastQueryIs(r: seq<byte>, u: seq<byte>)
    requires QUESTION !in u
    ensures var t := r + [QUESTION] + u; t[LastQuery(t)..] == u
    decreases |u|
  {
    var t := r + [QUESTION] + u;
    if u != [] {
      var n := |u| - 1;
      assert t[..|t| - 1] == r + [QUESTION] + u[..n];
      assert t[|t| - 1] == u[n];
      LastQueryIs(r, u[..n]);
      assert u == u[..n] + [u[n]];
    }
  }

  lemma BareQuestionLink(lead: seq<byte>, r: seq<byte>, tail: seq<byte>)
    requires AllSlashes(lead) && AllSlashes(tail) && Plain(r)
    ensures NormalizeQuestion(lead + (r + [] + tail)) == Normal(r, Unspecified)
  {
    hide CutBack, QueryAt;
    assert r + [] + tail == r + tail;
    BareLink(lead, r, tail);
    if r == [] {
      assert lead + (r + [] + tail) == lead + tail;
      SlashesOnly(lead + tail);
      QueryIs([], 0);
    } else {
      CutFrontExactly(lead, r + tail);
      QueryIs(r + tail, |r + tail|);
      assert (r + tail)[..|r + tail|] == r + tail;
    }
  }

  // ---- Browsing ----

  /** Clicks through the resources of a path, starting on a page with that requested language. */
  function Browse(requested: Language, implicit: Language, path: seq<seq<byte>>): Language
    decreases |path|
  {
    if path == [] then requested
    else
      var link := QuestionLink([SLASH], path[0], [], Effective(requested, implicit), requested, implicit);
      Browse(NormalizeQuestion(link).language, implicit, path[1..])
  }

  /** Every internal link keeps the language of the page it is on, so browsing never changes the language. */
  lemma {:induction false} BrowsingKeepsLanguage(requested: Language, implicit: Language, path: seq<seq<byte>>)
    requires forall i | 0 <= i < |path| :: Plain(path[i])
    ensures Effective(Browse(requested, implicit, path), implicit) == Effective(requested, implicit)
    decreases |path|
  {
    hide NormalizeQuestion, Plain;
    if path != [] {
      assert AllSlashes([SLASH]) by { OneMoreSlash([]); }
      QuestionLinkExactly([SLASH], path[0], [], Effective(requested, implicit), requested, implicit);
      var link := QuestionLink([SLASH], path[0], [], Effective(requested, implicit), requested, implicit);
      BrowsingKeepsLanguage(NormalizeQuestion(link).language, implicit, path[1..]);
    }
  }

  /** The same for the protocols with links in the slash form. */
  function BrowseSlash(requested: Language, implicit: Language, path: seq<seq<byte>>): Language
    decreases |path|
  {
    if path == [] then requested
    else
      var link := SlashLink([SLASH], path[0], [], Effective(requested, implicit), requested, implicit);
      BrowseSlash(NormalizeSlash(link).language, implicit, path[1..])
  }

  lemma {:induction false} BrowsingSlashKeepsLanguage(requested: Language, implicit: Language, path: seq<seq<byte>>)
    requires forall i | 0 <= i < |path| :: Trimmed(path[i]) && !EndsInLanguage(path[i])
    ensures Effective(BrowseSlash(requested, implicit, path), implicit) == Effective(requested, implicit)
    decreases |path|
  {
    hide NormalizeSlash, Trimmed, EndsInLanguage;
    if path != [] {
      assert AllSlashes([SLASH]) by { OneMoreSlash([]); }
      SlashLinkExactly([SLASH], path[0], [], Effective(requested, implicit), requested, implicit);
      var link := SlashLink([SLASH], path[0], [], Effective(requested, implicit), requested, implicit);
      BrowsingSlashKeepsLanguage(NormalizeSlash(link).language, implicit, path[1..]);
    }
  }
}
