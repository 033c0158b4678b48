/**
  A table-driven string rewriter.  An escaper holds mappings (source,
  dest); applying a list of mappings scans the input left to right and, at
  each position, emits the dest of the first mapping whose source matches
  there and skips the whole source, or copies the character unchanged.
  Escaping applies the forward mappings; unescaping applies the flipped
  "normal" mappings and then the flipped "special" ones (the escapes of
  the escape symbols themselves).
*/
module Escaping {
  import opened Options

  datatype Mapping = Mapping(source: string, dest: string)

  datatype Escaper = Escaper(forward: seq<Mapping>, specialBack: seq<Mapping>, normalBack: seq<Mapping>)

  /** The constructor fails with NegativeArraySizeException when the split index is out of range. */
  datatype Built = Built(escaper: Escaper) | NegativeArraySize

  function Flip(m: Mapping): Mapping
  {
    Mapping(m.dest, m.source)
  }

  /**
    The escaper's constructor: every pair goes forward into `forward`; the
    first `normalSetIndex` pairs go flipped into `specialBack` and the rest
    flipped into `normalBack`, all in order.
  */
  method NewEscaper(mappings: seq<(string, string)>, normalSetIndex: int) returns (r: Built)
    ensures r.Built? <==> 0 <= normalSetIndex <= |mappings|
    ensures r.Built? ==>
      && |r.escaper.forward| == |mappings|
      && |r.escaper.specialBack| == normalSetIndex
      && |r.escaper.normalBack| == |mappings| - normalSetIndex
    ensures r.Built? ==> forall i :: 0 <= i < |mappings| ==>
      r.escaper.forward[i] == Mapping(mappings[i].0, mappings[i].1)
    ensures r.Built? ==> forall i :: 0 <= i < normalSetIndex ==>
      r.escaper.specialBack[i] == Flip(r.escaper.forward[i])
    ensures r.Built? ==> forall i :: normalSetIndex <= i < |mappings| ==>
      r.escaper.normalBack[i - normalSetIndex] == Flip(r.escaper.forward[i])
  {
    if normalSetIndex < 0 || |mappings| - normalSetIndex < 0 {
      return NegativeArraySize;
    }
    var forward: seq<Mapping> := [];
    var special: seq<Mapping> := [];
    var normal: seq<Mapping> := [];
    for i := 0 to |mappings|
      invariant |forward| == i
      invariant |special| == if i < normalSetIndex then i else normalSetIndex
      invariant |normal| == if i < normalSetIndex then 0 else i - normalSetIndex
      invariant forall k :: 0 <= k < i ==> forward[k] == Mapping(mappings[k].0, mappings[k].1)
      invariant forall k :: 0 <= k < |special| ==> special[k] == Flip(forward[k])
      invariant forall k :: normalSetIndex <= k < i ==> normal[k - normalSetIndex] == Flip(forward[k])
    {
      var m := Mapping(mappings[i].0, mappings[i].1);
      if i < normalSetIndex {
        special := special + [Flip(m)];
      } else {
        normal := normal + [Flip(m)];
      }
      forward := forward + [m];
    }
    r := Built(Escaper(forward, special, normal));
  }

  /**
    `src` matches at the front of `s`: the characters both have agree.  A
    source that runs past the end of `s` matches when the characters that
    are there agree.
  */
  predicate MatchesAt(s: string, src: string)
  {
    |src| == 0 || |s| == 0 || (s[0] == src[0] && MatchesAt(s[1..], src[1..]))
  }

  /** MatchesAt compares position by position up to the shorter length. */
  lemma {:induction false} MatchesAtIndexwise(s: string, src: string)
    ensures MatchesAt(s, src) <==> forall k :: 0 <= k < |src| && k < |s| ==> s[k] == src[k]
  {
    if |src| != 0 && |s| != 0 {
      MatchesAtIndexwise(s[1..], src[1..]);
      if s[0] == src[0] && MatchesAt(s[1..], src[1..]) {
        forall k | 0 < k < |src| && k < |s|
          ensures s[k] == src[k]
        {
          assert s[1..][k - 1] == src[1..][k - 1];
        }
      }
      if forall k :: 0 <= k < |src| && k < |s| ==> s[k] == src[k] {
        forall k | 0 <= k < |src| - 1 && k < |s| - 1
          ensures s[1..][k] == src[1..][k]
        {
          assert s[k + 1] == src[k + 1];
        }
      }
    }
  }

  /** A match decided within `code` is kept when more characters follow. */
  lemma {:induction false} MatchExtends(code: string, rest: string, src: string)
    requires MatchesAt(code, src) && |src| <= |code|
    ensures MatchesAt(code + rest, src)
  {
    if |src| != 0 {
      assert (code + rest)[1..] == code[1..] + rest;
      MatchExtends(code[1..], rest, src[1..]);
    }
  }

  /** A mismatch within `code` stays a mismatch when more characters follow. */
  lemma {:induction false} MismatchExtends(code: string, rest: string, src: string)
    requires !MatchesAt(code, src)
    ensures !MatchesAt(code + rest, src)
  {
    assert |src| != 0 && |code| != 0;
    assert (code + rest)[1..] == code[1..] + rest;
    if code[0] == src[0] {
      MismatchExtends(code[1..], rest, src[1..]);
    }
  }

  /** The index of the first mapping, in order, whose source matches at the front of `s`. */
  function FirstMatch(ms: seq<Mapping>, s: string): (r: Option<nat>)
    ensures r.Some? ==> r.value < |ms| && MatchesAt(s, ms[r.value].source)
    ensures r.Some? ==> forall j :: 0 <= j < r.value ==> !MatchesAt(s, ms[j].source)
    ensures r.None? ==> forall j :: 0 <= j < |ms| ==> !MatchesAt(s, ms[j].source)
  {
    FirstMatchFrom(ms, s, 0)
  }

  /** The first mapping from index `i` on whose source matches at the front of `s`. */
  function FirstMatchFrom(ms: seq<Mapping>, s: string, i: nat): (r: Option<nat>)
    ensures r.Some? ==> i <= r.value < |ms| && MatchesAt(s, ms[r.value].source)
    ensures r.Some? ==> forall j :: i <= j < r.value ==> !MatchesAt(s, ms[j].source)
    ensures r.None? ==> forall j :: i <= j < |ms| ==> !MatchesAt(s, ms[j].source)
    decreases |ms| - i
  {
    if i >= |ms| then None
    else if MatchesAt(s, ms[i].source) then Some(i)
    else FirstMatchFrom(ms, s, i + 1)
  }

  /** The first match is `j` when `ms[j]` matches and no earlier mapping does. */
  lemma FirstMatchIs(ms: seq<Mapping>, s: string, j: nat)
    requires j < |ms| && MatchesAt(s, ms[j].source)
    requires forall i :: 0 <= i < j ==> !MatchesAt(s, ms[i].source)
    ensures FirstMatch(ms, s) == Some(j)
  {
  }

  ghost predicate SourcesNonEmpty(ms: seq<Mapping>)
  {
    forall j :: 0 <= j < |ms| ==> |ms[j].source| > 0
  }

  /**
    How far the scan moves after the position at the front of `s`: past
    the whole matched source (but not past the end), or one character.
  */
  function Advance(ms: seq<Mapping>, s: string): (n: nat)
    ensures SourcesNonEmpty(ms) && |s| > 0 ==> 1 <= n <= |s|
    ensures |s| > 0 && FirstMatch(ms, s).None? ==> n == 1
  {
    match FirstMatch(ms, s)
    case Some(j) => if |ms[j].source| < |s| then |ms[j].source| else |s|
    case None => 1
  }

  /**
    An empty source matches everywhere, so once it is the first match the
    scan does not move: the source's loop would never end.  This is why
    Apply asks for non-empty sources.
  */
  lemma EmptySourceStalls(ms: seq<Mapping>, s: string, j: nat)
    requires j < |ms| && ms[j].source == []
    requires forall i :: 0 <= i < j ==> !MatchesAt(s, ms[i].source)
    ensures FirstMatch(ms, s) == Some(j) && Advance(ms, s) == 0
  {
    FirstMatchIs(ms, s, j);
  }

  /** `c` occurs in the dest of one of the mappings. */
  ghost predicate InSomeDest(ms: seq<Mapping>, c: char)
  {
    exists j :: 0 <= j < |ms| && c in ms[j].dest
  }

  /** What the scan writes for the position at the front of `s`. */
  function Emitted(ms: seq<Mapping>, s: string): string
    requires |s| > 0
  {
    match FirstMatch(ms, s)
    case Some(j) => ms[j].dest
    case None => [s[0]]
  }

  /** The result of applying the mappings `ms` to `s`. */
  function Apply(ms: seq<Mapping>, s: string): string
    requires SourcesNonEmpty(ms)
    decreases |s|
  {
    if |s| == 0 then [] else Emitted(ms, s) + Apply(ms, s[Advance(ms, s)..])
  }

  /** The rewriter invents no characters: each one comes from the input or from a dest. */
  lemma {:induction false} ApplyInventsNothing(ms: seq<Mapping>, s: string)
    requires SourcesNonEmpty(ms)
    ensures forall c :: c in Apply(ms, s) ==> c in s || InSomeDest(ms, c)
    decreases |s|
  {
    if |s| > 0 {
      var k := Advance(ms, s);
      ApplyInventsNothing(ms, s[k..]);
      assert forall c :: c in s[k..] ==> c in s;
      match FirstMatch(ms, s)
      case Some(j) =>
        assert forall c :: c in Emitted(ms, s) ==> c in ms[j].dest;
      case None =>
        assert Emitted(ms, s) == [s[0]];
    }
  }

  /**
    applyMappings: a scan over the input that, at each position, searches
    for the first matching mapping.  A null input gives the empty string.
  */
  method ApplyMappings(ms: seq<Mapping>, input: Option<string>) returns (out: string)
    requires SourcesNonEmpty(ms)
    ensures input.None? ==> out == []
    ensures input.Some? ==> out == Apply(ms, input.value)
  {
    out := [];
    if input.None? || |input.value| == 0 {
      return;
    }
    var chars := input.value;
    var i := 0;
    while i < |chars|
      invariant 0 <= i <= |chars|
      invariant out + Apply(ms, chars[i..]) == Apply(ms, chars)
      decreases |chars| - i
    {
      var emit, n := ScanStep(ms, chars[i..]);
      ScanStepKeeps(ms, chars, i, out, emit, n);
      out := out + emit;
      i := i + n;
    }
  }

  /** One step of the scan keeps the output-so-far + rest-of-the-output invariant. */
  lemma ScanStepKeeps(ms: seq<Mapping>, chars: string, i: nat, out: string, emit: string, n: nat)
    requires SourcesNonEmpty(ms) && i < |chars|
    requires out + Apply(ms, chars[i..]) == Apply(ms, chars)
    requires emit == Emitted(ms, chars[i..]) && n == Advance(ms, chars[i..])
    ensures i + n <= |chars|
    ensures (out + emit) + Apply(ms, chars[i + n..]) == Apply(ms, chars)
  {
    var rest := chars[i..];
    ApplyUnfold(ms, rest);
    assert rest[n..] == chars[i + n..];
    StringRegroup(out, emit, Apply(ms, chars[i + n..]));
  }

  /**
    Regrouping a concatenation of three strings. Proved apart: next to the
    unfoldings of Apply, the solver's budget goes on this step.
  */
  lemma StringRegroup(a: string, b: string, c: string)
    ensures (a + b) + c == a + (b + c)
  {
  }

  /**
    One position of applyMappings' scan: the first matching mapping's dest
    and the length of its source (the scan index may overshoot the end,
    which ends the scan), or the character itself and 1.
  */
  method ScanStep(ms: seq<Mapping>, rest: string) returns (emit: string, n: nat)
    requires |rest| > 0
    ensures emit == Emitted(ms, rest) && n == Advance(ms, rest)
  {
    var found := FindMapping(ms, rest);
    if found.Some? {
      emit, n := ms[found.value].dest, |ms[found.value].source|;
    } else {
      emit, n := [rest[0]], 1;
    }
    if n > |rest| {
      n := |rest|;
    }
  }

  /** One step of Apply: what the front position emits, then the rest of the scan. */
  lemma ApplyUnfold(ms: seq<Mapping>, s: string)
    requires SourcesNonEmpty(ms) && |s| > 0
    ensures Apply(ms, s) == Emitted(ms, s) + Apply(ms, s[Advance(ms, s)..])
  {
  }

  /** The mapping search of applyMappings: the first mapping whose source matches. */
  method FindMapping(ms: seq<Mapping>, rest: string) returns (found: Option<nat>)
    ensures found == FirstMatch(ms, rest)
  {
    var mi := 0;
    while mi < |ms|
      invariant 0 <= mi <= |ms|
      invariant forall j :: 0 <= j < mi ==> !MatchesAt(rest, ms[j].source)
    {
      var matches := SourceMatches(rest, ms[mi].source);
      if matches {
        FirstMatchIs(ms, rest, mi);
        return Some(mi);
      }
      mi := mi + 1;
    }
    found := None;
  }

  /** The character comparison of applyMappings, stopping at the end of either string. */
  method SourceMatches(rest: string, src: string) returns (matches: bool)
    ensures matches == MatchesAt(rest, src)
  {
    MatchesAtIndexwise(rest, src);
    var si := 0;
    while si < |src| && si < |rest|
      invariant 0 <= si <= |src| && si <= |rest|
      invariant forall k :: 0 <= k < si ==> rest[k] == src[k]
    {
      if rest[si] != src[si] {
        return false;
      }
      si := si + 1;
    }
    matches := true;
  }

  /** escape: the forward mappings. */
  function Escape(e: Escaper, s: string): (r: string)
    requires SourcesNonEmpty(e.forward)
    ensures forall c :: c in r ==> c in s || InSomeDest(e.forward, c)
  {
    ApplyInventsNothing(e.forward, s);
    Apply(e.forward, s)
  }

  /** unescape: the normal back mappings first, then the special ones. */
  function Unescape(e: Escaper, s: string): (r: string)
    requires SourcesNonEmpty(e.normalBack) && SourcesNonEmpty(e.specialBack)
    ensures forall c :: c in r ==> c in s || InSomeDest(e.normalBack, c) || InSomeDest(e.specialBack, c)
  {
    ApplyInventsNothing(e.normalBack, s);
    ApplyInventsNothing(e.specialBack, Apply(e.normalBack, s));
    Apply(e.specialBack, Apply(e.normalBack, s))
  }

  // ----- Generic facts about Apply -----

  /** Every source is a single character. */
  ghost predicate SingleCharSources(ms: seq<Mapping>)
  {
    forall j :: 0 <= j < |ms| ==> |ms[j].source| == 1
  }

  /** What a table of one-character sources writes for `c`: the first matching dest, or `c` itself. */
  function CharCode(ms: seq<Mapping>, c: char): string
  {
    CharCodeFrom(ms, c, 0)
  }

  /** CharCode searching the table from index `i` on. */
  function CharCodeFrom(ms: seq<Mapping>, c: char, i: nat): string
    decreases |ms| - i
  {
    if i >= |ms| then [c]
    else if |ms[i].source| > 0 && ms[i].source[0] == c then ms[i].dest
    else CharCodeFrom(ms, c, i + 1)
  }

  /** CharCode of every character of `s`, concatenated. */
  function CharCodes(ms: seq<Mapping>, s: string): string
  {
    if |s| == 0 then [] else CharCode(ms, s[0]) + CharCodes(ms, s[1..])
  }

  lemma SingleCharMatch(s: string, src: string)
    requires |s| > 0 && |src| == 1
    ensures MatchesAt(s, src) <==> s[0] == src[0]
  {
  }

  /** With one-character sources, the first match writes CharCode of the first character. */
  lemma {:induction false} FirstMatchCharCode(ms: seq<Mapping>, s: string, i: nat)
    requires SingleCharSources(ms) && |s| > 0
    ensures FirstMatchFrom(ms, s, i).Some? ==> CharCodeFrom(ms, s[0], i) == ms[FirstMatchFrom(ms, s, i).value].dest
    ensures FirstMatchFrom(ms, s, i).None? ==> CharCodeFrom(ms, s[0], i) == [s[0]]
    decreases |ms| - i
  {
    if i < |ms| {
      SingleCharMatch(s, ms[i].source);
      FirstMatchCharCode(ms, s, i + 1);
    }
  }

  /** With one-character sources, applying the mappings codes each character on its own. */
  lemma {:induction false} ApplySingleChar(ms: seq<Mapping>, s: string)
    requires SingleCharSources(ms)
    ensures SourcesNonEmpty(ms) && Apply(ms, s) == CharCodes(ms, s)
    decreases |s|
  {
    if |s| > 0 {
      FirstMatchCharCode(ms, s, 0);
      ApplySingleChar(ms, s[1..]);
    }
  }

  /** No mapping matches at any position of `code`. */
  predicate NoMatchWithin(ms: seq<Mapping>, code: string)
  {
    |code| == 0 || (FirstMatch(ms, code).None? && NoMatchWithin(ms, code[1..]))
  }

  /** A mapping search that fails within `code` fails whatever follows. */
  lemma NoneExtends(ms: seq<Mapping>, code: string, rest: string)
    requires FirstMatch(ms, code).None?
    ensures FirstMatch(ms, code + rest).None?
  {
    forall j | 0 <= j < |ms|
      ensures !MatchesAt(code + rest, ms[j].source)
    {
      MismatchExtends(code, rest, ms[j].source);
    }
  }

  /** Where no mapping matches at the front, the scan copies one character and moves on by one. */
  lemma CopyStep(ms: seq<Mapping>, code: string, rest: string)
    requires SourcesNonEmpty(ms) && |code| > 0 && FirstMatch(ms, code).None?
    ensures Apply(ms, code + rest) == [code[0]] + Apply(ms, code[1..] + rest)
  {
    var s := code + rest;
    NoneExtends(ms, code, rest);
    assert Emitted(ms, s) == [code[0]] && Advance(ms, s) == 1;
    ApplyUnfold(ms, s);
    assert s[1..] == code[1..] + rest;
  }

  /** Putting back the first character; kept apart, as Apply's unfoldings make it costly in place. */
  lemma PrependFront(code: string, a: string)
    requires |code| > 0
    ensures [code[0]] + (code[1..] + a) == code + a
  {
    assert code == [code[0]] + code[1..];
  }

  /** A stretch where no mapping matches is copied unchanged. */
  lemma {:induction false} CopyThrough(ms: seq<Mapping>, code: string, rest: string)
    requires SourcesNonEmpty(ms) && NoMatchWithin(ms, code)
    ensures Apply(ms, code + rest) == code + Apply(ms, rest)
  {
    if |code| > 0 {
      CopyStep(ms, code, rest);
      CopyThrough(ms, code[1..], rest);
      PrependFront(code, Apply(ms, rest));
    } else {
      assert code + rest == rest;
    }
  }

  /** A whole source at the front is replaced by its dest, whatever follows. */
  lemma MatchStep(ms: seq<Mapping>, code: string, rest: string, j: nat)
    requires SourcesNonEmpty(ms) && FirstMatch(ms, code) == Some(j) && |ms[j].source| == |code|
    ensures Apply(ms, code + rest) == ms[j].dest + Apply(ms, rest)
  {
    forall i | 0 <= i < j
      ensures !MatchesAt(code + rest, ms[i].source)
    {
      MismatchExtends(code, rest, ms[i].source);
    }
    MatchExtends(code, rest, ms[j].source);
    FirstMatchIs(ms, code + rest, j);
    assert (code + rest)[|code|..] == rest;
  }

  // ----- The tree escaper -----

  /** The mapping table of the tree printer, split after the escape symbols '&' and ';'. */
  const TreeTable: seq<(string, string)> := [
    ("&", "&amp;"), (";", "&sc;"),
    (" ", "&space;"), ("\"", "&dq;"),
    ("(", "&lp;"), (")", "&rp;"), ("[", "&lsb;"), ("]", "&rsb;")]

  const TreeEscaper: Escaper := Escaper(
    [Mapping("&", "&amp;"), Mapping(";", "&sc;"),
     Mapping(" ", "&space;"), Mapping("\"", "&dq;"),
     Mapping("(", "&lp;"), Mapping(")", "&rp;"), Mapping("[", "&lsb;"), Mapping("]", "&rsb;")],
    [Mapping("&amp;", "&"), Mapping("&sc;", ";")],
    [Mapping("&space;", " "), Mapping("&dq;", "\""),
     Mapping("&lp;", "("), Mapping("&rp;", ")"), Mapping("&lsb;", "["), Mapping("&rsb;", "]")])

  /** The constructor, given the tree table split at 2, builds TreeEscaper. */
  method BuildTreeEscaper() returns (r: Built)
    ensures r == Built(TreeEscaper)
  {
    r := NewEscaper(TreeTable, 2);
    assert r.escaper.forward == TreeEscaper.forward;
    assert r.escaper.specialBack == TreeEscaper.specialBack;
    forall i | 0 <= i < 6
      ensures r.escaper.normalBack[i] == TreeEscaper.normalBack[i]
    {
      assert r.escaper.normalBack[(i + 2) - 2] == Flip(r.escaper.forward[i + 2]);
    }
    assert r.escaper.normalBack == TreeEscaper.normalBack;
  }

  /** The escape of one character under the tree table. */
  function Code(c: char): string
  {
    match c
    case '&' => "&amp;"
    case ';' => "&sc;"
    case ' ' => "&space;"
    case '"' => "&dq;"
    case '(' => "&lp;"
    case ')' => "&rp;"
    case '[' => "&lsb;"
    case ']' => "&rsb;"
    case _ => [c]
  }

  /** The characters the tree printer uses as delimiters. */
  predicate Delimiter(c: char)
  {
    c == ' ' || c == '"' || c == '(' || c == ')' || c == '[' || c == ']'
  }

  function Codes(s: string): string
  {
    if |s| == 0 then [] else Code(s[0]) + Codes(s[1..])
  }

  /** The first table entry for `c` from index `i` on decides CharCodeFrom. */
  lemma {:induction false} CharCodeIs(ms: seq<Mapping>, c: char, i: nat, j: nat)
    requires i <= j < |ms| && |ms[j].source| > 0 && ms[j].source[0] == c
    requires forall k :: i <= k < j ==> |ms[k].source| > 0 && ms[k].source[0] != c
    ensures CharCodeFrom(ms, c, i) == ms[j].dest
    decreases j - i
  {
    if i < j {
      CharCodeIs(ms, c, i + 1, j);
    }
  }

  /** A character no entry from index `i` on starts with codes to itself. */
  lemma {:induction false} CharCodeNone(ms: seq<Mapping>, c: char, i: nat)
    requires forall k :: i <= k < |ms| ==> |ms[k].source| > 0 && ms[k].source[0] != c
    ensures CharCodeFrom(ms, c, i) == [c]
    decreases |ms| - i
  {
    if i < |ms| {
      CharCodeNone(ms, c, i + 1);
    }
  }

  /** The forward table codes each character as Code does. */
  lemma TreeCharCode(c: char)
    ensures CharCode(TreeEscaper.forward, c) == Code(c)
  {
    if c == '&' || c == ';' {
      TreeCharCodeEscapeSymbol(c);
    } else if Delimiter(c) {
      TreeCharCodeDelimiter(c);
    } else {
      TreeCharCodePlain(c);
    }
  }

  lemma TreeCharCodeEscapeSymbol(c: char)
    requires c == '&' || c == ';'
    ensures CharCode(TreeEscaper.forward, c) == Code(c)
  {
    var fw := TreeEscaper.forward;
    if c == '&' { CharCodeIs(fw, c, 0, 0); }
    else { CharCodeIs(fw, c, 0, 1); }
  }

  lemma TreeCharCodeDelimiter(c: char)
    requires Delimiter(c)
    ensures CharCode(TreeEscaper.forward, c) == Code(c)
  {
    var fw := TreeEscaper.forward;
    if c == ' ' { CharCodeIs(fw, c, 0, 2); }
    else if c == '"' { CharCodeIs(fw, c, 0, 3); }
    else if c == '(' { CharCodeIs(fw, c, 0, 4); }
    else if c == ')' { CharCodeIs(fw, c, 0, 5); }
    else if c == '[' { CharCodeIs(fw, c, 0, 6); }
    else { CharCodeIs(fw, c, 0, 7); }
  }

  lemma TreeCharCodePlain(c: char)
    requires c != '&' && c != ';' && !Delimiter(c)
    ensures CharCode(TreeEscaper.forward, c) == Code(c) == [c]
  {
    CharCodeNone(TreeEscaper.forward, c, 0);
  }

  lemma {:induction false} TreeCharCodes(s: string)
    ensures CharCodes(TreeEscaper.forward, s) == Codes(s)
  {
    if |s| > 0 {
      TreeCharCode(s[0]);
      TreeCharCodes(s[1..]);
    }
  }

  /** Escaping with the tree table codes each character on its own. */
  lemma TreeEscape(s: string)
    ensures SourcesNonEmpty(TreeEscaper.forward) && Escape(TreeEscaper, s) == Codes(s)
  {
    assert SingleCharSources(TreeEscaper.forward);
    ApplySingleChar(TreeEscaper.forward, s);
    TreeCharCodes(s);
  }

  /** What survives the normal back pass for one character: the escape symbols stay escaped. */
  function Mid(c: char): string
  {
    if c == '&' then "&amp;" else if c == ';' then "&sc;" else [c]
  }

  function Mids(s: string): string
  {
    if |s| == 0 then [] else Mid(s[0]) + Mids(s[1..])
  }

  /** Every source of the tree back tables starts with '&'. */
  lemma TreeBackSources()
    ensures SourcesNonEmpty(TreeEscaper.normalBack) && SourcesNonEmpty(TreeEscaper.specialBack)
    ensures forall i :: 0 <= i < |TreeEscaper.normalBack| ==> TreeEscaper.normalBack[i].source[0] == '&'
    ensures forall i :: 0 <= i < |TreeEscaper.specialBack| ==> TreeEscaper.specialBack[i].source[0] == '&'
  {
  }

  /** A character other than '&' is copied by a table whose sources all start with '&'. */
  lemma NoAmpersandCopied(ms: seq<Mapping>, c: char)
    requires c != '&'
    requires forall i :: 0 <= i < |ms| ==> |ms[i].source| > 0 && ms[i].source[0] == '&'
    ensures NoMatchWithin(ms, [c])
  {
    assert [c][1..] == [];
  }

  /** Where the normal back table first matches on the codes of space and double quote. */
  lemma NormalBackMatches()
    ensures FirstMatch(TreeEscaper.normalBack, "&space;") == Some(0)
    ensures FirstMatch(TreeEscaper.normalBack, "&dq;") == Some(1)
  {
  }

  /** Where the normal back table first matches on the codes of the parentheses. */
  lemma NormalBackMatchesParens()
    ensures FirstMatch(TreeEscaper.normalBack, "&lp;") == Some(2)
    ensures FirstMatch(TreeEscaper.normalBack, "&rp;") == Some(3)
  {
  }

  /** Where the normal back table first matches on the codes of the square brackets. */
  lemma NormalBackMatchesBrackets()
    ensures FirstMatch(TreeEscaper.normalBack, "&lsb;") == Some(4)
    ensures FirstMatch(TreeEscaper.normalBack, "&rsb;") == Some(5)
  {
  }

  /** The normal back table matches nowhere in the code of '&'. */
  lemma NormalBackCopiesAmp()
    ensures NoMatchWithin(TreeEscaper.normalBack, "&amp;")
  {
    var nb := TreeEscaper.normalBack;
    TreeBackSources();
    assert FirstMatch(nb, "&amp;").None?;
    NoAmpersandNoMatch(nb, "amp;");
    assert "&amp;"[1..] == "amp;";
  }

  /** The normal back table matches nowhere in the code of ';'. */
  lemma NormalBackCopiesSc()
    ensures NoMatchWithin(TreeEscaper.normalBack, "&sc;")
  {
    var nb := TreeEscaper.normalBack;
    TreeBackSources();
    assert FirstMatch(nb, "&sc;").None?;
    NoAmpersandNoMatch(nb, "sc;");
    assert "&sc;"[1..] == "sc;";
  }

  /** A string without '&' holds no match of a table whose sources all start with '&'. */
  lemma {:induction false} NoAmpersandNoMatch(ms: seq<Mapping>, code: string)
    requires forall i :: 0 <= i < |ms| ==> |ms[i].source| > 0 && ms[i].source[0] == '&'
    requires forall k :: 0 <= k < |code| ==> code[k] != '&'
    ensures NoMatchWithin(ms, code)
  {
    if |code| > 0 {
      NoAmpersandNoMatch(ms, code[1..]);
    }
  }

  /** The normal back pass turns the code of one character into Mid of it. */
  lemma NormalStep(c: char, rest: string)
    ensures SourcesNonEmpty(TreeEscaper.normalBack)
    ensures Apply(TreeEscaper.normalBack, Code(c) + rest) == Mid(c) + Apply(TreeEscaper.normalBack, rest)
  {
    var nb := TreeEscaper.normalBack;
    TreeBackSources();
    NormalBackMatches();
    NormalBackMatchesParens();
    NormalBackMatchesBrackets();
    NormalBackCopiesAmp();
    NormalBackCopiesSc();
    match c
    case '&' => CopyThrough(nb, "&amp;", rest);
    case ';' => CopyThrough(nb, "&sc;", rest);
    case ' ' => MatchStep(nb, "&space;", rest, 0);
    case '"' => MatchStep(nb, "&dq;", rest, 1);
    case '(' => MatchStep(nb, "&lp;", rest, 2);
    case ')' => MatchStep(nb, "&rp;", rest, 3);
    case '[' => MatchStep(nb, "&lsb;", rest, 4);
    case ']' => MatchStep(nb, "&rsb;", rest, 5);
    case _ => NoAmpersandCopied(nb, c); CopyThrough(nb, [c], rest);
  }

  /** The special back pass turns Mid of one character back into the character. */
  lemma SpecialStep(c: char, rest: string)
    ensures SourcesNonEmpty(TreeEscaper.specialBack)
    ensures Apply(TreeEscaper.specialBack, Mid(c) + rest) == [c] + Apply(TreeEscaper.specialBack, rest)
  {
    var sb := TreeEscaper.specialBack;
    TreeBackSources();
    if c == '&' {
      MatchStep(sb, "&amp;", rest, 0);
    } else if c == ';' {
      MatchStep(sb, "&sc;", rest, 1);
    } else {
      NoAmpersandCopied(sb, c);
      CopyThrough(sb, [c], rest);
    }
  }

  lemma {:induction false} NormalPass(s: string)
    ensures SourcesNonEmpty(TreeEscaper.normalBack)
    ensures Apply(TreeEscaper.normalBack, Codes(s)) == Mids(s)
  {
    TreeBackSources();
    if |s| > 0 {
      NormalStep(s[0], Codes(s[1..]));
      NormalPass(s[1..]);
    }
  }

  lemma {:induction false} SpecialPass(s: string)
    ensures SourcesNonEmpty(TreeEscaper.specialBack)
    ensures Apply(TreeEscaper.specialBack, Mids(s)) == s
  {
    TreeBackSources();
    if |s| > 0 {
      SpecialStep(s[0], Mids(s[1..]));
      SpecialPass(s[1..]);
      assert s == [s[0]] + s[1..];
    }
  }

  /** With the tree table, unescaping undoes escaping. */
  lemma TreeRoundTrip(s: string)
    ensures SourcesNonEmpty(TreeEscaper.forward)
    ensures SourcesNonEmpty(TreeEscaper.normalBack) && SourcesNonEmpty(TreeEscaper.specialBack)
    ensures Unescape(TreeEscaper, Escape(TreeEscaper, s)) == s
  {
    TreeEscape(s);
    NormalPass(s);
    SpecialPass(s);
  }

  /** The escape of a string has no delimiter character of the tree printer. */
  lemma {:induction false} CodesHaveNoDelimiter(s: string)
    ensures forall i :: 0 <= i < |Codes(s)| ==> !Delimiter(Codes(s)[i])
  {
    if |s| > 0 {
      CodesHaveNoDelimiter(s[1..]);
      var c, r := Code(s[0]), Codes(s[1..]);
      assert forall i :: 0 <= i < |c| ==> !Delimiter(c[i]);
      assert forall i :: |c| <= i < |c + r| ==> (c + r)[i] == r[i - |c|];
    }
  }

  lemma TreeEscapeHasNoDelimiter(s: string)
    ensures SourcesNonEmpty(TreeEscaper.forward)
    ensures forall i :: 0 <= i < |Escape(TreeEscaper, s)| ==> !Delimiter(Escape(TreeEscaper, s)[i])
  {
    TreeEscape(s);
    CodesHaveNoDelimiter(s);
  }

  /** The normal back pass leaves "x&a" alone: "&a" disagrees with every normal source. */
  lemma TruncatedExampleNormal()
    ensures SourcesNonEmpty(TreeEscaper.normalBack)
    ensures Apply(TreeEscaper.normalBack, "x&a") == "x&a"
  {
    var nb := TreeEscaper.normalBack;
    TreeBackSources();
    NoAmpersandNoMatch(nb, "a");
    assert FirstMatch(nb, "&a").None?;
    assert "&a"[1..] == "a";
    assert NoMatchWithin(nb, "&a");
    assert FirstMatch(nb, "x&a").None?;
    assert "x&a"[1..] == "&a";
    assert NoMatchWithin(nb, "x&a");
    CopyThrough(nb, "x&a", []);
    assert "x&a" + [] == "x&a";
  }

  /** The special back pass reads the cut-short "&a" as "&amp;". */
  lemma TruncatedExampleSpecial()
    ensures SourcesNonEmpty(TreeEscaper.specialBack)
    ensures Apply(TreeEscaper.specialBack, "x&a") == "x&"
  {
    var sb := TreeEscaper.specialBack;
    TreeBackSources();
    NoAmpersandCopied(sb, 'x');
    CopyThrough(sb, "x", "&a");
    assert "x&a" == "x" + "&a";
    assert MatchesAt("&a", sb[0].source);
    FirstMatchIs(sb, "&a", 0);
    assert Advance(sb, "&a") == 2;
    assert Apply(sb, "&a") == "&" + Apply(sb, []);
  }

  /**
    A source cut short by the end of the input still matches: in "x&a" the
    final "&a" agrees with the start of "&amp;" and unescapes to "&".
  */
  lemma TruncatedMatchExample()
    ensures SourcesNonEmpty(TreeEscaper.normalBack) && SourcesNonEmpty(TreeEscaper.specialBack)
    ensures Unescape(TreeEscaper, "x&a") == "x&"
  {
    TruncatedExampleNormal();
    TruncatedExampleSpecial();
  }
}
