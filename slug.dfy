/** The slug generator of script.js: heading text to fragment identifier.

    The source pipeline is
      lower-case, NFD-decompose, delete U+0300..U+036F, delete every
      character outside `\w`, `-` and space, trim, replace each run of
      whitespace by one `-`.
    `\w` is read without the `u` flag, so it is the ASCII class
    `[A-Za-z0-9_]`. */
module Slug {
  import opened Text

  /** Canonical decompositions (Unicode NFD) of the precomposed lower-case
      letters of the Latin-1 Supplement: base letter, then combining mark.
      The pipeline lower-cases before it decomposes, so the upper-case
      letters never reach this table. */
  const Latin1Decomposition: map<char, string> := map[
    '\U{E0}' := ['a', '\U{300}'], '\U{E1}' := ['a', '\U{301}'], '\U{E2}' := ['a', '\U{302}'],
    '\U{E3}' := ['a', '\U{303}'], '\U{E4}' := ['a', '\U{308}'], '\U{E5}' := ['a', '\U{30A}'],
    '\U{E7}' := ['c', '\U{327}'],
    '\U{E8}' := ['e', '\U{300}'], '\U{E9}' := ['e', '\U{301}'], '\U{EA}' := ['e', '\U{302}'],
    '\U{EB}' := ['e', '\U{308}'],
    '\U{EC}' := ['i', '\U{300}'], '\U{ED}' := ['i', '\U{301}'], '\U{EE}' := ['i', '\U{302}'],
    '\U{EF}' := ['i', '\U{308}'],
    '\U{F1}' := ['n', '\U{303}'],
    '\U{F2}' := ['o', '\U{300}'], '\U{F3}' := ['o', '\U{301}'], '\U{F4}' := ['o', '\U{302}'],
    '\U{F5}' := ['o', '\U{303}'], '\U{F6}' := ['o', '\U{308}'],
    '\U{F9}' := ['u', '\U{300}'], '\U{FA}' := ['u', '\U{301}'], '\U{FB}' := ['u', '\U{302}'],
    '\U{FC}' := ['u', '\U{308}'],
    '\U{FD}' := ['y', '\U{301}'], '\U{FF}' := ['y', '\U{308}']
  ]

  /** The block the source strips: Combining Diacritical Marks. */
  predicate IsCombiningMark(c: char) {
    '\U{300}' <= c <= '\U{36F}'
  }

  function DecomposeChar(c: char): (r: string)
    ensures r == [c] || (|r| == 2 && 'a' <= r[0] <= 'z' && IsCombiningMark(r[1]))
    ensures c < '\U{E0}' ==> r == [c]
  {
    if c < '\U{E0}' || c !in Latin1Decomposition then [c] else Latin1Decomposition[c]
  }

  /** `normalize('NFD')`, with the decompositions of `Latin1Decomposition`. */
  function Nfd(s: string): (r: string)
    ensures |s| <= |r| <= 2 * |s|
    decreases |s|
  {
    if s == [] then [] else DecomposeChar(s[0]) + Nfd(s[1..])
  }

  /** Decomposition only brings in base letters a-z and combining marks. */
  lemma {:induction false} NfdChars(s: string)
    ensures forall c :: c in Nfd(s) ==> c in s || 'a' <= c <= 'z' || IsCombiningMark(c)
    decreases |s|
  {
    if s != [] {
      NfdChars(s[1..]);
    }
  }

  /** Deletes every combining mark. */
  function StripMarks(s: string): (r: string)
    ensures |r| <= |s|
    decreases |s|
  {
    if s == [] then []
    else if IsCombiningMark(s[0]) then StripMarks(s[1..])
    else [s[0]] + StripMarks(s[1..])
  }

  /** What is left is in the input and no combining mark. */
  lemma {:induction false} StripMarksChars(s: string)
    ensures forall c :: c in StripMarks(s) ==> c in s && !IsCombiningMark(c)
    decreases |s|
  {
    if s != [] {
      StripMarksChars(s[1..]);
    }
  }

  /** A character of `\w` in a regular expression without the `u` flag. */
  predicate IsWordChar(c: char) {
    'a' <= c <= 'z' || 'A' <= c <= 'Z' || '0' <= c <= '9' || c == '_'
  }

  /** The characters `[^\w\- ]` does not match. */
  predicate IsAllowed(c: char) {
    IsWordChar(c) || c == '-' || c == ' '
  }

  /** Deletes every character outside `\w`, `-` and space. */
  function KeepAllowed(s: string): (r: string)
    ensures |r| <= |s|
    decreases |s|
  {
    if s == [] then []
    else if IsAllowed(s[0]) then [s[0]] + KeepAllowed(s[1..])
    else KeepAllowed(s[1..])
  }

  /** What is left is in the input and allowed. */
  lemma {:induction false} KeepAllowedChars(s: string)
    ensures forall c :: c in KeepAllowed(s) ==> c in s && IsAllowed(c)
    decreases |s|
  {
    if s != [] {
      KeepAllowedChars(s[1..]);
    }
  }

  /** The character-by-character part of the pipeline, before `trim`. */
  function Clean(s: string): string {
    KeepAllowed(StripMarks(Nfd(LowerStr(s))))
  }

  /** Drops the leading whitespace (the first half of `trim`). */
  function TrimStart(s: string): (r: string)
    ensures |r| <= |s|
    ensures r == [] || !IsJsWhitespace(r[0])
    ensures forall k :: 0 <= k < |s| - |r| ==> IsJsWhitespace(s[k])
    decreases |s|
  {
    if s != [] && IsJsWhitespace(s[0]) then TrimStart(s[1..]) else s
  }

  /** `TrimStart` keeps a suffix. Stated apart from the function so that
      the slice is only in scope where a proof asks for it. */
  lemma {:induction false} TrimStartSuffix(s: string)
    ensures TrimStart(s) == s[|s| - |TrimStart(s)|..]
    ensures forall c :: c in TrimStart(s) ==> c in s
    decreases |s|
  {
    if s != [] && IsJsWhitespace(s[0]) {
      TrimStartSuffix(s[1..]);
      assert s[1..][|s| - 1 - |TrimStart(s)|..] == s[|s| - |TrimStart(s)|..];
    }
  }

  /** Drops the trailing whitespace (the second half of `trim`). */
  function TrimEnd(s: string): (r: string)
    ensures r <= s
    ensures r == [] || !IsJsWhitespace(r[|r| - 1])
    ensures forall k :: |r| <= k < |s| ==> IsJsWhitespace(s[k])
    decreases |s|
  {
    if s != [] && IsJsWhitespace(s[|s| - 1]) then TrimEnd(s[..|s| - 1]) else s
  }

  /** `String.prototype.trim`. */
  function Trim(s: string): (r: string)
    ensures |r| <= |s|
    ensures r == [] || (!IsJsWhitespace(r[0]) && !IsJsWhitespace(r[|r| - 1]))
  {
    TrimEnd(TrimStart(s))
  }

  /** Every maximal run of whitespace becomes one `-`. */
  function Hyphenate(s: string): (r: string)
    ensures |r| <= |s|
    ensures r == [] <==> s == []
    decreases |s|
  {
    if s == [] then []
    else if IsJsWhitespace(s[0]) then "-" + Hyphenate(TrimStart(s))
    else [s[0]] + Hyphenate(s[1..])
  }

  /** Hyphenation keeps the non-whitespace characters and adds only `-`. */
  lemma {:induction false} HyphenateChars(s: string)
    ensures forall c :: c in Hyphenate(s) ==> c == '-' || (c in s && !IsJsWhitespace(c))
    decreases |s|
  {
    if s != [] {
      if IsJsWhitespace(s[0]) {
        TrimStartSuffix(s);
        HyphenateChars(TrimStart(s));
      } else {
        HyphenateChars(s[1..]);
      }
    }
  }

  /** The slug of a heading text. Input outside ASCII and Latin-1 is
      lower-cased and decomposed only as far as `LowerChar` and
      `Latin1Decomposition` go. */
  function Slugify(text: string): (r: string)
    ensures |r| <= |text|
    ensures text == [] ==> r == []
  {
    CleanShortens(text);
    Hyphenate(Trim(Clean(text)))
  }

  /** The characters a slug is made of. */
  predicate SlugChar(c: char) {
    'a' <= c <= 'z' || '0' <= c <= '9' || c == '_' || c == '-'
  }

  predicate IsSlug(s: string) {
    forall k :: 0 <= k < |s| ==> SlugChar(s[k])
  }

  /** What survives the character filter: slug characters and spaces. */
  predicate IsCleanChar(c: char) {
    SlugChar(c) || c == ' '
  }

  // ---------------------------------------------------------------------
  // The character stages distribute over concatenation.

  lemma LowerConcat(a: string, b: string)
    ensures LowerStr(a + b) == LowerStr(a) + LowerStr(b)
  {
    assert forall k :: 0 <= k < |a| + |b| ==> LowerStr(a + b)[k] == (LowerStr(a) + LowerStr(b))[k];
  }

  lemma {:induction false} NfdConcat(a: string, b: string)
    ensures Nfd(a + b) == Nfd(a) + Nfd(b)
    decreases |a|
  {
    if a == [] {
      assert a + b == b;
    } else {
      assert (a + b)[1..] == a[1..] + b;
      NfdConcat(a[1..], b);
    }
  }

  lemma {:induction false} StripMarksConcat(a: string, b: string)
    ensures StripMarks(a + b) == StripMarks(a) + StripMarks(b)
    decreases |a|
  {
    if a == [] {
      assert a + b == b;
    } else {
      assert (a + b)[1..] == a[1..] + b;
      StripMarksConcat(a[1..], b);
    }
  }

  lemma {:induction false} KeepAllowedConcat(a: string, b: string)
    ensures KeepAllowed(a + b) == KeepAllowed(a) + KeepAllowed(b)
    decreases |a|
  {
    if a == [] {
      assert a + b == b;
    } else {
      assert (a + b)[1..] == a[1..] + b;
      KeepAllowedConcat(a[1..], b);
    }
  }

  /** The filtering stages act on each character on its own. */
  lemma CleanConcat(a: string, b: string)
    ensures Clean(a + b) == Clean(a) + Clean(b)
  {
    LowerConcat(a, b);
    NfdConcat(LowerStr(a), LowerStr(b));
    StripMarksConcat(Nfd(LowerStr(a)), Nfd(LowerStr(b)));
    KeepAllowedConcat(StripMarks(Nfd(LowerStr(a))), StripMarks(Nfd(LowerStr(b))));
  }

  /** One character gives at most one: a decomposed letter loses its mark. */
  lemma CleanSingleShortens(c: char)
    ensures |Clean([c])| <= 1
  {
    var l := LowerChar(c);
    assert LowerStr([c]) == [l];
    assert [l][1..] == [];
    assert Nfd([l]) == DecomposeChar(l);
    var d := DecomposeChar(l);
    if |d| == 2 {
      assert d[1..][1..] == [];
      assert StripMarks(d) == [d[0]];
    }
  }

  /** The filtering stages never lengthen the text. */
  lemma {:induction false} CleanShortens(s: string)
    ensures |Clean(s)| <= |s|
    decreases |s|
  {
    if s != [] {
      assert s == [s[0]] + s[1..];
      CleanConcat([s[0]], s[1..]);
      CleanSingleShortens(s[0]);
      CleanShortens(s[1..]);
    }
  }

  /** After the filter only slug characters and spaces are left. */
  lemma CleanChars(s: string)
    ensures forall c :: c in Clean(s) ==> IsCleanChar(c)
  {
    var l := LowerStr(s);
    assert forall c :: c in l ==> !IsAsciiUpper(c);
    NfdChars(l);
    StripMarksChars(Nfd(l));
    KeepAllowedChars(StripMarks(Nfd(l)));
  }

  // ---------------------------------------------------------------------
  // The stages leave slug text alone.

  predicate AllClean(s: string) {
    forall k :: 0 <= k < |s| ==> IsCleanChar(s[k])
  }

  lemma CleanSingle(c: char)
    requires IsCleanChar(c)
    ensures Clean([c]) == [c]
  {
    assert LowerStr([c]) == [c];
    assert [c][1..] == [];
    assert Nfd([c]) == [c];
    assert StripMarks([c]) == [c];
    assert KeepAllowed([c]) == [c];
  }

  lemma {:induction false} CleanFixesCleanText(s: string)
    requires AllClean(s)
    ensures Clean(s) == s
    decreases |s|
  {
    if s != [] {
      CleanFixesCleanText(s[1..]);
      assert s == [s[0]] + s[1..];
      CleanConcat([s[0]], s[1..]);
      CleanSingle(s[0]);
    }
  }

  lemma {:induction false} HyphenateFixesSpaceless(s: string)
    requires forall k :: 0 <= k < |s| ==> !IsJsWhitespace(s[k])
    ensures Hyphenate(s) == s
    decreases |s|
  {
    if s != [] {
      HyphenateFixesSpaceless(s[1..]);
    }
  }

  /** A slug is its own slug. */
  lemma SlugifyFixesSlugs(s: string)
    requires IsSlug(s)
    ensures Slugify(s) == s
  {
    assert AllClean(s);
    CleanFixesCleanText(s);
    if s != [] {
      assert !IsJsWhitespace(s[0]) && !IsJsWhitespace(s[|s| - 1]);
    }
    assert Trim(s) == s;
    HyphenateFixesSpaceless(s);
  }

  /** Every character of a slug is in a-z, 0-9, `_` or `-`. */
  lemma SlugifyCharset(text: string)
    ensures IsSlug(Slugify(text))
  {
    var t := Trim(Clean(text));
    CleanChars(text);
    assert forall c :: c in t ==> c in Clean(text) by {
      var u := TrimStart(Clean(text));
      TrimStartSuffix(Clean(text));
      assert forall c :: c in t ==> c in u;
      assert forall c :: c in u ==> c in Clean(text);
    }
    var r := Slugify(text);
    HyphenateChars(t);
    forall k | 0 <= k < |r| ensures SlugChar(r[k]) {
      assert r[k] in r;
    }
  }

  /** Slugifying twice is slugifying once. */
  lemma SlugifyIdempotent(text: string)
    ensures Slugify(Slugify(text)) == Slugify(text)
  {
    SlugifyCharset(text);
    SlugifyFixesSlugs(Slugify(text));
  }

  // ---------------------------------------------------------------------
  // Whitespace and deleted characters.

  /** A character the filter deletes may as well not be in the text. */
  lemma SlugifyIgnoresDeleted(u: string, c: char, v: string)
    requires Clean([c]) == []
    ensures Slugify(u + [c] + v) == Slugify(u + v)
  {
    CleanConcat(u + [c], v);
    CleanConcat(u, [c]);
    CleanConcat(u, v);
    assert Clean(u + [c]) == Clean(u);
  }

  /** A deleted character in front of a slug leaves just the slug. */
  lemma SlugifyDeletedThenSlug(c: char, v: string)
    requires Clean([c]) == [] && IsSlug(v)
    ensures Slugify([c] + v) == v
  {
    assert Clean([c] + v) == Clean(v) by {
      CleanConcat([c], v);
    }
    SlugifyFixesSlugs(v);
  }

  /** Tabs, line feeds, vertical tabs, form feeds and carriage returns are
      deleted by the filter, before whitespace is turned into hyphens. */
  lemma ControlWhitespaceDeleted(c: char)
    requires c == '\t' || c == '\n' || c == '\U{B}' || c == '\U{C}' || c == '\r'
    ensures Clean([c]) == []
  {
    AsciiDeleted(c);
  }

  /** An ASCII character outside `\w`, `-` and space is deleted by the filter. */
  lemma AsciiDeleted(c: char)
    requires c <= '\U{7F}' && !IsAllowed(c)
    ensures Clean([c]) == []
  {
    assert LowerStr([c]) == [c];
    assert [c][1..] == [];
    assert Nfd([c]) == [c];
    assert StripMarks([c]) == [c];
    assert KeepAllowed([c]) == KeepAllowed([]);
  }

  /** Text made only of deleted characters has the empty slug. */
  lemma {:induction false} SlugifyAllDeleted(text: string)
    requires forall k :: 0 <= k < |text| ==> Clean([text[k]]) == []
    ensures Clean(text) == [] && Slugify(text) == []
    decreases |text|
  {
    if text != [] {
      SlugifyAllDeleted(text[1..]);
      assert text == [text[0]] + text[1..];
      CleanConcat([text[0]], text[1..]);
    }
  }

  lemma {:induction false} TrimStartAppend(t: string, x: string)
    ensures TrimStart(t + x) == if TrimStart(t) == [] then TrimStart(x) else TrimStart(t) + x
    decreases |t|
  {
    if t == [] {
      assert t + x == x;
    } else if IsJsWhitespace(t[0]) {
      assert (t + x)[1..] == t[1..] + x;
      TrimStartAppend(t[1..], x);
    }
  }

  lemma TrimLeadingSpace(t: string)
    ensures Trim([' '] + t) == Trim(t)
  {
    assert ([' '] + t)[1..] == t;
  }

  lemma TrimEndSpace(u: string)
    ensures TrimEnd(u + [' ']) == TrimEnd(u)
  {
    var w := u + [' '];
    assert w[..|w| - 1] == u;
  }

  lemma TrimTrailingSpace(t: string)
    ensures Trim(t + [' ']) == Trim(t)
  {
    TrimStartAppend(t, [' ']);
    var u := TrimStart(t);
    if u == [] {
      assert TrimStart([' ']) == [] by {
        assert [' '][1..] == [];
      }
    } else {
      assert TrimStart(t + [' ']) == u + [' '];
      TrimEndSpace(u);
    }
  }

  /** A leading or a trailing space gives no hyphen. */
  lemma SlugifyIgnoresEdgeSpaces(text: string)
    ensures Slugify([' '] + text) == Slugify(text)
    ensures Slugify(text + [' ']) == Slugify(text)
  {
    var t := Clean(text);
    CleanConcat([' '], text);
    CleanConcat(text, [' ']);
    CleanSingle(' ');
    TrimLeadingSpace(t);
    TrimTrailingSpace(t);
  }

  function Spaces(n: nat): (r: string)
    ensures |r| == n && forall k :: 0 <= k < n ==> r[k] == ' '
  {
    seq(n, _ => ' ')
  }

  lemma {:induction false} HyphenateAfterWord(u: string, t: string)
    requires forall k :: 0 <= k < |u| ==> !IsJsWhitespace(u[k])
    ensures Hyphenate(u + t) == u + Hyphenate(t)
    decreases |u|
  {
    if u == [] {
      assert u + t == t;
    } else {
      assert (u + t)[1..] == u[1..] + t;
      HyphenateAfterWord(u[1..], t);
    }
  }

  lemma {:induction false} TrimStartSpaces(n: nat, v: string)
    requires v == [] || !IsJsWhitespace(v[0])
    ensures TrimStart(Spaces(n) + v) == v
    decreases n
  {
    if n == 0 {
      assert Spaces(n) + v == v;
    } else {
      assert (Spaces(n) + v)[1..] == Spaces(n - 1) + v;
      TrimStartSpaces(n - 1, v);
    }
  }

  lemma HyphenateSpaceRun(u: string, n: nat, v: string)
    requires forall k :: 0 <= k < |u| ==> !IsJsWhitespace(u[k])
    requires v == [] || !IsJsWhitespace(v[0])
    requires n >= 1
    ensures Hyphenate(u + (Spaces(n) + v)) == u + ("-" + Hyphenate(v))
  {
    var t := Spaces(n) + v;
    assert t[0] == ' ';
    assert Hyphenate(t) == "-" + Hyphenate(TrimStart(t));
    TrimStartSpaces(n, v);
    HyphenateAfterWord(u, t);
  }

  lemma AllCleanConcat(a: string, b: string)
    requires AllClean(a) && AllClean(b)
    ensures AllClean(a + b)
  {
    assert forall k :: 0 <= k < |a| ==> (a + b)[k] == a[k];
    assert forall k :: |a| <= k < |a| + |b| ==> (a + b)[k] == b[k - |a|];
  }

  lemma TrimFixes(s: string)
    requires s == [] || (!IsJsWhitespace(s[0]) && !IsJsWhitespace(s[|s| - 1]))
    ensures Trim(s) == s
  {
  }

  lemma SpaceRunIsClean(u: string, n: nat, v: string)
    requires u != [] && v != [] && IsSlug(u) && IsSlug(v)
    ensures var w := u + Spaces(n) + v;
      AllClean(w) && Trim(w) == w
  {
    assert AllClean(u) && AllClean(Spaces(n)) && AllClean(v);
    AllCleanConcat(u, Spaces(n));
    AllCleanConcat(u + Spaces(n), v);
    var w := u + Spaces(n) + v;
    assert w[0] == u[0] && w[|w| - 1] == v[|v| - 1];
    TrimFixes(w);
  }

  lemma SpaceRunHyphenated(u: string, n: nat, v: string)
    requires u != [] && v != [] && IsSlug(u) && IsSlug(v) && n >= 1
    ensures Hyphenate(u + Spaces(n) + v) == u + "-" + v
  {
    assert u + Spaces(n) + v == u + (Spaces(n) + v);
    assert forall k :: 0 <= k < |u| ==> !IsJsWhitespace(u[k]) by {
      assert forall k :: 0 <= k < |u| ==> SlugChar(u[k]);
    }
    assert forall k :: 0 <= k < |v| ==> !IsJsWhitespace(v[k]) by {
      assert forall k :: 0 <= k < |v| ==> SlugChar(v[k]);
    }
    HyphenateSpaceRun(u, n, v);
    HyphenateFixesSpaceless(v);
    assert Hyphenate(u + (Spaces(n) + v)) == u + ("-" + v);
    assert u + ("-" + v) == u + "-" + v;
  }

  /** A run of spaces between two words becomes exactly one hyphen. */
  lemma SlugifySpaceRun(u: string, n: nat, v: string)
    requires u != [] && v != [] && IsSlug(u) && IsSlug(v) && n >= 1
    ensures Slugify(u + Spaces(n) + v) == u + "-" + v
  {
    SpaceRunIsClean(u, n, v);
    CleanFixesCleanText(u + Spaces(n) + v);
    SpaceRunHyphenated(u, n, v);
  }

  /** A line feed between two words is deleted, not turned into a hyphen:
      "a\nb" gives "ab". */
  lemma SlugifyDeletesLineFeed(u: string, v: string)
    requires IsSlug(u) && IsSlug(v)
    ensures Slugify(u + ['\n'] + v) == u + v
  {
    assert Slugify(u + ['\n'] + v) == Slugify(u + v) by {
      ControlWhitespaceDeleted('\n');
      SlugifyIgnoresDeleted(u, '\n', v);
    }
    assert IsSlug(u + v) by {
      assert forall k :: 0 <= k < |u| ==> (u + v)[k] == u[k];
      assert forall k :: |u| <= k < |u| + |v| ==> (u + v)[k] == v[k - |u|];
    }
    SlugifyFixesSlugs(u + v);
  }

  lemma HyphenateOneSpace(u: string, v: string)
    requires forall k :: 0 <= k < |u| ==> !IsJsWhitespace(u[k])
    requires v == [] || !IsJsWhitespace(v[0])
    ensures Hyphenate(u + ([' '] + v)) == u + (['-'] + Hyphenate(v))
  {
    HyphenateAfterWord(u, [' '] + v);
    assert Hyphenate([' '] + v) == ['-'] + Hyphenate(v) by {
      var w := [' '] + v;
      assert w[1..] == v;
      assert TrimStart(w) == TrimStart(v) == v;
    }
  }

  lemma SpacedHyphenIsClean(u: string, v: string)
    requires u != [] && v != [] && IsSlug(u) && IsSlug(v)
    ensures var w := u + " - " + v;
      AllClean(w) && Trim(w) == w
  {
    assert AllClean(u) && AllClean(" - ") && AllClean(v);
    AllCleanConcat(u, " - ");
    AllCleanConcat(u + " - ", v);
    var w := u + " - " + v;
    assert w[0] == u[0] && w[|w| - 1] == v[|v| - 1];
    TrimFixes(w);
  }

  /** Text the filter and the trim leave alone is only hyphenated. */
  lemma SlugifyCleanText(w: string)
    requires AllClean(w) && Trim(w) == w
    ensures Slugify(w) == Hyphenate(w)
  {
    CleanFixesCleanText(w);
  }

  lemma HyphenTailHyphenated(v: string)
    requires IsSlug(v)
    ensures Hyphenate(['-'] + ([' '] + v)) == ['-', '-'] + v
  {
    assert v == [] || !IsJsWhitespace(v[0]);
    HyphenateOneSpace(['-'], v);
    HyphenateFixesSpaceless(v);
    assert ['-'] + (['-'] + v) == ['-', '-'] + v;
  }

  lemma SpacedHyphenHyphenated(u: string, v: string)
    requires u != [] && v != [] && IsSlug(u) && IsSlug(v)
    ensures Hyphenate(u + " - " + v) == u + "---" + v
  {
    var m := ['-'] + ([' '] + v);
    assert " - " == [' '] + ['-'] + [' '];
    assert u + " - " + v == u + ([' '] + m);
    HyphenTailHyphenated(v);
    assert forall k :: 0 <= k < |u| ==> !IsJsWhitespace(u[k]) by {
      assert forall k :: 0 <= k < |u| ==> SlugChar(u[k]);
    }
    assert m[0] == '-';
    HyphenateOneSpace(u, m);
    assert Hyphenate(u + ([' '] + m)) == u + (['-'] + (['-', '-'] + v));
    assert "---" == ['-'] + ['-', '-'];
    assert u + (['-'] + (['-', '-'] + v)) == u + "---" + v;
  }

  /** A hyphen standing between spaces is kept beside the two hyphens the
      spaces become: "a - b" gives "a---b". */
  lemma SlugifyKeepsHyphens(u: string, v: string)
    requires u != [] && v != [] && IsSlug(u) && IsSlug(v)
    ensures Slugify(u + " - " + v) == u + "---" + v
  {
    SpacedHyphenHyphenated(u, v);
    SpacedHyphenIsClean(u, v);
    SlugifyCleanText(u + " - " + v);
  }

  // ---------------------------------------------------------------------
  // Hyphens come only from whitespace between words.

  predicate NoDoubleHyphen(r: string) {
    forall k :: 0 <= k < |r| - 1 ==> !(r[k] == '-' && r[k + 1] == '-')
  }

  lemma NoDoubleHyphenCons(c: char, h: string)
    requires NoDoubleHyphen(h)
    requires c != '-' || h == [] || h[0] != '-'
    ensures NoDoubleHyphen([c] + h)
  {
    var r := [c] + h;
    forall k | 0 <= k < |r| - 1 ensures !(r[k] == '-' && r[k + 1] == '-') {
      if k > 0 {
        assert r[k] == h[k - 1] && r[k + 1] == h[k];
      }
    }
  }

  lemma {:induction false} HyphenateShape(t: string)
    requires '-' !in t
    ensures var r := Hyphenate(t);
      && (t != [] ==> r != [])
      && NoDoubleHyphen(r)
      && (t != [] && !IsJsWhitespace(t[0]) ==> r[0] != '-')
      && (t != [] && !IsJsWhitespace(t[|t| - 1]) ==> r[|r| - 1] != '-')
    decreases |t|
  {
    if t != [] {
      if IsJsWhitespace(t[0]) {
        var u := TrimStart(t);
        TrimStartSuffix(t);
        assert '-' !in u;
        HyphenateShape(u);
        var h := Hyphenate(u);
        assert Hyphenate(t) == ['-'] + h;
        NoDoubleHyphenCons('-', h);
        if !IsJsWhitespace(t[|t| - 1]) {
          assert u != [] && u[|u| - 1] == t[|t| - 1];
        }
      } else {
        var u := t[1..];
        assert '-' !in u by {
          assert forall c :: c in u ==> c in t;
        }
        HyphenateShape(u);
        var h := Hyphenate(u);
        assert Hyphenate(t) == [t[0]] + h;
        NoDoubleHyphenCons(t[0], h);
        if u != [] {
          assert u[|u| - 1] == t[|t| - 1];
        }
      }
    }
  }

  /** Text without hyphens gives a slug that neither starts nor ends with one
      and never has two in a row: each whitespace run yields a single `-`
      and whitespace at the edges yields none. */
  lemma SlugifyHyphensSeparateWords(text: string)
    requires '-' !in text
    ensures var r := Slugify(text);
      && NoDoubleHyphen(r)
      && (r != [] ==> r[0] != '-' && r[|r| - 1] != '-')
  {
    var l := LowerStr(text);
    assert '-' !in l by {
      forall k | 0 <= k < |l| ensures l[k] != '-' {
        assert text[k] in text;
      }
    }
    NfdChars(l);
    StripMarksChars(Nfd(l));
    KeepAllowedChars(StripMarks(Nfd(l)));
    assert '-' !in Clean(text);
    var t := Trim(Clean(text));
    assert '-' !in t by {
      var u := TrimStart(Clean(text));
      TrimStartSuffix(Clean(text));
      assert forall c :: c in t ==> c in u;
      assert forall c :: c in u ==> c in Clean(text);
    }
    HyphenateShape(t);
  }
}
