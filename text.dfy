/** String helpers shared by the page-enhancement rules: JavaScript's
    `String.prototype.split` on a one-character separator and its inverse,
    the part before the first occurrence of a character, the part after the
    last one, decimal numerals (`String(i)` and `parseInt(s, 10)`),
    `toLowerCase` and the ECMAScript whitespace class used by `trim` and `\s`. */
module Text {

  datatype Option<T> = None | Some(value: T)

  /** `el.getAttribute(name) || ''`: an absent attribute (`null`) reads as
      the empty string, and a present one as its value. */
  function AttrOrEmpty(value: Option<string>): string {
    match value
    case None => ""
    case Some(v) => v
  }

  /** Joins parts with one separator between neighbours (`parts.join(sep)`). */
  function Join(parts: seq<string>, sep: char): string
    requires |parts| >= 1
    decreases |parts|
  {
    if |parts| == 1 then parts[0] else parts[0] + [sep] + Join(parts[1..], sep)
  }

  /** `s.split(sep)` for a one-character separator: the maximal pieces of `s`
      between occurrences of `sep`, an empty string giving one empty piece. */
  function Split(s: string, sep: char): (parts: seq<string>)
    ensures |parts| >= 1
    ensures forall k :: 0 <= k < |parts| ==> sep !in parts[k]
    ensures Join(parts, sep) == s
    decreases |s|
  {
    if s == [] then [[]]
    else
      var rest := Split(s[1..], sep);
      if s[0] == sep then
        assert ([[]] + rest)[1..] == rest;
        [[]] + rest
      else
        var parts := [[s[0]] + rest[0]] + rest[1..];
        assert parts[1..] == rest[1..];
        assert |rest| > 1 ==> Join(rest, sep) == rest[0] + [sep] + Join(rest[1..], sep);
        assert s == [s[0]] + s[1..];
        parts
  }

  lemma {:induction false} SplitNoSeparator(a: string, sep: char)
    requires sep !in a
    ensures Split(a, sep) == [a]
    decreases |a|
  {
    if a != [] {
      SplitNoSeparator(a[1..], sep);
      assert [a[0]] + a[1..] == a;
    }
  }

  lemma {:induction false} SplitAtSeparator(a: string, b: string, sep: char)
    requires sep !in a
    ensures Split(a + [sep] + b, sep) == [a] + Split(b, sep)
    decreases |a|
  {
    if a == [] {
      assert a + [sep] + b == [sep] + b;
      assert ([sep] + b)[1..] == b;
    } else {
      assert (a + [sep] + b)[1..] == a[1..] + [sep] + b;
      SplitAtSeparator(a[1..], b, sep);
      assert [a[0]] + a[1..] == a;
    }
  }

  /** Splitting a join of separator-free parts gives the parts back. */
  lemma {:induction false} SplitJoin(parts: seq<string>, sep: char)
    requires |parts| >= 1
    requires forall k :: 0 <= k < |parts| ==> sep !in parts[k]
    ensures Split(Join(parts, sep), sep) == parts
    decreases |parts|
  {
    if |parts| == 1 {
      SplitNoSeparator(parts[0], sep);
    } else {
      SplitJoin(parts[1..], sep);
      SplitAtSeparator(parts[0], Join(parts[1..], sep), sep);
      assert [parts[0]] + parts[1..] == parts;
    }
  }

  /** The part of `s` before the first `c`, all of `s` when there is none. */
  function BeforeFirst(s: string, c: char): (r: string)
    ensures c !in r
    ensures r <= s
    ensures |r| < |s| ==> s[|r|] == c
    decreases |s|
  {
    if s == [] || s[0] == c then [] else [s[0]] + BeforeFirst(s[1..], c)
  }

  /** A prefix free of `c` passes through `BeforeFirst` unchanged. */
  lemma {:induction false} BeforeFirstConcat(a: string, b: string, c: char)
    requires c !in a
    ensures BeforeFirst(a + b, c) == a + BeforeFirst(b, c)
    decreases |a|
  {
    if a == [] {
      assert a + b == b;
    } else {
      assert (a + b)[0] == a[0] && (a + b)[1..] == a[1..] + b;
      assert a[0] != c;
      assert BeforeFirst(a + b, c) == [a[0]] + BeforeFirst(a[1..] + b, c);
      BeforeFirstConcat(a[1..], b, c);
      assert [a[0]] + (a[1..] + BeforeFirst(b, c)) == a + BeforeFirst(b, c);
    }
  }

  /** The part of `s` after the last `c`, all of `s` when there is none. */
  function AfterLast(s: string, c: char): (r: string)
    ensures c !in r
    ensures |r| <= |s|
    ensures |r| < |s| ==> s[|s| - |r| - 1] == c
    decreases |s|
  {
    if s == [] || s[|s| - 1] == c then [] else AfterLast(s[..|s| - 1], c) + [s[|s| - 1]]
  }

  /** `AfterLast` keeps a suffix. Stated apart from the function so that the
      slice is only in scope where a proof asks for it. */
  lemma {:induction false} AfterLastSuffix(s: string, c: char)
    ensures AfterLast(s, c) == s[|s| - |AfterLast(s, c)|..]
    decreases |s|
  {
    if s != [] && s[|s| - 1] != c {
      var t := s[..|s| - 1];
      AfterLastSuffix(t, c);
      var r := AfterLast(s, c);
      assert r == AfterLast(t, c) + [s[|s| - 1]];
      assert t[|s| - |r|..] + [s[|s| - 1]] == s[|s| - |r|..];
    }
  }

  /** `BeforeFirst` is the first piece of `s.split(c)`. */
  lemma {:induction false} BeforeFirstIsFirstPart(s: string, c: char)
    ensures BeforeFirst(s, c) == Split(s, c)[0]
    decreases |s|
  {
    if s != [] && s[0] != c {
      BeforeFirstIsFirstPart(s[1..], c);
    }
  }

  /** How `AfterLast` sees a character put in front. */
  lemma {:induction false} AfterLastCons(x: char, t: string, c: char)
    ensures AfterLast([x] + t, c) == if c in t then AfterLast(t, c) else if x == c then t else [x] + t
    decreases |t|
  {
    var s := [x] + t;
    if t == [] {
      assert s[..|s| - 1] == [];
    } else {
      var y := t[|t| - 1];
      var u := t[..|t| - 1];
      assert s[|s| - 1] == y;
      assert s[..|s| - 1] == [x] + u;
      assert t == u + [y];
      if y == c {
        assert AfterLast(s, c) == [] && AfterLast(t, c) == [];
      } else {
        assert AfterLast(s, c) == AfterLast([x] + u, c) + [y];
        assert AfterLast(t, c) == AfterLast(u, c) + [y];
        AfterLastCons(x, u, c);
        assert c in t <==> c in u;
        if c !in u && x != c {
          assert [x] + u + [y] == [x] + t;
        }
      }
    }
  }

  /** Text in front of a separator does not change `AfterLast`. */
  lemma {:induction false} AfterLastPrefix(u: string, t: string, c: char)
    requires c in t
    ensures AfterLast(u + t, c) == AfterLast(t, c)
    decreases |u|
  {
    if u != [] {
      assert u + t == [u[0]] + (u[1..] + t);
      AfterLastPrefix(u[1..], t, c);
      AfterLastCons(u[0], u[1..] + t, c);
      assert c in u[1..] + t by {
        var k :| 0 <= k < |t| && t[k] == c;
        assert (u[1..] + t)[|u| - 1 + k] == c;
      }
    } else {
      assert u + t == t;
    }
  }

  lemma AfterLastNoSeparator(t: string, c: char)
    requires c !in t
    ensures AfterLast(t, c) == t
  {
    AfterLastSuffix(t, c);
    if |AfterLast(t, c)| < |t| {
      assert false;
    }
  }

  /** `s.split(c)` has a single piece exactly when `c` does not occur. */
  lemma SplitSingleExactly(t: string, c: char)
    ensures |Split(t, c)| == 1 <==> c !in t
  {
    if c !in t {
      SplitNoSeparator(t, c);
    } else if |Split(t, c)| == 1 {
      assert false;
    }
  }

  /** How `Split` sees a character put in front. */
  lemma SplitCons(x: char, t: string, c: char)
    ensures Split([x] + t, c) ==
      if x == c then [[]] + Split(t, c) else [[x] + Split(t, c)[0]] + Split(t, c)[1..]
  {
    assert ([x] + t)[1..] == t;
  }

  /** `AfterLast` is the last piece of `s.split(c)`, that is `s.split(c).pop()`. */
  lemma {:induction false} AfterLastIsLastPart(s: string, c: char)
    ensures AfterLast(s, c) == Split(s, c)[|Split(s, c)| - 1]
    decreases |s|
  {
    if s != [] {
      var x := s[0];
      var t := s[1..];
      assert s == [x] + t;
      var rest := Split(t, c);
      var parts := Split(s, c);
      SplitCons(x, t, c);
      AfterLastCons(x, t, c);
      if c in t {
        AfterLastIsLastPart(t, c);
        SplitSingleExactly(t, c);
        assert parts[|parts| - 1] == rest[|rest| - 1];
      } else {
        AfterLastNoSeparator(t, c);
        SplitNoSeparator(t, c);
        assert rest == [t];
        assert parts[|parts| - 1] == if x == c then t else [x] + t;
      }
    }
  }

  predicate IsDigit(c: char) {
    '0' <= c <= '9'
  }

  predicate AllDigits(s: string) {
    forall k :: 0 <= k < |s| ==> IsDigit(s[k])
  }

  /** The value of a decimal numeral, as `parseInt(s, 10)` reads an all-digit string. */
  function DecimalValue(s: string): nat
    requires AllDigits(s)
    decreases |s|
  {
    if s == [] then 0
    else DecimalValue(s[..|s| - 1]) * 10 + (s[|s| - 1] as int - '0' as int)
  }

  function DigitChar(d: nat): char
    requires d < 10
  {
    ('0' as int + d) as char
  }

  /** The decimal numeral of `n` without leading zeros, as `String(n)` writes it. */
  function NatToString(n: nat): (s: string)
    ensures |s| >= 1 && AllDigits(s)
    ensures |s| > 1 ==> s[0] != '0'
    ensures DecimalValue(s) == n
    decreases n
  {
    if n < 10 then [DigitChar(n)]
    else
      var s := NatToString(n / 10) + [DigitChar(n % 10)];
      assert s[..|s| - 1] == NatToString(n / 10);
      s
  }

  predicate IsAsciiUpper(c: char) {
    'A' <= c <= 'Z'
  }

  /** Upper-case letters of the Latin-1 Supplement, U+00C0 to U+00DE without U+00D7. */
  predicate IsLatin1Upper(c: char) {
    '\U{C0}' <= c <= '\U{DE}' && c != '\U{D7}'
  }

  /** `toLowerCase` on one character, for ASCII and Latin-1 letters. */
  function LowerChar(c: char): (r: char)
    ensures !IsAsciiUpper(r) && !IsLatin1Upper(r)
    ensures r != c ==> IsAsciiUpper(c) || IsLatin1Upper(c)
    ensures IsAsciiUpper(c) ==> 'a' <= r <= 'z'
  {
    if IsAsciiUpper(c) || IsLatin1Upper(c) then (c as int + 32) as char else c
  }

  /** `toLowerCase`: the same length, with no ASCII or Latin-1 capital left. */
  function LowerStr(s: string): (r: string)
    ensures |r| == |s|
    ensures forall k :: 0 <= k < |r| ==> !IsAsciiUpper(r[k]) && !IsLatin1Upper(r[k])
  {
    seq(|s|, k requires 0 <= k < |s| => LowerChar(s[k]))
  }

  /** The ECMAScript WhiteSpace and LineTerminator characters: what `trim`
      removes and what `\s` matches. U+0009 to U+000D are tab, line feed,
      vertical tab, form feed and carriage return. */
  predicate IsJsWhitespace(c: char) {
    c == ' ' || ('\t' <= c <= '\r') || ('\U{A0}' <= c && IsNonAsciiSpace(c))
  }

  /** No-break space, the Unicode space separators (category Zs), the line
      and paragraph separators and the byte order mark. */
  predicate IsNonAsciiSpace(c: char) {
    c == '\U{A0}' || c == '\U{1680}' || ('\U{2000}' <= c <= '\U{200A}')
    || c == '\U{2028}' || c == '\U{2029}' || c == '\U{202F}' || c == '\U{205F}'
    || c == '\U{3000}' || c == '\U{FEFF}'
  }
}
