/** Python `str` operations the core relies on, restated over `seq<char>`.
    Case mapping is ASCII-only; whitespace and line boundaries follow the
    full character sets Python's `str.isspace` and `str.splitlines` use. */
module Text {
  import opened Wrappers

  predicate IsUpper(c: char) { 'A' <= c <= 'Z' }
  predicate IsLower(c: char) { 'a' <= c <= 'z' }
  predicate IsDigit(c: char) { '0' <= c <= '9' }
  predicate IsCased(c: char) { IsUpper(c) || IsLower(c) }

  function LowerChar(c: char): (r: char)
    ensures !IsUpper(r)
    ensures !IsUpper(c) ==> r == c
  {
    if IsUpper(c) then (c as int + 32) as char else c
  }

  function UpperChar(c: char): (r: char)
    ensures !IsLower(r)
    ensures !IsLower(c) ==> r == c
  {
    if IsLower(c) then (c as int - 32) as char else c
  }

  /** `str.lower()` */
  function Lower(s: string): (r: string)
    ensures |r| == |s|
    ensures forall i :: 0 <= i < |s| ==> r[i] == LowerChar(s[i])
  {
    seq(|s|, i requires 0 <= i < |s| => LowerChar(s[i]))
  }

  /** `str.title()`: a cased character is upper-cased when the character
      before it is not cased, and lower-cased otherwise. */
  function Title(s: string): string {
    TitleFrom(s, false)
  }

  function TitleFrom(s: string, afterCased: bool): (r: string)
    ensures |r| == |s|
    ensures forall i :: 0 <= i < |s| ==> (IsCased(r[i]) <==> IsCased(s[i]))
    ensures forall i :: 0 <= i < |s| && !IsCased(s[i]) ==> r[i] == s[i]
    ensures forall i :: 0 <= i < |s| ==> LowerChar(r[i]) == LowerChar(s[i])
  {
    if s == [] then []
    else
      var c := s[0];
      var t := if !IsCased(c) then c else if afterCased then LowerChar(c) else UpperChar(c);
      [t] + TitleFrom(s[1..], IsCased(c))
  }

  /** `s.replace(pat, sub)`: left-to-right, non-overlapping. */
  function Replace(s: string, pat: string, sub: string): string
    requires |pat| > 0
    decreases |s|
  {
    if |s| < |pat| then s
    else if s[..|pat|] == pat then sub + Replace(s[|pat|..], pat, sub)
    else [s[0]] + Replace(s[1..], pat, sub)
  }

  /** Replacing one character by another is a pointwise substitution. */
  lemma {:induction false} ReplaceChar(s: string, a: char, b: char)
    ensures |Replace(s, [a], [b])| == |s|
    ensures forall i :: 0 <= i < |s| ==>
      Replace(s, [a], [b])[i] == if s[i] == a then b else s[i]
  {
    if |s| > 0 {
      ReplaceChar(s[1..], a, b);
      assert s[..1] == [s[0]];
    }
  }

  /** `s.split(sep)` for a one-character separator. */
  function Split(s: string, sep: char): (r: seq<string>)
    ensures |r| >= 1
    ensures forall i :: 0 <= i < |r| ==> sep !in r[i]
  {
    if s == [] then [""]
    else
      var rest := Split(s[1..], sep);
      if s[0] == sep then [""] + rest else [[s[0]] + rest[0]] + rest[1..]
  }

  /** `sep.join(parts)` */
  function Join(sep: string, parts: seq<string>): string {
    if |parts| == 0 then ""
    else if |parts| == 1 then parts[0]
    else parts[0] + sep + Join(sep, parts[1..])
  }

  /** Splitting a joined sequence recovers its parts when no part contains
      the separator. */
  lemma {:induction false} SplitJoin(parts: seq<string>, sep: char)
    requires |parts| >= 1
    requires forall i :: 0 <= i < |parts| ==> sep !in parts[i]
    ensures Split(Join([sep], parts), sep) == parts
  {
    if |parts| == 1 {
      SplitNoSep(parts[0], sep);
    } else {
      SplitJoin(parts[1..], sep);
      SplitConcat(parts[0], sep, Join([sep], parts[1..]));
    }
  }

  lemma {:induction false} SplitNoSep(s: string, sep: char)
    requires sep !in s
    ensures Split(s, sep) == [s]
  {
    if s != [] {
      SplitNoSep(s[1..], sep);
      assert [s[0]] + s[1..] == s;
    }
  }

  lemma {:induction false} SplitConcat(p: string, sep: char, rest: string)
    requires sep !in p
    ensures Split(p + [sep] + rest, sep) == [p] + Split(rest, sep)
  {
    if p == [] {
      assert p + [sep] + rest == [sep] + rest;
      assert ([sep] + rest)[1..] == rest;
    } else {
      SplitConcat(p[1..], sep, rest);
      assert (p + [sep] + rest)[1..] == p[1..] + [sep] + rest;
      assert [p[0]] + p[1..] == p;
    }
  }

  /** Joining the pieces of a split recovers the original text. */
  lemma {:induction false} JoinSplit(s: string, sep: char)
    ensures Join([sep], Split(s, sep)) == s
  {
    if s != [] {
      JoinSplit(s[1..], sep);
      var rest := Split(s[1..], sep);
      if s[0] == sep {
        assert ([""] + rest)[1..] == rest;
      } else {
        if |rest| > 1 {
          assert ([[s[0]] + rest[0]] + rest[1..])[1..] == rest[1..];
        }
      }
    }
  }

  /** `s` with every character of `cs` removed. */
  function Erase(s: string, cs: set<char>): (r: string)
    ensures |r| <= |s|
    ensures forall i :: 0 <= i < |r| ==> r[i] !in cs
  {
    if s == [] then [] else (if s[0] in cs then [] else [s[0]]) + Erase(s[1..], cs)
  }

  lemma {:induction false} EraseConcat(a: string, b: string, cs: set<char>)
    ensures Erase(a + b, cs) == Erase(a, cs) + Erase(b, cs)
  {
    if a == [] {
      assert a + b == b;
    } else {
      var ab := a + b;
      var h := if a[0] in cs then [] else [a[0]];
      assert ab[0] == a[0];
      assert ab[1..] == a[1..] + b;
      EraseConcat(a[1..], b, cs);
      calc {
        Erase(ab, cs);
        h + Erase(a[1..] + b, cs);
        h + (Erase(a[1..], cs) + Erase(b, cs));
        (h + Erase(a[1..], cs)) + Erase(b, cs);
      }
    }
  }

  /** Erasing keeps exactly the characters outside `cs`. */
  lemma {:induction false} EraseMember(s: string, cs: set<char>, c: char)
    requires c !in cs
    ensures c in Erase(s, cs) <==> c in s
  {
    if s != [] {
      EraseMember(s[1..], cs, c);
      assert s == [s[0]] + s[1..];
    }
  }

  /** Erasing characters the text does not hold changes nothing. */
  lemma {:induction false} EraseAbsent(s: string, cs: set<char>, extra: set<char>)
    requires forall i :: 0 <= i < |s| ==> s[i] !in extra
    ensures Erase(s, cs + extra) == Erase(s, cs)
  {
    if s != [] {
      EraseAbsent(s[1..], cs, extra);
    }
  }

  /** Text made only of characters in `cs` erases to nothing. */
  lemma {:induction false} EraseAll(s: string, cs: set<char>)
    requires forall i :: 0 <= i < |s| ==> s[i] in cs
    ensures Erase(s, cs) == []
  {
    if s != [] {
      EraseAll(s[1..], cs);
    }
  }

  /** Inserting erased characters is invisible after erasing. */
  lemma EraseInsert(a: string, x: string, b: string, cs: set<char>)
    requires forall i :: 0 <= i < |x| ==> x[i] in cs
    ensures Erase(a + x + b, cs) == Erase(a + b, cs)
  {
    EraseConcat(a + x, b, cs);
    EraseConcat(a, x, cs);
    EraseAll(x, cs);
    EraseConcat(a, b, cs);
  }

  /** A character that does not occur in the text never matches. */
  lemma CharAbsent(s: string, c: char)
    requires c !in s
    ensures forall i: nat :: i <= |s| ==> !OccursAt(s, [c], i)
  {
    forall i: nat | i <= |s| ensures !OccursAt(s, [c], i) {
      if i < |s| {
        assert s[i..i + 1] == [s[i]];
      }
    }
  }

  /** Erasing characters outside the text leaves it unchanged. */
  lemma {:induction false} EraseNone(s: string, cs: set<char>)
    requires forall i :: 0 <= i < |s| ==> s[i] !in cs
    ensures Erase(s, cs) == s
  {
    if s != [] {
      EraseNone(s[1..], cs);
      assert [s[0]] + s[1..] == s;
    }
  }

  lemma {:induction false} EraseTwice(s: string, a: set<char>, b: set<char>)
    ensures Erase(Erase(s, a), b) == Erase(s, a + b)
  {
    if s != [] {
      EraseTwice(s[1..], a, b);
      if s[0] !in a {
        assert Erase(s, a) == [s[0]] + Erase(s[1..], a);
        EraseConcat([s[0]], Erase(s[1..], a), b);
        assert [s[0]][1..] == [];
        assert Erase([s[0]], b) == if s[0] in b then [] else [s[0]];
      } else {
        assert Erase(s, a) == Erase(s[1..], a);
      }
    }
  }

  /** Replacing a pattern of erased characters by another one is invisible
      after erasing. */
  lemma {:induction false} EraseReplace(s: string, pat: string, sub: string, cs: set<char>)
    requires |pat| > 0
    requires forall i :: 0 <= i < |pat| ==> pat[i] in cs
    requires forall i :: 0 <= i < |sub| ==> sub[i] in cs
    ensures Erase(Replace(s, pat, sub), cs) == Erase(s, cs)
    decreases |s|
  {
    if |s| >= |pat| {
      if s[..|pat|] == pat {
        EraseReplace(s[|pat|..], pat, sub, cs);
        EraseConcat(sub, Replace(s[|pat|..], pat, sub), cs);
        EraseAll(sub, cs);
        assert s == pat + s[|pat|..];
        EraseConcat(pat, s[|pat|..], cs);
        EraseAll(pat, cs);
      } else {
        EraseReplace(s[1..], pat, sub, cs);
        EraseConcat([s[0]], Replace(s[1..], pat, sub), cs);
        assert s == [s[0]] + s[1..];
        EraseConcat([s[0]], s[1..], cs);
      }
    }
  }

  /** Lower-casing commutes with erasing characters that have no case. */
  lemma {:induction false} EraseLower(s: string, cs: set<char>)
    requires forall c :: c in cs ==> !IsCased(c)
    ensures Erase(Lower(s), cs) == Lower(Erase(s, cs))
  {
    if s != [] {
      EraseLower(s[1..], cs);
      LowerKeeps(s[0], cs);
      assert s == [s[0]] + s[1..];
      LowerConcat([s[0]], s[1..]);
      EraseConcat([LowerChar(s[0])], Lower(s[1..]), cs);
      EraseConcat([s[0]], s[1..], cs);
      LowerConcat(Erase([s[0]], cs), Erase(s[1..], cs));
    }
  }

  /** Lower-casing a character never moves it in or out of a set of
      characters without case. */
  lemma LowerKeeps(c: char, cs: set<char>)
    requires forall c :: c in cs ==> !IsCased(c)
    ensures Erase(Lower([c]), cs) == Lower(Erase([c], cs))
  {
    assert Lower([c]) == [LowerChar(c)];
    assert IsUpper(c) ==> IsCased(LowerChar(c));
  }

  /** `pat` occurs in `s` at position `i`. */
  predicate OccursAt(s: string, pat: string, i: nat) {
    i + |pat| <= |s| && s[i..i + |pat|] == pat
  }

  /** A pattern that never occurs leaves the text as it is. */
  lemma {:induction false} ReplaceAbsent(s: string, pat: string, sub: string)
    requires |pat| > 0
    requires forall i: nat :: i <= |s| ==> !OccursAt(s, pat, i)
    ensures Replace(s, pat, sub) == s
    decreases |s|
  {
    if |s| >= |pat| {
      assert !OccursAt(s, pat, 0);
      assert s[0..|pat|] == s[..|pat|];
      forall i: nat | i <= |s[1..]| ensures !OccursAt(s[1..], pat, i) {
        assert !OccursAt(s, pat, i + 1);
        if i + |pat| <= |s[1..]| {
          assert s[1..][i..i + |pat|] == s[i + 1..i + 1 + |pat|];
        }
      }
      ReplaceAbsent(s[1..], pat, sub);
      assert [s[0]] + s[1..] == s;
    }
  }

  /** `''.join(parts)` */
  function Concat(parts: seq<string>): (r: string)
    ensures |parts| == 1 ==> r == parts[0]
  {
    if parts == [] then "" else parts[0] + Concat(parts[1..])
  }

  /** Gluing the pieces of a split back without the separator erases it. */
  lemma {:induction false} ConcatSplit(s: string, sep: char)
    ensures Concat(Split(s, sep)) == Erase(s, {sep})
  {
    if s != [] {
      ConcatSplit(s[1..], sep);
      var rest := Split(s[1..], sep);
      if s[0] == sep {
        assert ([""] + rest)[1..] == rest;
      } else {
        var r := [[s[0]] + rest[0]] + rest[1..];
        assert r[1..] == rest[1..];
        assert Concat(rest) == rest[0] + Concat(rest[1..]);
      }
    }
  }

  lemma {:induction false} LowerConcat(a: string, b: string)
    ensures Lower(a + b) == Lower(a) + Lower(b)
  {
  }

  /** The whitespace characters of Python's `str.isspace`. */
  const Whitespace: set<char> := {
    '\t', '\n', '\U{B}', '\U{C}', '\r', '\U{1C}', '\U{1D}', '\U{1E}', '\U{1F}', ' ',
    '\U{85}', '\U{A0}', '\U{1680}', '\U{2000}', '\U{2001}', '\U{2002}', '\U{2003}', '\U{2004}',
    '\U{2005}', '\U{2006}', '\U{2007}', '\U{2008}', '\U{2009}', '\U{200A}', '\U{2028}', '\U{2029}',
    '\U{202F}', '\U{205F}', '\U{3000}'
  }

  /** `s.rstrip(chars)`: the longest prefix of `s` whose removed tail
      consists only of characters in `cs`. */
  function RStrip(s: string, cs: set<char>): (r: string)
    ensures r <= s
    ensures |r| == 0 || r[|r| - 1] !in cs
    ensures forall i :: |r| <= i < |s| ==> s[i] in cs
  {
    if |s| > 0 && s[|s| - 1] in cs then RStrip(s[..|s| - 1], cs) else s
  }

  /** `s.lstrip(chars)`: the longest suffix of `s` whose removed head
      consists only of characters in `cs`. */
  function LStrip(s: string, cs: set<char>): (r: string)
    ensures |r| <= |s| && r == s[|s| - |r|..]
    ensures |r| == 0 || r[0] !in cs
    ensures forall i :: 0 <= i < |s| - |r| ==> s[i] in cs
  {
    if |s| > 0 && s[0] in cs then LStrip(s[1..], cs) else s
  }

  /** `s.strip()` */
  function Strip(s: string): string {
    LStrip(RStrip(s, Whitespace), Whitespace)
  }

  /** The line boundaries of Python's `str.splitlines` (`\r\n` counts as one). */
  const LineBreaks: set<char> := {
    '\n', '\r', '\U{B}', '\U{C}', '\U{1C}', '\U{1D}', '\U{1E}', '\U{85}', '\U{2028}', '\U{2029}'
  }

  /** Index of the first line boundary, or `|s|` when there is none. */
  function FirstBreak(s: string): (k: nat)
    ensures k <= |s|
    ensures k < |s| ==> s[k] in LineBreaks
    ensures forall i :: 0 <= i < k ==> s[i] !in LineBreaks
  {
    if s == [] || s[0] in LineBreaks then 0 else 1 + FirstBreak(s[1..])
  }

  /** `s.splitlines()` without kept ends. */
  function SplitLines(s: string): (r: seq<string>)
    ensures forall i :: 0 <= i < |r| ==> forall j :: 0 <= j < |r[i]| ==> r[i][j] !in LineBreaks
    ensures s != [] ==> |r| >= 1
    decreases |s|
  {
    if s == [] then []
    else
      var k := FirstBreak(s);
      if k == |s| then [s]
      else
        var w := if s[k] == '\r' && k + 1 < |s| && s[k + 1] == '\n' then 2 else 1;
        [s[..k]] + SplitLines(s[k + w..])
  }

  function DigitChar(d: nat): (c: char)
    requires d < 10
    ensures IsDigit(c)
  {
    ('0' as int + d) as char
  }

  function DigitValue(c: char): (d: nat)
    requires IsDigit(c)
    ensures d < 10 && DigitChar(d) == c
  {
    c as int - '0' as int
  }

  /** `str(n)` for a natural number. */
  function NatToString(n: nat): (r: string)
    ensures |r| > 0
    ensures forall i :: 0 <= i < |r| ==> IsDigit(r[i])
    decreases n
  {
    if n < 10 then [DigitChar(n)] else NatToString(n / 10) + [DigitChar(n % 10)]
  }

  /** `str(i)` for an integer. */
  function IntToString(i: int): string {
    if i < 0 then "-" + NatToString(-i) else NatToString(i)
  }

  /** The digit groups Python's `int()` accepts: ASCII digits with single
      underscores between them. */
  predicate IsDigitBody(s: string) {
    && |s| > 0 && IsDigit(s[0]) && IsDigit(s[|s| - 1])
    && (forall i :: 0 <= i < |s| ==> IsDigit(s[i]) || s[i] == '_')
    && (forall i :: 0 <= i < |s| - 1 ==> !(s[i] == '_' && s[i + 1] == '_'))
  }

  /** The value of a digit body, reading digits left to right and skipping underscores. */
  function DigitsValue(s: string): nat
    requires forall i :: 0 <= i < |s| ==> IsDigit(s[i]) || s[i] == '_'
  {
    if s == [] then 0
    else if s[|s| - 1] == '_' then DigitsValue(s[..|s| - 1])
    else 10 * DigitsValue(s[..|s| - 1]) + DigitValue(s[|s| - 1])
  }

  /** Python's `int(s)` for a string in base 10: `None` stands for the
      `ValueError` it raises. */
  function ParseInt(s: string): Option<int> {
    var t := Strip(s);
    if |t| > 0 && (t[0] == '-' || t[0] == '+') then
      var body := t[1..];
      if IsDigitBody(body) then
        var v: int := DigitsValue(body);
        Some(if t[0] == '-' then -v else v)
      else None
    else if IsDigitBody(t) then Some(DigitsValue(t))
    else None
  }

  lemma {:induction false} DigitsOfNat(n: nat)
    ensures DigitsValue(NatToString(n)) == n
    decreases n
  {
    var s := NatToString(n);
    if n >= 10 {
      DigitsOfNat(n / 10);
      assert s[..|s| - 1] == NatToString(n / 10);
    }
  }

  /** Text that starts and ends with a non-space is left alone by `strip()`. */
  lemma StripUnchanged(s: string)
    requires |s| > 0 && s[0] !in Whitespace && s[|s| - 1] !in Whitespace
    ensures Strip(s) == s
  {
    assert RStrip(s, Whitespace) == s;
  }

  /** `int(str(i)) == i`: printing and parsing an integer round-trips. */
  lemma ParseIntToString(i: int)
    ensures ParseInt(IntToString(i)) == Some(i)
  {
    if i < 0 {
      var n: nat := -i;
      DigitsOfNat(n);
      NatDigitBody(n);
      ParseNegative(i, NatToString(n));
    } else {
      ParseNatural(i);
    }
  }

  /** The decimal digits of a number form a digit body. */
  lemma NatDigitBody(n: nat)
    ensures IsDigitBody(NatToString(n))
  {
    var digits := NatToString(n);
    assert IsDigit(digits[0]) && IsDigit(digits[|digits| - 1]);
  }

  /** No ASCII digit is whitespace. */
  lemma DigitNotSpace(c: char)
    requires IsDigit(c)
    ensures c !in Whitespace
  {
  }

  lemma ParseNatural(n: nat)
    ensures ParseInt(NatToString(n)) == Some(n)
  {
    var s := NatToString(n);
    DigitsOfNat(n);
    NatDigitBody(n);
    DigitNotSpace(s[0]);
    DigitNotSpace(s[|s| - 1]);
    StripUnchanged(s);
  }

  lemma ParseNegative(i: int, d: string)
    requires i < 0 && d == NatToString(-i) && IsDigitBody(d) && DigitsValue(d) == -i
    ensures ParseInt(IntToString(i)) == Some(i)
  {
    ParseNegativeBody(d, -i);
  }

  /** A minus sign before a digit body negates its value. */
  lemma ParseNegativeBody(d: string, v: nat)
    requires IsDigitBody(d) && DigitsValue(d) == v
    ensures ParseInt("-" + d) == Some(-(v as int))
  {
    var s := "-" + d;
    assert s[0] == '-' && '-' !in Whitespace;
    assert s[|s| - 1] == d[|d| - 1];
    DigitNotSpace(s[|s| - 1]);
    StripUnchanged(s);
    assert s[1..] == d;
  }

  /** Python's `<` on strings: code point by code point, a proper prefix
      first. */
  predicate StrLess(a: string, b: string) {
    if a == [] then b != []
    else if b == [] then false
    else if a[0] != b[0] then a[0] < b[0]
    else StrLess(a[1..], b[1..])
  }

  lemma {:induction false} StrLessIrreflexive(a: string)
    ensures !StrLess(a, a)
  {
    if a != [] {
      StrLessIrreflexive(a[1..]);
    }
  }

  lemma {:induction false} StrLessTransitive(a: string, b: string, c: string)
    requires StrLess(a, b) && StrLess(b, c)
    ensures StrLess(a, c)
  {
    if a != [] && b != [] && c != [] && a[0] == b[0] && b[0] == c[0] {
      StrLessTransitive(a[1..], b[1..], c[1..]);
    }
  }

  /** Two different strings are ordered one way or the other. */
  lemma {:induction false} StrLessTotal(a: string, b: string)
    requires a != b
    ensures StrLess(a, b) || StrLess(b, a)
  {
    if a != [] && b != [] && a[0] == b[0] {
      assert a == [a[0]] + a[1..] && b == [b[0]] + b[1..];
      StrLessTotal(a[1..], b[1..]);
    }
  }

  /** Index of the first `c` in `s`, or `|s|` when there is none. */
  function Find(s: string, c: char): (k: nat)
    ensures k <= |s|
    ensures k < |s| ==> s[k] == c
    ensures forall i :: 0 <= i < k ==> s[i] != c
  {
    if s == [] || s[0] == c then 0 else 1 + Find(s[1..], c)
  }

  /** The first `c` after a prefix without one. */
  lemma FindPast(a: string, b: string, c: char)
    requires c !in a && |b| > 0 && b[0] == c
    ensures Find(a + b, c) == |a|
  {
    assert forall i :: 0 <= i < |a| ==> (a + b)[i] == a[i];
    assert (a + b)[|a|] == c;
  }
}
