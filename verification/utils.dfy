/** The name-case conversions, `try_int` and the preset spec names of
    `esi/utils.py`. The conversions are named after the source: the one
    called "camel case" produces snake_case and the one called "snake case"
    produces camelCase. */
module Utils {
  import opened Wrappers
  import opened Text
  import opened Bytes
  import opened Nodes

  /** `SWAGGER_SPEC_URLS`: the preset document names. */
  const SpecUrls: seq<string> := ["legacy", "latest", "dev", "_legacy", "_latest", "_dev"]

  /** `SWAGGER_BASE_URL` with the name filled in. */
  function SpecUrl(spec: string): (u: string)
    ensures |u| == |spec| + 37
    ensures u[..24] == "https://esi.evetech.net/"
    ensures u[24..] == spec + "/swagger.json"
  {
    "https://esi.evetech.net/" + spec + "/swagger.json"
  }

  /** The separators every conversion treats as word boundaries. */
  const Seps: set<char> := {'_', '-', ' '}

  /** Length of the run of lower-case letters at the start of `s`. */
  function LowerRun(s: string): (k: nat)
    ensures k <= |s|
    ensures forall i :: 0 <= i < k ==> IsLower(s[i])
    ensures k < |s| ==> !IsLower(s[k])
  {
    if s != [] && IsLower(s[0]) then 1 + LowerRun(s[1..]) else 0
  }

  /** `FIRST_CAPS.sub(r'\1_\2', s)` for `(.)([A-Z][a-z]+)`: an underscore
      goes before every capitalised word that follows some character other
      than a newline; matches do not overlap. */
  function FirstCaps(s: string): string
    decreases |s|
  {
    if |s| < 3 then s
    else if s[0] != '\n' && IsUpper(s[1]) && IsLower(s[2]) then
      var k := 2 + LowerRun(s[2..]);
      [s[0]] + "_" + s[1..k] + FirstCaps(s[k..])
    else [s[0]] + FirstCaps(s[1..])
  }

  /** `ALL_CAPS.sub(r'\1_\2', s)` for `([a-z0-9])([A-Z])`. */
  function AllCaps(s: string): string
    decreases |s|
  {
    if |s| < 2 then s
    else if (IsLower(s[0]) || IsDigit(s[0])) && IsUpper(s[1]) then
      [s[0], '_', s[1]] + AllCaps(s[2..])
    else [s[0]] + AllCaps(s[1..])
  }

  /** The first step of both snake and camel conversions: `-` and space
      become `_`. */
  function Spaced(name: string): string {
    Replace(Replace(name, "-", "_"), " ", "_")
  }

  /** `to_camel_case(name)`; despite its name it yields snake_case. */
  function ToCamelCase(name: string): string {
    var spaced := Spaced(name);
    Replace(Lower(AllCaps(FirstCaps(spaced))), "__", "_")
  }

  /** `str.title` applied to each part. */
  function TitleAll(ps: seq<string>): (r: seq<string>)
    ensures |r| == |ps|
    ensures forall i :: 0 <= i < |ps| ==> r[i] == Title(ps[i])
  {
    seq(|ps|, i requires 0 <= i < |ps| => Title(ps[i]))
  }

  /** `to_snake_case(name)`; despite its name it yields camelCase. */
  function ToSnakeCase(name: string): string {
    var parts := Split(Spaced(name), '_');
    Lower(parts[0]) + Concat(TitleAll(parts[1..]))
  }

  /** `to_pascal_case(name, allow_double_under)` */
  function ToPascalCase(name: string, allowDoubleUnder: bool): string {
    Concat(TitleAll(Split(Dashed(name, allowDoubleUnder), '-')))
  }

  /** The text `to_pascal_case` splits: `_` and space become `-`, except
      that with `allow_double_under` a `__` becomes `_-`. */
  function Dashed(name: string, allowDoubleUnder: bool): string {
    var dashed := Replace(name, "_", "-");
    var kept := if allowDoubleUnder then Replace(dashed, "--", "_-") else dashed;
    Replace(kept, " ", "-")
  }

  /** `int(f)` for a float: truncation toward zero. */
  function Truncate(f: real): (i: int)
    ensures 0.0 <= f ==> 0 <= i && i as real <= f < i as real + 1.0
    ensures f < 0.0 ==> i <= 0 && i as real - 1.0 < f <= i as real
  {
    if f >= 0.0 then f.Floor else -((-f).Floor)
  }

  /** What `int(x)` does: an integer, a `ValueError` for text that is not
      an integer literal, or a `TypeError` for a value `int` does not
      accept. */
  datatype IntCast = IntIs(i: int) | BadLiteral | NotNumeric

  function IntOf(x: Value): (r: IntCast)
    ensures x.VInt? ==> r == IntIs(x.i)
    ensures x.VStr? ==> r == if ParseInt(x.s).Some? then IntIs(ParseInt(x.s).value) else BadLiteral
    ensures r.NotNumeric? <==> !(x.VInt? || x.VBool? || x.VFloat? || x.VDecimal? || x.VStr? || x.VBytes?)
  {
    match x
    case VInt(i) => IntIs(i)
    case VBool(b) => IntIs(if b then 1 else 0)
    case VFloat(f) => IntIs(Truncate(f))
    case VDecimal(d) => IntIs(Truncate(d))
    case VStr(s) =>
      (match ParseInt(s) case Some(i) => IntIs(i) case None => BadLiteral)
    case VBytes(b) =>
      if forall i :: 0 <= i < |b| ==> b[i] < 0x80 then
        var s := seq(|b|, i requires 0 <= i < |b| => b[i] as char);
        (match ParseInt(s) case Some(i) => IntIs(i) case None => BadLiteral)
      else BadLiteral
    case _ => NotNumeric
  }

  /** `try_int(x, default)`: the value `int(x)` gives, `default` when
      `int` raises `ValueError`; `None` stands for any other exception
      (a `TypeError` on values `int` does not accept), which escapes. */
  function TryInt(x: Value, default: Value): (r: Option<Value>)
    ensures x.VInt? ==> r == Some(x)
    ensures x.VStr? && ParseInt(x.s).Some? ==> r == Some(VInt(ParseInt(x.s).value))
    ensures x.VStr? && ParseInt(x.s).None? ==> r == Some(default)
    ensures r.None? <==> !(x.VInt? || x.VBool? || x.VFloat? || x.VDecimal? || x.VStr? || x.VBytes?)
    ensures r.Some? && r != Some(default) ==> r.value.VInt?
  {
    match IntOf(x)
    case IntIs(i) => Some(VInt(i))
    case BadLiteral => Some(default)
    case NotNumeric => None
  }

  /** Printing an integer and reading it back with `try_int` round-trips. */
  lemma TryIntToString(i: int, default: Value)
    ensures TryInt(VStr(IntToString(i)), default) == Some(VInt(i))
  {
    ParseIntToString(i);
  }

  // Structure of the case conversions.

  lemma {:induction false} FirstCapsErase(s: string)
    ensures Erase(FirstCaps(s), {'_'}) == Erase(s, {'_'})
    decreases |s|
  {
    if |s| >= 3 {
      if s[0] != '\n' && IsUpper(s[1]) && IsLower(s[2]) {
        var k := 2 + LowerRun(s[2..]);
        FirstCapsErase(s[k..]);
        FirstCapsEraseWord(s, k);
      } else {
        FirstCapsErase(s[1..]);
        FirstCapsEraseSkip(s);
      }
    }
  }

  /** The step of `FirstCapsErase` that inserts an underscore. */
  lemma FirstCapsEraseWord(s: string, k: nat)
    requires |s| >= 3 && s[0] != '\n' && IsUpper(s[1]) && IsLower(s[2])
    requires k == 2 + LowerRun(s[2..])
    requires Erase(FirstCaps(s[k..]), {'_'}) == Erase(s[k..], {'_'})
    ensures Erase(FirstCaps(s), {'_'}) == Erase(s, {'_'})
  {
    FirstCapsWord(s, k);
    EraseUnderscore([s[0]], s[1..k], s[k..], FirstCaps(s[k..]));
    HeadMidRest(s, k);
  }

  lemma HeadMidRest(s: string, k: nat)
    requires 1 <= k <= |s|
    ensures [s[0]] + s[1..k] + s[k..] == s
  {
    assert [s[0]] + s[1..k] == s[..k];
  }

  /** An inserted underscore disappears under erasure. */
  lemma EraseUnderscore(head: string, mid: string, rest: string, fr: string)
    requires Erase(fr, {'_'}) == Erase(rest, {'_'})
    ensures Erase(head + "_" + mid + fr, {'_'}) == Erase(head + mid + rest, {'_'})
  {
    var u := {'_'};
    calc {
      Erase(head + "_" + mid + fr, u);
      { assert head + "_" + mid + fr == head + "_" + (mid + fr); }
      Erase(head + "_" + (mid + fr), u);
      { EraseInsert(head, "_", mid + fr, u); }
      Erase(head + (mid + fr), u);
      { assert head + (mid + fr) == (head + mid) + fr; }
      Erase((head + mid) + fr, u);
      { EraseConcat(head + mid, fr, u); }
      Erase(head + mid, u) + Erase(fr, u);
      Erase(head + mid, u) + Erase(rest, u);
      { EraseConcat(head + mid, rest, u); }
      Erase(head + mid + rest, u);
    }
  }

  /** One capitalised word: an underscore goes before it. */
  lemma FirstCapsWord(s: string, k: nat)
    requires |s| >= 3 && s[0] != '\n' && IsUpper(s[1]) && IsLower(s[2])
    requires k == 2 + LowerRun(s[2..])
    ensures FirstCaps(s) == [s[0]] + "_" + s[1..k] + FirstCaps(s[k..])
  {
  }

  /** The step of `FirstCapsErase` that copies one character. */
  lemma FirstCapsEraseSkip(s: string)
    requires |s| >= 3 && !(s[0] != '\n' && IsUpper(s[1]) && IsLower(s[2]))
    requires Erase(FirstCaps(s[1..]), {'_'}) == Erase(s[1..], {'_'})
    ensures Erase(FirstCaps(s), {'_'}) == Erase(s, {'_'})
  {
    var head := [s[0]];
    EraseConcat(head, FirstCaps(s[1..]), {'_'});
    assert s == head + s[1..];
    EraseConcat(head, s[1..], {'_'});
  }

  lemma {:induction false} AllCapsErase(s: string)
    ensures Erase(AllCaps(s), {'_'}) == Erase(s, {'_'})
    decreases |s|
  {
    if |s| >= 2 {
      var head := [s[0]];
      if (IsLower(s[0]) || IsDigit(s[0])) && IsUpper(s[1]) {
        var rest := [s[1]] + AllCaps(s[2..]);
        AllCapsErase(s[2..]);
        assert AllCaps(s) == head + "_" + rest;
        EraseInsert(head, "_", rest, {'_'});
        assert head + rest == [s[0], s[1]] + AllCaps(s[2..]);
        EraseConcat([s[0], s[1]], AllCaps(s[2..]), {'_'});
        assert s == [s[0], s[1]] + s[2..];
        EraseConcat([s[0], s[1]], s[2..], {'_'});
      } else {
        AllCapsErase(s[1..]);
        EraseConcat(head, AllCaps(s[1..]), {'_'});
        assert s == head + s[1..];
        EraseConcat(head, s[1..], {'_'});
      }
    }
  }

  lemma {:induction false} FirstCapsNoUpper(s: string)
    requires forall i :: 0 <= i < |s| ==> !IsUpper(s[i])
    ensures FirstCaps(s) == s
    decreases |s|
  {
    if |s| >= 3 {
      FirstCapsNoUpper(s[1..]);
      assert [s[0]] + s[1..] == s;
    }
  }

  lemma {:induction false} AllCapsNoBoundary(s: string)
    requires forall i :: 0 <= i < |s| - 1 ==> !(IsLower(s[i]) || IsDigit(s[i])) || !IsUpper(s[i + 1])
    ensures AllCaps(s) == s
    decreases |s|
  {
    if |s| >= 2 {
      AllCapsNoBoundary(s[1..]);
      assert [s[0]] + s[1..] == s;
    }
  }

  /** `Spaced` leaves no `-` or space behind, and erases to the same text
      as its input under the separators. */
  lemma SpacedShape(name: string)
    ensures forall i :: 0 <= i < |Spaced(name)| ==> Spaced(name)[i] != '-' && Spaced(name)[i] != ' '
    ensures Erase(Spaced(name), {'_'}) == Erase(name, Seps)
  {
    var t1 := Replace(name, "-", "_");
    ReplaceChar(name, '-', '_');
    ReplaceChar(t1, ' ', '_');
    EraseReplace(name, "-", "_", Seps);
    EraseReplace(t1, " ", "_", Seps);
    EraseAbsent(Spaced(name), {'_'}, {'-', ' '});
    assert {'_'} + {'-', ' '} == Seps;
  }

  /** `to_camel_case` changes nothing but underscores and letter case: with
      underscores erased, the output is the lower-cased input with its
      separators erased. */
  lemma {:induction false} CamelErase(name: string)
    ensures Erase(ToCamelCase(name), {'_'}) == Lower(Erase(name, Seps))
  {
    var spaced := Spaced(name);
    SpacedShape(name);
    FirstCapsErase(spaced);
    AllCapsErase(FirstCaps(spaced));
    var low := Lower(AllCaps(FirstCaps(spaced)));
    EraseLower(AllCaps(FirstCaps(spaced)), {'_'});
    EraseReplace(low, "__", "_", {'_'});
  }

  /** Lower-casing keeps the separators exactly where they were. */
  lemma LowerSep(c: char)
    ensures LowerChar(c) in Seps <==> c in Seps
  {
  }

  /** The output of `to_camel_case` holds no upper-case letter, no `-` and
      no space. */
  lemma CamelAlphabet(name: string)
    ensures forall i :: 0 <= i < |ToCamelCase(name)| ==>
      var c := ToCamelCase(name)[i]; !IsUpper(c) && c != '-' && c != ' '
  {
    var r := ToCamelCase(name);
    CamelErase(name);
    var lowered := Lower(Erase(name, Seps));
    forall i | 0 <= i < |r| ensures !IsUpper(r[i]) && r[i] != '-' && r[i] != ' ' {
      if r[i] != '_' {
        assert r[i] in r;
        EraseMember(r, {'_'}, r[i]);
        assert r[i] in lowered;
        var j :| 0 <= j < |lowered| && lowered[j] == r[i];
        LowerSep(Erase(name, Seps)[j]);
      }
    }
  }

  /** A name already in lower snake form (no upper case, `-`, space or
      `__`) is returned unchanged. */
  lemma CamelIdentity(name: string)
    requires forall i :: 0 <= i < |name| ==> !IsUpper(name[i]) && name[i] != '-' && name[i] != ' '
    requires forall i :: 0 <= i < |name| - 1 ==> !(name[i] == '_' && name[i + 1] == '_')
    ensures ToCamelCase(name) == name
  {
    assert '-' !in name && ' ' !in name;
    SpacedIdentity(name);
    FirstCapsNoUpper(name);
    AllCapsNoBoundary(name);
    assert Lower(name) == name;
    NoDoubleUnder(name);
    ReplaceAbsent(name, "__", "_");
  }

  lemma NoDoubleUnder(name: string)
    requires forall i :: 0 <= i < |name| - 1 ==> !(name[i] == '_' && name[i + 1] == '_')
    ensures forall i: nat :: i <= |name| ==> !OccursAt(name, "__", i)
  {
    forall i: nat | i <= |name| ensures !OccursAt(name, "__", i) {
      if i + 2 <= |name| {
        assert name[i..i + 2] == [name[i], name[i + 1]];
      }
    }
  }

  /** The example the node attribute names come from: `minItems` becomes
      `min_items`. */
  lemma CamelMinItems(name: string)
    requires name == "minItems"
    ensures ToCamelCase(name) == "min_items"
  {
    CamelSteps(name);
    SpacedIdentity(name);
    FirstCapsMinItems(name);
    AllCapsMinItems("min_Items");
    LowerMinItems("min_Items");
    CollapseMinItems("min_items");
  }

  lemma SpacedIdentity(s: string)
    requires '-' !in s && ' ' !in s
    ensures Spaced(s) == s
  {
    CharAbsent(s, '-');
    ReplaceAbsent(s, "-", "_");
    CharAbsent(s, ' ');
    ReplaceAbsent(s, " ", "_");
  }

  lemma CamelSteps(name: string)
    ensures ToCamelCase(name) == Replace(Lower(AllCaps(FirstCaps(Spaced(name)))), "__", "_")
  {
  }

  lemma FirstCapsMinItems(s: string)
    requires s == "minItems"
    ensures FirstCaps(s) == "min_Items"
  {
    var t := s[2..];
    assert LowerRun(t[2..]) == 4 by {
      assert t[2..] == "tems";
    }
    FirstCapsWord(t, 6);
    assert t[6..] == [];
    FirstCapsCopy(s[1..]);
    FirstCapsCopy(s);
    assert s[1..][1..] == t;
    assert s[0] == 'm' && s[1] == 'i' && t[0] == 'n' && t[1..6] == "Items";
    assert ['m'] + (['i'] + (['n'] + "_" + "Items")) == "min_Items";
  }

  /** A character that starts no capitalised word is copied. */
  lemma FirstCapsCopy(s: string)
    requires |s| >= 3 && !(s[0] != '\n' && IsUpper(s[1]) && IsLower(s[2]))
    ensures FirstCaps(s) == [s[0]] + FirstCaps(s[1..])
  {
  }

  lemma CollapseMinItems(s: string)
    requires s == "min_items"
    ensures Replace(s, "__", "_") == s
  {
    NoDoubleUnder(s);
    ReplaceAbsent(s, "__", "_");
  }

  lemma LowerMinItems(s: string)
    requires s == "min_Items"
    ensures Lower(s) == "min_items"
  {
  }

  lemma AllCapsMinItems(t: string)
    requires t == "min_Items"
    ensures AllCaps(t) == "min_Items"
  {
    forall i | 0 <= i < |t| - 1 ensures !(IsLower(t[i]) || IsDigit(t[i])) || !IsUpper(t[i + 1]) {
      if i != 3 {
        assert !IsUpper(t[i + 1]);
      }
    }
    AllCapsNoBoundary(t);
  }

  /** A leading underscore survives: `_default` is its own snake form. */
  lemma CamelDefault()
    ensures ToCamelCase("_default") == "_default"
  {
    CamelIdentity("_default");
  }

  lemma {:induction false} LowerTitles(ps: seq<string>)
    ensures Lower(Concat(TitleAll(ps))) == Lower(Concat(ps))
  {
    if ps != [] {
      LowerTitles(ps[1..]);
      assert TitleAll(ps)[1..] == TitleAll(ps[1..]);
      LowerConcat(Title(ps[0]), Concat(TitleAll(ps[1..])));
      LowerConcat(ps[0], Concat(ps[1..]));
      assert Lower(Title(ps[0])) == Lower(ps[0]);
    }
  }

  /** Text whose lower-cased form holds no separator holds none itself. */
  lemma NoSepsLower(r: string, t: string)
    requires Lower(r) == Lower(t)
    requires forall i :: 0 <= i < |t| ==> t[i] !in Seps
    ensures forall i :: 0 <= i < |r| ==> r[i] !in Seps
  {
    forall i | 0 <= i < |r| ensures r[i] !in Seps {
      LowerSep(r[i]);
      LowerSep(t[i]);
    }
  }

  /** `to_snake_case` keeps the letters and digits of its input, in order,
      up to case, and drops every separator. */
  lemma ToSnakeCaseShape(name: string)
    ensures Lower(ToSnakeCase(name)) == Lower(Erase(name, Seps))
    ensures forall i :: 0 <= i < |ToSnakeCase(name)| ==> ToSnakeCase(name)[i] !in Seps
  {
    var spaced := Spaced(name);
    var parts := Split(spaced, '_');
    SpacedShape(name);
    ConcatSplit(spaced, '_');
    LowerTitles(parts[1..]);
    LowerConcat(Lower(parts[0]), Concat(TitleAll(parts[1..])));
    assert Lower(Lower(parts[0])) == Lower(parts[0]);
    LowerConcat(parts[0], Concat(parts[1..]));
    assert Concat(parts) == parts[0] + Concat(parts[1..]);
    NoSepsLower(ToSnakeCase(name), Erase(name, Seps));
  }

  /** `Dashed` leaves no space behind, no `_` unless double underscores
      are allowed, and erases to the same text as its input under the
      separators. */
  lemma DashedShape(name: string, allowDoubleUnder: bool)
    ensures forall i :: 0 <= i < |Dashed(name, allowDoubleUnder)| ==> Dashed(name, allowDoubleUnder)[i] != ' '
    ensures !allowDoubleUnder ==> forall i :: 0 <= i < |Dashed(name, allowDoubleUnder)| ==> Dashed(name, allowDoubleUnder)[i] != '_'
    ensures Erase(Dashed(name, allowDoubleUnder), Seps) == Erase(name, Seps)
  {
    var dashed := Replace(name, "_", "-");
    var kept := if allowDoubleUnder then Replace(dashed, "--", "_-") else dashed;
    ReplaceChar(name, '_', '-');
    ReplaceChar(kept, ' ', '-');
    EraseReplace(name, "_", "-", Seps);
    if allowDoubleUnder {
      EraseReplace(dashed, "--", "_-", Seps);
    }
    EraseReplace(kept, " ", "-", Seps);
  }

  /** Lower-cased, the output of `to_pascal_case` is the dashed text with
      its dashes erased. */
  lemma PascalLower(name: string, allowDoubleUnder: bool)
    ensures Lower(ToPascalCase(name, allowDoubleUnder)) == Lower(Erase(Dashed(name, allowDoubleUnder), {'-'}))
  {
    var t := Dashed(name, allowDoubleUnder);
    ConcatSplit(t, '-');
    LowerTitles(Split(t, '-'));
  }

  /** `to_pascal_case` keeps the letters and digits of its input, in order,
      up to case; it never emits `-` or a space, and emits `_` only when
      double underscores are allowed. */
  lemma ToPascalCaseShape(name: string, allowDoubleUnder: bool)
    ensures var r := ToPascalCase(name, allowDoubleUnder);
      && Erase(Lower(r), {'_'}) == Lower(Erase(name, Seps))
      && (forall i :: 0 <= i < |r| ==> r[i] != '-' && r[i] != ' ')
      && (!allowDoubleUnder ==> forall i :: 0 <= i < |r| ==> r[i] != '_')
  {
    var r := ToPascalCase(name, allowDoubleUnder);
    var t := Dashed(name, allowDoubleUnder);
    var e := Erase(t, {'-'});
    DashedShape(name, allowDoubleUnder);
    PascalLower(name, allowDoubleUnder);
    EraseLower(e, {'_'});
    EraseTwice(t, {'-'}, {'_'});
    EraseAbsent(t, {'-', '_'}, {' '});
    assert {'-'} + {'_'} == {'-', '_'};
    assert {'-', '_'} + {' '} == Seps;
    EraseMember(t, {'-'}, ' ');
    EraseMember(t, {'-'}, '_');
    forall i | 0 <= i < |r| ensures r[i] != '-' && r[i] != ' ' && (!allowDoubleUnder ==> r[i] != '_') {
      LowerSep(r[i]);
      assert Lower(r)[i] == Lower(e)[i];
      LowerSep(e[i]);
      assert e[i] in e;
    }
  }

  /** An operation id with a double underscore keeps one underscore as a
      word boundary: `get__x` becomes `Get_X`. */
  lemma PascalDoubleUnder(name: string)
    requires name == "get__x"
    ensures ToPascalCase(name, true) == "Get_X"
  {
    var parts := Split(Dashed(name, true), '-');
    DashedGetX();
    SplitGetX();
    TitleGetX();
    assert TitleAll(parts) == ["Get_", "X"];
    assert Concat(["Get_", "X"]) == "Get_" + Concat(["X"]);
  }

  lemma TitleGetX()
    ensures TitleAll(["get_", "x"]) == ["Get_", "X"]
  {
    assert UpperChar('g') == 'G' && LowerChar('e') == 'e' && LowerChar('t') == 't' && UpperChar('x') == 'X';
    assert !IsCased('_') && IsCased('g') && IsCased('e') && IsCased('t');
    assert TitleFrom("_", true) == "_";
    assert TitleFrom("t_", true) == "t_";
    assert TitleFrom("et_", true) == "et_";
    assert Title("get_") == "Get_";
    assert Title("x") == "X";
  }

  lemma DashedGetX()
    ensures Dashed("get__x", true) == "get_-x"
  {
    UnderscoresGetX();
    DoubleDashGetX();
    CharAbsent("get_-x", ' ');
    ReplaceAbsent("get_-x", " ", "-");
  }

  lemma UnderscoresGetX()
    ensures Replace("get__x", "_", "-") == "get--x"
  {
    ReplaceChar("get__x", '_', '-');
  }

  lemma DoubleDashGetX()
    ensures Replace("get--x", "--", "_-") == "get_-x"
  {
    DoubleDashTail();
    assert "t--x"[..2] != "--" && "t--x"[1..] == "--x";
    assert "et--x"[..2] != "--" && "et--x"[1..] == "t--x";
    assert "get--x"[..2] != "--" && "get--x"[1..] == "et--x";
  }

  lemma DoubleDashTail()
    ensures Replace("--x", "--", "_-") == "_-x"
  {
    assert "--x"[..2] == "--" && "--x"[2..] == "x";
    assert Replace("x", "--", "_-") == "x";
  }

  lemma SplitGetX()
    ensures Split("get_-x", '-') == ["get_", "x"]
  {
    var parts := ["get_", "x"];
    assert Join("-", parts) == "get_-x";
    SplitJoin(parts, '-');
  }
}
