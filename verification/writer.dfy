/** The parts of the code generator that are plain text processing: the
    `indent` filter its templates use, and the check on the document name
    a writer is created from. */
module Writer {
  import opened Wrappers
  import opened Text
  import opened Utils
  import opened Loader

  /** `' ' * width`; a negative width gives the empty string. */
  function Spaces(width: int): (r: string)
    ensures |r| == if width < 0 then 0 else width
    ensures forall i :: 0 <= i < |r| ==> r[i] == ' '
    decreases width
  {
    if width <= 0 then "" else " " + Spaces(width - 1)
  }

  /** Every line behind the indentation. */
  function IndentAll(lines: seq<string>, ind: string): (r: seq<string>)
    ensures |r| == |lines|
    ensures forall i :: 0 <= i < |lines| ==> r[i] == ind + lines[i]
  {
    if lines == [] then [] else [ind + lines[0]] + IndentAll(lines[1..], ind)
  }

  /** The lines after the first in the default mode: indented unless empty. */
  function Marked(lines: seq<string>, ind: string): (r: seq<string>)
    ensures |r| == |lines|
    ensures forall i :: 0 <= i < |lines| ==> r[i] == if lines[i] != "" then ind + lines[i] else lines[i]
  {
    if lines == [] then []
    else [if lines[0] != "" then ind + lines[0] else lines[0]] + Marked(lines[1..], ind)
  }

  /** The joining step of `do_indent`, on the lines `splitlines` produced. */
  function Reassemble(lines: seq<string>, ind: string, f: bool, blank: bool): string
    requires |lines| >= 1
  {
    var rv :=
      if blank then Join("\n" + ind, lines)
      else lines[0] + (if |lines| > 1 then "\n" + Join("\n", Marked(lines[1..], ind)) else "");
    if f then ind + rv else rv
  }

  /** `do_indent`: a line break is added, the text is cut into lines, and the
      lines are joined again with the indentation inserted. `indentfirst`,
      when given, overrides `first`. */
  function DoIndent(s: string, width: int, first: bool, blank: bool, indentfirst: Option<bool>): string {
    var f := if indentfirst.Some? then indentfirst.value else first;
    Reassemble(SplitLines(s + "\n"), Spaces(width), f, blank)
  }

  /** What is put in front of line `k` of the input. */
  function Prefix(lines: seq<string>, k: nat, ind: string, f: bool, blank: bool): string
    requires k < |lines|
  {
    if k == 0 then (if f then ind else "")
    else if blank || lines[k] != "" then ind
    else ""
  }

  /** Each input line behind its prefix. */
  function Expected(lines: seq<string>, ind: string, f: bool, blank: bool): (r: seq<string>)
    ensures |r| == |lines|
    ensures forall k :: 0 <= k < |lines| ==> r[k] == Prefix(lines, k, ind, f, blank) + lines[k]
  {
    seq(|lines|, k requires 0 <= k < |lines| => Prefix(lines, k, ind, f, blank) + lines[k])
  }

  lemma JoinCons(sep: string, a: string, rest: seq<string>)
    requires |rest| >= 1
    ensures Join(sep, [a] + rest) == a + sep + Join(sep, rest)
  {
    assert ([a] + rest)[1..] == rest;
  }

  /** Indenting the front of a joined text is indenting its first part. */
  lemma JoinFront(parts: seq<string>, ind: string)
    requires |parts| >= 1
    ensures ind + Join("\n", parts) == Join("\n", [ind + parts[0]] + parts[1..])
  {
    if |parts| > 1 {
      JoinFrontMany(parts, ind);
    } else {
      assert [ind + parts[0]] + parts[1..] == [ind + parts[0]];
    }
  }

  lemma JoinFrontMany(parts: seq<string>, ind: string)
    requires |parts| > 1
    ensures ind + Join("\n", parts) == Join("\n", [ind + parts[0]] + parts[1..])
  {
    var q := [ind + parts[0]] + parts[1..];
    assert q[1..] == parts[1..];
    assert Join("\n", q) == (ind + parts[0]) + "\n" + Join("\n", parts[1..]);
  }

  /** Joining with an indented separator is indenting every later line. */
  lemma {:induction false} JoinIndented(ls: seq<string>, ind: string)
    requires |ls| >= 1
    ensures Join("\n" + ind, ls) == Join("\n", [ls[0]] + IndentAll(ls[1..], ind))
  {
    if |ls| > 1 {
      var rest := IndentAll(ls[2..], ind);
      JoinIndented(ls[1..], ind);
      assert ls[1..][1..] == ls[2..];
      JoinFront([ls[1]] + rest, ind);
      assert ([ls[1]] + rest)[1..] == rest;
      assert IndentAll(ls[1..], ind) == [ind + ls[1]] + rest;
      JoinCons("\n", ls[0], IndentAll(ls[1..], ind));
      assert ls[0] + "\n" + ind + Join("\n", [ls[1]] + rest) == ls[0] + "\n" + (ind + Join("\n", [ls[1]] + rest));
    }
  }

  /** The output is the input's lines, each behind its prefix, joined by
      line breaks. */
  lemma ReassembleJoin(lines: seq<string>, ind: string, f: bool, blank: bool)
    requires |lines| >= 1
    ensures Reassemble(lines, ind, f, blank) == Join("\n", Expected(lines, ind, f, blank))
  {
    var e := Expected(lines, ind, false, blank);
    if blank {
      ReassembleBlank(lines, ind);
    } else {
      ReassembleMarked(lines, ind);
    }
    if f {
      JoinFront(e, ind);
      var g := Expected(lines, ind, true, blank);
      assert e[0] == lines[0];
      forall k | 0 <= k < |g| ensures ([ind + e[0]] + e[1..])[k] == g[k] {
        if k > 0 {
          assert e[k] == g[k];
        }
      }
      assert [ind + e[0]] + e[1..] == g;
    }
  }

  /** With `blank`, every later line is indented. */
  lemma ReassembleBlank(lines: seq<string>, ind: string)
    requires |lines| >= 1
    ensures Reassemble(lines, ind, false, true) == Join("\n", Expected(lines, ind, false, true))
  {
    JoinIndented(lines, ind);
    var e := Expected(lines, ind, false, true);
    var parts := [lines[0]] + IndentAll(lines[1..], ind);
    forall k | 0 <= k < |e| ensures parts[k] == e[k] {
      if k > 0 {
        assert parts[k] == ind + lines[1..][k - 1];
      }
    }
    assert parts == e;
  }

  /** Without `blank`, the later lines that are not empty are indented. */
  lemma ReassembleMarked(lines: seq<string>, ind: string)
    requires |lines| >= 1
    ensures Reassemble(lines, ind, false, false) == Join("\n", Expected(lines, ind, false, false))
  {
    MarkedExpected(lines, ind);
    if |lines| > 1 {
      JoinCons("\n", lines[0], Marked(lines[1..], ind));
    } else {
      assert [lines[0]] + Marked(lines[1..], ind) == [lines[0]];
    }
  }

  lemma MarkedExpected(lines: seq<string>, ind: string)
    requires |lines| >= 1
    ensures [lines[0]] + Marked(lines[1..], ind) == Expected(lines, ind, false, false)
  {
    var parts := [lines[0]] + Marked(lines[1..], ind);
    var e := Expected(lines, ind, false, false);
    forall k | 0 <= k < |e| ensures parts[k] == e[k] {
      if k > 0 {
        assert lines[1..][k - 1] == lines[k];
        assert parts[k] == Marked(lines[1..], ind)[k - 1];
      }
    }
  }

  /** Cutting the output at its line breaks gives the input's lines, each
      behind its prefix. */
  lemma DoIndentSplit(s: string, width: int, first: bool, blank: bool, indentfirst: Option<bool>)
    ensures var f := if indentfirst.Some? then indentfirst.value else first;
      Split(DoIndent(s, width, first, blank, indentfirst), '\n') == Expected(SplitLines(s + "\n"), Spaces(width), f, blank)
  {
    var lines := SplitLines(s + "\n");
    var f := if indentfirst.Some? then indentfirst.value else first;
    var e := Expected(lines, Spaces(width), f, blank);
    ReassembleJoin(lines, Spaces(width), f, blank);
    forall i | 0 <= i < |e| ensures '\n' !in e[i] {
      assert '\n' in LineBreaks;
    }
    SplitJoin(e, '\n');
  }

  /** Line structure is kept: cutting the output at its line breaks gives
      one line per input line, the first behind the indentation exactly when
      `first` (or `indentfirst`) asks for it, a later one when it is
      non-empty or `blank` is set. */
  lemma DoIndentLines(s: string, width: int, first: bool, blank: bool, indentfirst: Option<bool>)
    ensures var out := Split(DoIndent(s, width, first, blank, indentfirst), '\n');
      var lines := SplitLines(s + "\n");
      var f := if indentfirst.Some? then indentfirst.value else first;
      && |out| == |lines|
      && out[0] == (if f then Spaces(width) else "") + lines[0]
      && forall k :: 1 <= k < |lines| ==> out[k] == (if blank || lines[k] != "" then Spaces(width) else "") + lines[k]
  {
    DoIndentSplit(s, width, first, blank, indentfirst);
  }

  /** The text has no line boundary other than `\n`. */
  predicate OnlyNewlines(s: string) {
    forall i :: 0 <= i < |s| ==> s[i] == '\n' || s[i] !in LineBreaks
  }

  /** One step of `splitlines` at a `\n` boundary. */
  lemma SplitLinesNewline(t: string, k: nat)
    requires k < |t| && t[k] == '\n'
    requires forall i :: 0 <= i < k ==> t[i] !in LineBreaks
    ensures SplitLines(t) == [t[..k]] + SplitLines(t[k + 1..])
  {
    assert '\n' in LineBreaks;
    assert FirstBreak(t) == k;
  }

  /** For text whose only line boundary is `\n`, the lines the filter works
      on join back to the text itself. */
  lemma {:induction false} LinesJoin(s: string)
    requires OnlyNewlines(s)
    ensures Join("\n", SplitLines(s + "\n")) == s
    decreases |s|
  {
    var k := FirstBreak(s + "\n");
    assert (s + "\n")[|s|] == '\n';
    if k == |s| {
      LinesJoinLast(s);
    } else {
      var rest := s[k + 1..];
      assert OnlyNewlines(rest) by {
        forall i | 0 <= i < |rest| ensures rest[i] == '\n' || rest[i] !in LineBreaks {
          assert rest[i] == s[k + 1 + i];
        }
      }
      LinesJoin(rest);
      LinesJoinStep(s, k);
    }
  }

  /** The last line: no line break before the one added. */
  lemma LinesJoinLast(s: string)
    requires FirstBreak(s + "\n") == |s|
    ensures Join("\n", SplitLines(s + "\n")) == s
  {
    var t := s + "\n";
    SplitLinesNewline(t, |s|);
    assert t[..|s|] == s && t[|s| + 1..] == [];
  }

  /** A line ended by a line break inside the text, then the rest. */
  lemma LinesJoinStep(s: string, k: nat)
    requires OnlyNewlines(s) && k < |s| && FirstBreak(s + "\n") == k
    requires Join("\n", SplitLines(s[k + 1..] + "\n")) == s[k + 1..]
    ensures Join("\n", SplitLines(s + "\n")) == s
  {
    var t := s + "\n";
    var rest := s[k + 1..];
    var lines := SplitLines(rest + "\n");
    AppendSlices(s, "\n", k);
    SplitLinesNewline(t, k);
    JoinCons("\n", s[..k], lines);
    Around(s, k);
  }

  lemma Around(s: string, k: nat)
    requires k < |s| && s[k] == '\n'
    ensures s[..k] + "\n" + s[k + 1..] == s
  {
    assert s[..k] + [s[k]] + s[k + 1..] == s;
  }

  /** The output lines with their prefixes taken off. */
  function Unprefixed(out: seq<string>, lines: seq<string>, ind: string, f: bool, blank: bool): (r: seq<string>)
    requires |out| == |lines|
    ensures |r| == |out|
  {
    seq(|out|, k requires 0 <= k < |out| =>
      var n := |Prefix(lines, k, ind, f, blank)|;
      if n <= |out[k]| then out[k][n..] else out[k])
  }

  /** Taking the prefixes off the expected lines gives the lines. */
  lemma UnprefixedExpected(lines: seq<string>, ind: string, f: bool, blank: bool)
    ensures Unprefixed(Expected(lines, ind, f, blank), lines, ind, f, blank) == lines
  {
    var e := Expected(lines, ind, f, blank);
    var u := Unprefixed(e, lines, ind, f, blank);
    forall k | 0 <= k < |e| ensures u[k] == lines[k] {
      var p := Prefix(lines, k, ind, f, blank);
      assert (p + lines[k])[|p|..] == lines[k];
    }
  }

  /** Removing what was put in front of each output line and joining the
      lines again gives back the input. */
  lemma DoIndentRecover(s: string, width: int, first: bool, blank: bool, indentfirst: Option<bool>)
    requires OnlyNewlines(s)
    ensures var out := Split(DoIndent(s, width, first, blank, indentfirst), '\n');
      var lines := SplitLines(s + "\n");
      var f := if indentfirst.Some? then indentfirst.value else first;
      && |out| == |lines|
      && Join("\n", Unprefixed(out, lines, Spaces(width), f, blank)) == s
  {
    var f := if indentfirst.Some? then indentfirst.value else first;
    DoIndentSplit(s, width, first, blank, indentfirst);
    UnprefixedExpected(SplitLines(s + "\n"), Spaces(width), f, blank);
    LinesJoin(s);
  }

  /** A one-line text ending in a line break is that one line. */
  lemma SingleLine()
    ensures SplitLines("a\n") == ["a"]
  {
    assert 'a' !in LineBreaks;
    SplitLinesNewline("a\n", 1);
    assert "a\n"[..1] == "a" && "a\n"[2..] == "";
  }

  /** By default the first line and empty lines are left alone. */
  lemma ReassembleDefaultExample()
    ensures Reassemble(["a", "", "b"], "  ", false, false) == "a\n\n  b"
  {
    assert "b" != "" && "  " + "b" == "  b";
    assert Marked(["", "b"], "  ") == ["", "  b"];
    assert ["a", "", "b"][1..] == ["", "b"];
    JoinCons("\n", "", ["  b"]);
    assert Join("\n", ["", "  b"]) == "\n  b";
  }

  /** `blank` indents the empty line too. */
  lemma ReassembleBlankExample()
    ensures Reassemble(["a", "", "b"], "  ", false, true) == "a\n  \n  b"
  {
    assert "\n" + "  " == "\n  ";
    JoinCons("\n  ", "", ["b"]);
    assert Join("\n  ", ["", "b"]) == "\n  b";
    JoinCons("\n  ", "a", ["", "b"]);
  }

  /** `indentfirst` wins over `first`. */
  lemma DoIndentFirstExample()
    ensures DoIndent("a", 2, false, false, Some(true)) == "  a"
    ensures DoIndent("a", 2, true, false, Some(false)) == "a"
  {
    SingleLine();
    assert "a" + "\n" == "a\n";
    assert Spaces(2) == "  " && "  " + "a" == "  a";
  }

  /** A version name: `v` followed by one or more digits. */
  predicate VersionName(name: string) {
    |name| >= 2 && name[0] == 'v' && forall i :: 1 <= i < |name| ==> IsDigit(name[i])
  }

  /** `ESISpecWriter.from_spec`: the name is checked before anything is
      fetched, unless the check is skipped. */
  function FromSpecChecked(spec: string, skipCheck: bool): (r: Fetch)
    ensures r.FetchUrl? <==> skipCheck || spec in SpecUrls || VersionName(spec)
    ensures r.FetchUrl? ==> r.url == SpecUrl(spec)
    ensures r.InvalidSpec? ==> r.name == spec
  {
    if !skipCheck && !(spec in SpecUrls || VersionName(spec)) then InvalidSpec(spec)
    else FetchUrl(SpecUrl(spec))
  }

  /** Every name the document loader accepts, the writer accepts and
      fetches from the same place. */
  lemma WriterAcceptsMore(spec: string, skipCheck: bool)
    requires Loader.FromSpec(spec).FetchUrl?
    ensures FromSpecChecked(spec, skipCheck) == Loader.FromSpec(spec)
  {
  }

  /** A bare `v`, a non-digit version and an unknown name are refused; the
      default name and numbered versions are accepted. */
  lemma PresetExamples()
    ensures FromSpecChecked("_latest", false).FetchUrl?
    ensures FromSpecChecked("v3", false).FetchUrl? && FromSpecChecked("v12", false).FetchUrl?
    ensures FromSpecChecked("v", false) == InvalidSpec("v")
    ensures FromSpecChecked("vx", false) == InvalidSpec("vx")
    ensures FromSpecChecked("beta", false) == InvalidSpec("beta")
    ensures FromSpecChecked("beta", true).FetchUrl?
  {
    assert "vx"[1] == 'x' && !IsDigit('x');
  }
}
