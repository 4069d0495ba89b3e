/** Operation parameters (`esi/spec/parameter.py`): a parameter is a node
    of role `ParameterRole` that also carries `_in` (its location) and
    `_name`. */
module Parameters {
  import opened Wrappers
  import opened Text
  import opened Nodes
  import opened Utils
  import opened Types
  import Describeable

  /** `has_default`: the default is not `None`. */
  predicate HasDefault(p: Node) {
    p.default != VNone
  }

  /** `safe_name`: the snake form of the name, usable as a Python keyword
      argument; `None` when the parameter has no name (the regular
      expressions of `to_camel_case` raise on `None`). */
  function SafeName(p: Node): (r: Option<string>)
    ensures r.Some? <==> p.name.Some?
    ensures r.Some? ==> forall i :: 0 <= i < |r.value| ==> !IsUpper(r.value[i]) && r.value[i] != '-' && r.value[i] != ' '
  {
    match p.name
    case None => None
    case Some(name) => CamelAlphabet(name); Some(ToCamelCase(name))
  }

  /** `part`: the declared location, the bucket the argument is sent in. */
  function Part(p: Node): Option<string> {
    p.location
  }

  /** `__eq__`: the same name in the same location. */
  predicate Same(p: Node, q: Node) {
    p.name == q.name && p.location == q.location
  }

  /** `__eq__` is an equivalence under which a parameter's default, kind
      and `required` flag do not matter. */
  lemma SameEquivalence(p: Node, q: Node, s: Node, d: Value, k: Option<string>, req: Required)
    ensures Same(p, p)
    ensures Same(p, q) ==> Same(q, p)
    ensures Same(p, q) && Same(q, s) ==> Same(p, s)
    ensures Same(p, p.(default := d, kind := k, required := req))
  {
  }

  /** `__lt__`; `None` where the comparison raises: two different
      `required` values that are not both flags, or two names that are
      not both strings. */
  function Less(p: Node, q: Node): (r: Option<bool>)
    ensures HasDefault(p) != HasDefault(q) ==> r == Some(!HasDefault(p))
    ensures Orderable(p) && Orderable(q) ==> r.Some?
  {
    if HasDefault(p) != HasDefault(q) then Some(!HasDefault(p))
    else if p.required != q.required then
      if p.required.Flag? && q.required.Flag? then Some(p.required.b && !q.required.b) else None
    else if p.name.Some? && q.name.Some? then Some(StrLess(p.name.value, q.name.value))
    else None
  }

  /** A parameter every comparison accepts: a name, and a flag for
      `required`. */
  predicate Orderable(p: Node) {
    p.name.Some? && p.required.Flag?
  }

  /** `p < q` holds. */
  predicate Before(p: Node, q: Node) {
    Less(p, q) == Some(true)
  }

  /** The order: parameters without a default first, then required ones,
      then by name. */
  lemma LessOrder(p: Node, q: Node)
    requires Orderable(p) && Orderable(q)
    ensures !HasDefault(p) && HasDefault(q) ==> Before(p, q) && !Before(q, p)
    ensures HasDefault(p) == HasDefault(q) && p.required.b && !q.required.b ==> Before(p, q) && !Before(q, p)
    ensures HasDefault(p) == HasDefault(q) && p.required == q.required ==>
              (Before(p, q) <==> StrLess(p.name.value, q.name.value))
  {
  }

  lemma LessIrreflexive(p: Node)
    ensures !Before(p, p)
  {
    if p.name.Some? {
      StrLessIrreflexive(p.name.value);
    }
  }

  lemma LessTransitive(p: Node, q: Node, s: Node)
    requires Before(p, q) && Before(q, s)
    ensures Before(p, s)
  {
    if HasDefault(p) == HasDefault(q) == HasDefault(s) && p.required == q.required == s.required {
      StrLessTransitive(p.name.value, q.name.value, s.name.value);
    }
  }

  /** Orderable parameters that neither precedes agree on everything the
      order looks at. */
  lemma LessTotal(p: Node, q: Node)
    requires Orderable(p) && Orderable(q) && !Before(p, q) && !Before(q, p)
    ensures HasDefault(p) == HasDefault(q) && p.required == q.required && p.name == q.name
  {
    if p.name != q.name && HasDefault(p) == HasDefault(q) && p.required == q.required {
      StrLessTotal(p.name.value, q.name.value);
    }
  }

  /** No element comes before an earlier one. */
  predicate Sorted(s: seq<Node>) {
    forall i, j :: 0 <= i < j < |s| ==> !Before(s[j], s[i])
  }

  /** `x` inserted into `s` ahead of the first element it comes before, so
      that elements it ties with stay in front of it. */
  function Insert(x: Node, s: seq<Node>): (r: seq<Node>)
    ensures multiset(r) == multiset(s) + multiset{x}
  {
    if s == [] then [x]
    else if Before(x, s[0]) then [x] + s
    else
      assert s == [s[0]] + s[1..];
      [s[0]] + Insert(x, s[1..])
  }

  /** Inserting into a sorted sequence keeps it sorted. */
  lemma {:induction false} InsertSorted(x: Node, s: seq<Node>)
    requires Sorted(s)
    ensures Sorted(Insert(x, s))
  {
    var r := Insert(x, s);
    if s == [] {
    } else if Before(x, s[0]) {
      forall i, j | 0 <= i < j < |r| ensures !Before(r[j], r[i]) {
        if i == 0 && Before(r[j], x) {
          LessTransitive(r[j], x, s[0]);
          if j == 1 {
            LessIrreflexive(s[0]);
          }
        }
      }
    } else {
      var rest := Insert(x, s[1..]);
      InsertSorted(x, s[1..]);
      assert r == [s[0]] + rest;
      forall i, j | 0 <= i < j < |r| ensures !Before(r[j], r[i]) {
        if i == 0 {
          assert r[j] in multiset(rest);
          assert r[j] == x || r[j] in s[1..];
        } else {
          assert r[j] == rest[j - 1] && r[i] == rest[i - 1];
        }
      }
    }
  }

  /** `sorted(parameters)` as an insertion sort. */
  function Sort(ps: seq<Node>): (r: seq<Node>)
    ensures multiset(r) == multiset(ps)
    ensures Sorted(r)
  {
    if ps == [] then []
    else
      assert ps == ps[..|ps| - 1] + [ps[|ps| - 1]];
      var init := Sort(ps[..|ps| - 1]);
      InsertSorted(ps[|ps| - 1], init);
      Insert(ps[|ps| - 1], init)
  }

  /** `ordered_parameters`: a sorted permutation of the parameters; `None`
      where the sort raises. Sorting two parameters makes exactly one
      comparison, the second against the first, and swaps them when it
      holds; longer lists fail as soon as one parameter cannot be
      compared. */
  function OrderedParameters(ps: seq<Node>): (r: Option<seq<Node>>)
    ensures (forall i :: 0 <= i < |ps| ==> Orderable(ps[i])) ==> r.Some?
    ensures r.Some? ==> multiset(r.value) == multiset(ps) && Sorted(r.value)
    ensures |ps| == 2 ==> (r.None? <==> Less(ps[1], ps[0]).None?)
    ensures |ps| == 2 && r.Some? ==> r.value == if Before(ps[1], ps[0]) then [ps[1], ps[0]] else ps
  {
    if |ps| <= 1 then
      assert Sorted(ps);
      Some(ps)
    else if |ps| == 2 then
      match Less(ps[1], ps[0])
      case None => None
      case Some(swap) =>
        if swap then
          LessAsymmetric(ps[1], ps[0]);
          assert multiset([ps[1], ps[0]]) == multiset(ps) by { assert ps == [ps[0], ps[1]]; }
          Some([ps[1], ps[0]])
        else Some(ps)
    else if forall i :: 0 <= i < |ps| ==> Orderable(ps[i]) then Some(Sort(ps))
    else None
  }

  /** A nameless parameter with a default still sorts after one without a
      default: the comparison is decided before names are looked at. */
  lemma NamelessPair(p: Node, q: Node)
    requires !HasDefault(p) && HasDefault(q) && q.name.None?
    ensures OrderedParameters([p, q]) == Some([p, q])
    ensures OrderedParameters([q, p]) == Some([p, q])
  {
  }

  /** Two parameters never sort before each other. */
  lemma LessAsymmetric(p: Node, q: Node)
    requires Before(p, q)
    ensures !Before(q, p)
  {
    if Before(q, p) {
      LessTransitive(p, q, p);
      LessIrreflexive(p);
    }
  }

  /** `call_signature`: the safe name, `: <type>` when a type is declared,
      and ` = <default>` when there is a default or the parameter is not
      required (`None` standing for a missing default). `None` where the
      source raises (no name, or a type annotation that cannot be built). */
  function CallSignature(p: Node): (r: Option<string>)
    ensures r.Some? ==> SafeName(p).Some? && TypingName(p).Some?
    ensures r.Some? ==> |SafeName(p).value| <= |r.value| && r.value[..|SafeName(p).value|] == SafeName(p).value
    ensures r.Some? && !TruthyStr(p.kind) && !(HasDefault(p) || !RequiredTruthy(p.required)) ==> r.value == SafeName(p).value
    ensures SafeName(p).Some? && TypingName(p).Some? ==> r.Some?
  {
    if SafeName(p).None? || TypingName(p).None? then None
    else
      var annotation := if TruthyStr(p.kind) then ": " + TypingName(p).value else "";
      var shown := if HasDefault(p) then Repr(p.default) else "None";
      var default := if HasDefault(p) || !RequiredTruthy(p.required) then " = " + shown else "";
      Some(SafeName(p).value + annotation + default)
  }

  /** The shape of a signature once its parts are known. */
  lemma SignatureParts(p: Node, name: string, typing: string)
    requires SafeName(p) == Some(name) && TypingName(p) == Some(typing) && TruthyStr(p.kind)
    ensures CallSignature(p) == Some(name + (": " + typing) +
              (if HasDefault(p) || !RequiredTruthy(p.required) then " = " + (if HasDefault(p) then Repr(p.default) else "None") else ""))
  {
  }

  /** A signature taken apart: the name, the annotation after `: ` and the
      default's text after ` = `. */
  datatype SignatureText = SignatureText(name: string, annotation: Option<string>, default: Option<string>)

  /** Reading a signature back: the default's text follows the first `=`
      and its space; the rest is read by `ReadHead`. */
  function ReadSignature(s: string): SignatureText {
    var e := Find(s, '=');
    var head := if 0 < e < |s| then s[..e - 1] else s[..e];
    var default := if e + 2 <= |s| then Some(s[e + 2..]) else if e < |s| then Some("") else None;
    var (name, annotation) := ReadHead(head);
    SignatureText(name, annotation, default)
  }

  /** The annotation follows the first `:` and its space; the name is what
      precedes it. */
  function ReadHead(head: string): (string, Option<string>) {
    var c := Find(head, ':');
    (head[..c], if c + 2 <= |head| then Some(head[c + 2..]) else if c < |head| then Some("") else None)
  }

  /** A signature reads back into the safe name, the annotation exactly
      when a type is declared, and the default's text exactly when there
      is a default or the parameter is optional, for any name free of `:`
      and `=`. */
  lemma SignatureReadsBack(p: Node)
    requires CallSignature(p).Some? && ':' !in SafeName(p).value && '=' !in SafeName(p).value
    ensures ReadSignature(CallSignature(p).value) == SignatureText(
              SafeName(p).value,
              if TruthyStr(p.kind) then Some(TypingName(p).value) else None,
              if HasDefault(p) || !RequiredTruthy(p.required) then Some(if HasDefault(p) then Repr(p.default) else "None") else None)
  {
    ReadParts(SafeName(p).value,
      if TruthyStr(p.kind) then Some(TypingName(p).value) else None,
      if HasDefault(p) || !RequiredTruthy(p.required) then Some(if HasDefault(p) then Repr(p.default) else "None") else None);
  }

  /** The text of a signature assembled from its parts reads back into
      them. */
  lemma ReadParts(name: string, annotation: Option<string>, default: Option<string>)
    requires ':' !in name && '=' !in name && (annotation.Some? ==> '=' !in annotation.value)
    ensures ReadSignature(name + (if annotation.Some? then ": " + annotation.value else "") +
                          (if default.Some? then " = " + default.value else "")) == SignatureText(name, annotation, default)
  {
    var head := name + (if annotation.Some? then ": " + annotation.value else "");
    ReadHeadParts(name, annotation);
    ReadDefault(head, default);
  }

  lemma ReadHeadParts(name: string, annotation: Option<string>)
    requires ':' !in name && (annotation.Some? ==> '=' !in annotation.value)
    ensures ReadHead(name + (if annotation.Some? then ": " + annotation.value else "")) == (name, annotation)
  {
    var head := name + (if annotation.Some? then ": " + annotation.value else "");
    if annotation.Some? {
      FindPast(name, ": " + annotation.value, ':');
      assert head[..|name|] == name && head[|name| + 2..] == annotation.value;
    } else {
      assert Find(head, ':') == |head| && head[..|head|] == head;
    }
  }

  lemma ReadDefault(head: string, default: Option<string>)
    requires '=' !in head
    ensures var s := head + (if default.Some? then " = " + default.value else "");
      ReadSignature(s) == SignatureText(ReadHead(head).0, ReadHead(head).1, default)
  {
    if default.Some? {
      var sig := head + (" = " + default.value);
      assert sig == (head + " ") + ("= " + default.value);
      FindPast(head + " ", "= " + default.value, '=');
      assert sig[..|head|] == head && sig[|head| + 3..] == default.value;
    } else {
      assert Find(head, '=') == |head| && head[..|head|] == head;
    }
  }

  /** A lower-case name is its own safe name. */
  lemma PlainName(p: Node, name: string)
    requires p.name == Some(name) && forall i :: 0 <= i < |name| ==> IsLower(name[i])
    ensures SafeName(p) == Some(name)
  {
    CamelIdentity(name);
  }

  /** The signature texts of the examples below, assembled from their
      parts. */
  lemma ShortTexts()
    ensures "req" + (": " + "str") + "" == "req: str"
    ensures "optional" + (": " + "int") + (" = " + "None") == "optional: int = None"
    ensures "_default" + (": " + "int") + (" = " + "1") == "_default: int = 1"
    ensures "_default" + (": " + "int") + "" == "_default: int"
  {
  }

  lemma ArrayText()
    ensures "typing.List[" + "int" + "]" == "typing.List[int]"
    ensures "array" + (": " + "typing.List[int]") + (" = " + "None") == "array: typing.List[int] = None"
  {
  }

  lemma ObjectText()
    ensures "object" + (": " + DictTyping) + (" = " + "None") == "object: " + DictTyping + " = None"
  {
  }

  lemma ObjectNamed(p: Node)
    requires p.name == Some("object")
    ensures SafeName(p) == Some("object")
  {
    PlainName(p, "object");
  }

  lemma ObjectTyping(p: Node)
    requires p.kind == Some("object")
    ensures TruthyStr(p.kind) && TypingName(p) == Some(DictTyping)
  {
    assert KindOf(p) == ObjectKind;
  }

  lemma SignatureObject(p: Node)
    requires p.kind == Some("object") && p.name == Some("object") && p.default == VNone && p.required == Flag(false)
    ensures CallSignature(p) == Some("object: " + DictTyping + " = None")
  {
    ObjectNamed(p);
    ObjectTyping(p);
    SignatureParts(p, "object", DictTyping);
    ObjectText();
  }

  lemma SignatureDefault(p: Node)
    requires p.kind == Some("integer") && p.name == Some("_default") && p.default == VInt(1) && p.required == Flag(false)
    ensures CallSignature(p) == Some("_default: int = 1")
  {
    CamelDefault();
    assert SafeName(p) == Some("_default");
    assert KindOf(p) == IntegerKind;
    assert Repr(VInt(1)) == "1";
    SignatureParts(p, "_default", "int");
    ShortTexts();
  }

  /** A `required` list whose elements are not strings is still a
      non-empty list, so the parameter counts as required and gets no
      ` = None`. */
  lemma SignatureRequiredList(p: Node)
    requires p.kind == Some("integer") && p.name == Some("_default") && p.default == VNone
    requires p.required == Describeable.AsRequired(VList([VInt(1)]))
    ensures CallSignature(p) == Some("_default: int")
  {
    assert RequiredTruthy(p.required);
    CamelDefault();
    assert SafeName(p) == Some("_default");
    assert KindOf(p) == IntegerKind;
    SignatureParts(p, "_default", "int");
    ShortTexts();
  }
}
