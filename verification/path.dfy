/** One operation of the document (`esi/spec/path.py`): its URL template,
    HTTP method and raw operation object, with the parameters and
    responses built from that object. */
module Paths {
  import opened Wrappers
  import opened Text
  import opened Dicts
  import opened Nodes
  import opened Utils
  import opened Describeable
  import opened Types
  import opened Parameters

  datatype Path = Path(
    url: string,
    verb: string,
    data: Dict<string, Value>,
    parameters: seq<Node>,
    responses: Dict<int, Node>)

  /** `Path(url, method, data)`: loads the parameters, then the
      responses; `None` where either raises. */
  function NewPath(url: string, verb: string, data: Dict<string, Value>): (r: Option<Path>)
    ensures r.Some? <==> LoadParameters(data).Some? && LoadResponses(data).Some?
    ensures r.Some? ==> r.value.parameters == LoadParameters(data).value && r.value.responses == LoadResponses(data).value
    ensures r.Some? ==> r.value.url == url && r.value.verb == verb && r.value.data == data
  {
    match (LoadParameters(data), LoadResponses(data))
    case (Some(ps), Some(rs)) => Some(Path(url, verb, data, ps, rs))
    case _ => None
  }

  /** `data.get(key, default)` */
  function GetOr(data: Dict<string, Value>, key: string, default: Value): (r: Value)
    ensures HasKey(data, key) ==> Some(r) == Get(data, key)
    ensures !HasKey(data, key) ==> r == default
  {
    match Get(data, key) case Some(v) => v case None => default
  }

  /** `tags`: the declared tags, `[]` when there are none. */
  function Tags(data: Dict<string, Value>): (r: Value)
    ensures !HasKey(data, "tags") ==> r == VList([])
    ensures HasKey(data, "tags") ==> Get(data, "tags") == Some(r)
  {
    GetOr(data, "tags", VList([]))
  }

  /** `scopes`: the `evesso` scopes of the first security requirement, `[]`
      without one; `None` where the source raises (a first requirement
      that is not an object, a truthy `security` that is not a list). */
  function Scopes(data: Dict<string, Value>): (r: Option<Value>)
    ensures !Truthy(GetOr(data, "security", VList([]))) ==> r == Some(VList([]))
    ensures var sec := GetOr(data, "security", VList([]));
      Truthy(sec) ==> (r.Some? <==> sec.VList? && sec.elems[0].VDict?)
    ensures var sec := GetOr(data, "security", VList([]));
      Truthy(sec) && r.Some? ==> r == Some(GetOr(sec.elems[0].entries, "evesso", VList([])))
  {
    var security := GetOr(data, "security", VList([]));
    if !Truthy(security) then Some(VList([]))
    else if security.VList? && security.elems[0].VDict? then Some(GetOr(security.elems[0].entries, "evesso", VList([])))
    else None
  }

  /** Only the first security requirement is consulted. */
  lemma ScopesFirstOnly(data: Dict<string, Value>, first: Value, rest: seq<Value>, rest': seq<Value>)
    requires !HasKey(data, "security")
    ensures Scopes(data + [("security", VList([first] + rest))]) == Scopes(data + [("security", VList([first] + rest'))])
  {
    GetOrAppend(data, "security", VList([first] + rest));
    GetOrAppend(data, "security", VList([first] + rest'));
  }

  /** Looking up a key just appended finds it. */
  lemma {:induction false} GetOrAppend(data: Dict<string, Value>, key: string, v: Value)
    requires !HasKey(data, key)
    ensures GetOr(data + [(key, v)], key, VList([])) == v
  {
    if data != [] {
      assert (data + [(key, v)])[1..] == data[1..] + [(key, v)];
      assert data[0].0 == Keys(data)[0];
      assert Keys(data) == [data[0].0] + Keys(data[1..]);
      GetOrAppend(data[1..], key, v);
    }
  }

  /** `function_name`: the Pascal form of the operation id, keeping a
      double underscore as one `_`; `None` when the id is missing or is
      not a string. */
  function FunctionName(data: Dict<string, Value>): (r: Option<string>)
    ensures r.Some? <==> HasKey(data, "operationId") && Get(data, "operationId").value.VStr?
    ensures r.Some? ==> forall i :: 0 <= i < |r.value| ==> r.value[i] != '-' && r.value[i] != ' '
    ensures r.Some? ==> Erase(Lower(r.value), {'_'}) == Lower(Erase(Get(data, "operationId").value.s, Seps))
  {
    var id := Get(data, "operationId");
    if id.Some? && id.value.VStr? then
      ToPascalCaseShape(id.value.s, true);
      Some(ToPascalCase(id.value.s, true))
    else None
  }

  /** `description`: trailing whitespace, then trailing dashes, then
      trailing whitespace again removed; `None` when it is not a string. */
  function Description(data: Dict<string, Value>): (r: Option<string>)
    ensures GetOr(data, "description", VStr("")).VStr? <==> r.Some?
    ensures r.Some? ==> var s := GetOr(data, "description", VStr("")).s;
              && r.value <= s
              && (|r.value| == 0 || r.value[|r.value| - 1] !in Whitespace)
              && (forall i :: |r.value| <= i < |s| ==> s[i] in Whitespace || s[i] == '-')
  {
    match GetOr(data, "description", VStr(""))
    case VStr(s) =>
      var a := RStrip(s, Whitespace);
      var b := RStrip(a, {'-'});
      var c := RStrip(b, Whitespace);
      assert c <= b <= a <= s;
      Some(c)
    case _ => None
  }

  /** Stripping is not idempotent: a dash exposed by the last pass stays,
      so `"a - -"` loses only its final dash. */
  lemma DescriptionExample()
    ensures Description([("description", VStr("a - -"))]) == Some("a -")
    ensures Description([("description", VStr("a -"))]) == Some("a")
  {
    assert GetOr([("description", VStr("a - -"))], "description", VStr("")) == VStr("a - -");
    assert GetOr([("description", VStr("a -"))], "description", VStr("")) == VStr("a -");
    StripDashes();
    StripSpaces();
  }

  lemma StripDashes()
    ensures RStrip("a - -", Whitespace) == "a - -"
    ensures RStrip("a - -", {'-'}) == "a - "
    ensures RStrip("a -", Whitespace) == "a -"
    ensures RStrip("a -", {'-'}) == "a "
  {
    assert "a - -"[..4] == "a - " && "a -"[..2] == "a ";
  }

  lemma StripSpaces()
    ensures RStrip("a - ", Whitespace) == "a -"
    ensures RStrip("a ", Whitespace) == "a"
  {
    assert ' ' in Whitespace && '-' !in Whitespace && 'a' !in Whitespace;
    assert "a - "[..3] == "a -" && "a "[..1] == "a";
  }

  /** A parameter as `load_parameters` takes it: a built `Parameter` is
      kept, anything else goes through `Parameter.from_json`. */
  function AsParameter(x: Value): (r: Option<Node>)
    ensures x.VNode? && x.node.role == ParameterRole ==> r == Some(x.node)
    ensures r.Some? ==> r.value.role == ParameterRole
  {
    if x.VNode? && x.node.role == ParameterRole then Some(x.node) else FromJson(ParameterRole, x, false)
  }

  /** `load_parameters`: one parameter per element of `parameters`, in
      order. */
  function LoadParameters(data: Dict<string, Value>): (r: Option<seq<Node>>)
    ensures var raw := GetOr(data, "parameters", VList([]));
      r.Some? ==> (Iterate(raw).Some? && |r.value| == |Iterate(raw).value|
        && forall i :: 0 <= i < |r.value| ==> AsParameter(Iterate(raw).value[i]) == Some(r.value[i]))
    ensures var raw := GetOr(data, "parameters", VList([]));
      Iterate(raw).Some? && (forall i :: 0 <= i < |Iterate(raw).value| ==> AsParameter(Iterate(raw).value[i]).Some?) ==> r.Some?
  {
    match Iterate(GetOr(data, "parameters", VList([])))
    case None => None
    case Some(xs) => MapAll(xs, AsParameter)
  }

  /** A schema as `load_responses` takes it: a built node of the schema
      role is kept, anything else goes through `Schema.from_json`. */
  function AsSchema(x: Value): (r: Option<Node>)
    ensures x.VNode? && x.node.role == SchemaRole ==> r == Some(x.node)
    ensures r.Some? ==> r.value.role == SchemaRole
  {
    if x.VNode? && x.node.role == SchemaRole then Some(x.node) else FromJson(SchemaRole, x, false)
  }

  /** `load_responses`: the schema of every response whose status code
      parses as an integer, keyed by that integer (a later duplicate wins);
      other codes such as `default` are skipped. */
  function LoadResponses(data: Dict<string, Value>): (r: Option<Dict<int, Node>>)
    ensures r.Some? ==> GetOr(data, "responses", VDict([])).VDict?
    ensures r.Some? ==> UniqueKeys(r.value)
    ensures r.Some? ==> var codes := GetOr(data, "responses", VDict([])).entries;
              forall c :: HasKey(r.value, c) <==> exists j :: 0 <= j < |codes| && ParseInt(codes[j].0) == Some(c)
  {
    match GetOr(data, "responses", VDict([]))
    case VDict(codes) => Tabulate(codes, ParseInt, ResponseSchema, 0, [])
    case _ => None
  }

  /** The schema of one response: `data.get('schema', {})`, built unless
      it already is a schema node; `None` where that raises, because the
      data is not a dict or its schema does not build. */
  function ResponseSchema(d: Value): (r: Option<Node>)
    ensures !d.VDict? ==> r.None?
    ensures d.VDict? && !HasKey(d.entries, "schema") ==> r == AsSchema(VDict([]))
    ensures d.VDict? && HasKey(d.entries, "schema") ==> r == AsSchema(Get(d.entries, "schema").value)
  {
    if d.VDict? then AsSchema(GetOr(d.entries, "schema", VDict([]))) else None
  }

  /** `load_responses` raises exactly when `responses` is not a dict or
      one of its integer-coded responses fails to give a schema. */
  lemma ResponsesRaise(data: Dict<string, Value>)
    ensures var raw := GetOr(data, "responses", VDict([]));
      LoadResponses(data).None? <==>
        !raw.VDict? || exists j :: 0 <= j < |raw.entries| && ParseInt(raw.entries[j].0).Some? && ResponseSchema(raw.entries[j].1).None?
  {
    var raw := GetOr(data, "responses", VDict([]));
    if raw.VDict? {
      TabulateRaises(raw.entries, ParseInt, ResponseSchema, 0, []);
    }
  }

  /** Every integer code maps to the schema of the last response with
      that code. */
  lemma ResponsesLoaded(data: Dict<string, Value>, j: nat)
    requires var raw := GetOr(data, "responses", VDict([]));
      raw.VDict? && j < |raw.entries| && ParseInt(raw.entries[j].0).Some? && LastOfCode(raw.entries, ParseInt, j)
    ensures var codes := GetOr(data, "responses", VDict([])).entries;
      LoadResponses(data).Some? ==>
        Get(LoadResponses(data).value, ParseInt(codes[j].0).value) == ResponseSchema(codes[j].1)
  {
    var codes := GetOr(data, "responses", VDict([])).entries;
    if LoadResponses(data).Some? {
      TabulateValues(codes, ParseInt, ResponseSchema, 0, [], j);
    }
  }

  /** A response without a schema gets an empty schema node. */
  lemma EmptySchema()
    ensures AsSchema(VDict([])) == Some(Blank(SchemaRole))
  {
    var b := Blank(SchemaRole);
    var kw := [("_is_global", VBool(false))];
    assert Renamed([]) == [];
    assert [("_is_global", VBool(false))] + [] == kw;
    assert kw[0] == ("_is_global", VBool(false)) && kw[1..] == [];
    assert AttrOf("_is_global") == Some(IsGlobal);
    assert SetAttr(b, IsGlobal, VBool(false)) == b;
    assert SetAttrs(b, kw) == SetAttrs(b, []);
    assert PromoteItems(b) == Some(VNone) && PromoteProperties(b) == Some(VNone) && PromoteSchema(b) == Some(VNone);
  }

  /** `ordered_responses`: the responses sorted by status code. */
  function OrderedResponses(rs: Dict<int, Node>): (r: Dict<int, Node>)
    ensures multiset(r) == multiset(rs)
    ensures SortedCodes(r)
  {
    if rs == [] then []
    else
      assert rs == rs[..|rs| - 1] + [rs[|rs| - 1]];
      InsertCodeSorted(rs[|rs| - 1], OrderedResponses(rs[..|rs| - 1]));
      InsertCode(rs[|rs| - 1], OrderedResponses(rs[..|rs| - 1]))
  }

  predicate SortedCodes(s: Dict<int, Node>) {
    forall i, j :: 0 <= i < j < |s| ==> s[i].0 <= s[j].0
  }

  function InsertCode(x: (int, Node), s: Dict<int, Node>): (r: Dict<int, Node>)
    ensures multiset(r) == multiset(s) + multiset{x}
    ensures |r| == |s| + 1 && (r[0] == x || (s != [] && r[0] == s[0]))
  {
    if s == [] then [x]
    else if x.0 < s[0].0 then [x] + s
    else
      assert s == [s[0]] + s[1..];
      [s[0]] + InsertCode(x, s[1..])
  }

  /** Every response after an insertion is the inserted one or was there
      before. */
  lemma InsertCodeElement(x: (int, Node), t: Dict<int, Node>, j: nat)
    requires j < |InsertCode(x, t)|
    ensures InsertCode(x, t)[j] == x || InsertCode(x, t)[j] in t
  {
    assert InsertCode(x, t)[j] in multiset(InsertCode(x, t));
  }

  /** Inserting into sorted responses keeps them sorted. */
  lemma {:induction false} InsertCodeSorted(x: (int, Node), s: Dict<int, Node>)
    requires SortedCodes(s)
    ensures SortedCodes(InsertCode(x, s))
  {
    if s != [] && x.0 >= s[0].0 {
      var rest := InsertCode(x, s[1..]);
      InsertCodeSorted(x, s[1..]);
      forall j | 0 <= j < |rest| ensures s[0].0 <= rest[j].0 {
        InsertCodeElement(x, s[1..], j);
        if rest[j] != x {
          var a :| 0 <= a < |s[1..]| && s[1..][a] == rest[j];
          assert s[a + 1] == rest[j];
        }
      }
      assert InsertCode(x, s) == [s[0]] + rest;
    }
  }

  /** With distinct status codes the order is strict. */
  lemma {:induction false} OrderedResponsesStrict(rs: Dict<int, Node>)
    requires UniqueKeys(rs)
    ensures UniqueKeys(OrderedResponses(rs))
  {
    if rs != [] {
      var p := rs[..|rs| - 1];
      var x := rs[|rs| - 1];
      OrderedResponsesStrict(p);
      var s := OrderedResponses(p);
      forall k | 0 <= k < |s| ensures s[k].0 != x.0 {
        assert s[k] in multiset(s);
        var a :| 0 <= a < |p| && p[a] == s[k];
        assert rs[a] == p[a];
      }
      InsertCodeUnique(x, s);
    }
  }

  lemma {:induction false} InsertCodeUnique(x: (int, Node), s: Dict<int, Node>)
    requires SortedCodes(s) && UniqueKeys(s)
    requires forall k :: 0 <= k < |s| ==> s[k].0 != x.0
    ensures UniqueKeys(InsertCode(x, s))
  {
    if s != [] && x.0 >= s[0].0 {
      InsertCodeUnique(x, s[1..]);
      var rest := InsertCode(x, s[1..]);
      forall k | 0 <= k < |rest| ensures s[0].0 != rest[k].0 {
        InsertCodeElement(x, s[1..], k);
        if rest[k] != x {
          var a :| 0 <= a < |s[1..]| && s[1..][a] == rest[k];
          assert s[a + 1] == rest[k];
        }
      }
    }
  }
}
