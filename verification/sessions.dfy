/** The transport-independent half of a session: turning a bound call into
    the pieces of an HTTP request, and deciding what a response becomes.
    The HTTP client, the scheme and host lookup and `urlunparse` are not
    modelled; the path handed to `urlunparse` is. */
module Sessions {
  import opened Wrappers
  import opened Text
  import opened Dicts
  import opened Nodes
  import opened Errors
  import opened Types
  import opened Functions

  // Default headers.

  /** `esi.auth_token`: a value, or a callable that produces one. */
  datatype AuthToken = Token(v: Value) | TokenSource(produces: Value)

  /** The token after a callable has been called; `None` when the token
      itself is falsy and never looked at again. Callables are truthy. */
  function TokenValue(t: AuthToken): Option<Value> {
    match t
    case Token(v) => if Truthy(v) then Some(v) else None
    case TokenSource(v) => Some(v)
  }

  /** Whether a bearer token is sent. */
  predicate Authorized(t: AuthToken) {
    TokenValue(t).Some? && Truthy(TokenValue(t).value)
  }

  /** `default_headers`: the user agent (the configured one when non-empty,
      else the library's), and a bearer token when the token is truthy. */
  function DefaultHeaders(userAgent: Option<string>, libraryAgent: string, token: AuthToken): (r: Dict<string, string>)
    ensures UniqueKeys(r)
    ensures Get(r, "User-Agent") == Some(if userAgent.Some? && userAgent.value != "" then userAgent.value else libraryAgent)
    ensures HasKey(r, "Authorization") <==> Authorized(token)
    ensures Authorized(token) ==> Get(r, "Authorization") == Some("Bearer " + Render(TokenValue(token).value))
    ensures forall k :: HasKey(r, k) ==> k == "User-Agent" || k == "Authorization"
  {
    var agent := if userAgent.Some? && userAgent.value != "" then userAgent.value else libraryAgent;
    var hdrs := [("User-Agent", agent)];
    if Authorized(token) then
      var r := hdrs + [("Authorization", "Bearer " + Render(TokenValue(token).value))];
      assert Keys(r) == ["User-Agent", "Authorization"];
      r
    else
      assert Keys(hdrs) == ["User-Agent"];
      hdrs
  }

  /** A callable token is the token it returns, as long as that is truthy. */
  lemma TokenSourceAsToken(userAgent: Option<string>, libraryAgent: string, v: Value)
    ensures Truthy(v) ==> DefaultHeaders(userAgent, libraryAgent, TokenSource(v)) == DefaultHeaders(userAgent, libraryAgent, Token(v))
    ensures !Truthy(v) ==> DefaultHeaders(userAgent, libraryAgent, TokenSource(v)) == DefaultHeaders(userAgent, libraryAgent, Token(VNone))
  {
  }

  // Query and body.

  /** `str` of every element of a list. */
  function Rendered(l: seq<Value>): (r: seq<string>)
    ensures |r| == |l|
    ensures forall i :: 0 <= i < |l| ==> r[i] == Render(l[i])
  {
    seq(|l|, i requires 0 <= i < |l| => Render(l[i]))
  }

  /** How one query argument is sent: lists comma-joined, anything else as
      its `str`. */
  function QueryValue(v: Value): string {
    match v
    case VList(l) => Join(",", Rendered(l))
    case _ => Render(v)
  }

  function QueryPairs(q: Dict<string, Value>): (r: seq<(string, string)>)
    ensures |r| == |q|
    ensures forall i :: 0 <= i < |q| ==> r[i] == (q[i].0, QueryValue(q[i].1))
  {
    seq(|q|, i requires 0 <= i < |q| => (q[i].0, QueryValue(q[i].1)))
  }

  /** `prepare_query`: `None` without a query bucket, else one pair per
      argument, in order. */
  function PrepareQuery(query: Option<Dict<string, Value>>): (r: Option<seq<(string, string)>>)
    ensures r.Some? <==> query.Some?
    ensures r.Some? ==> Keys(r.value) == Keys(query.value)
  {
    if query.None? then None else Some(QueryPairs(query.value))
  }

  /** A list of strings without commas is recovered by splitting what is
      sent at its commas. */
  lemma QueryListRoundTrip(l: seq<string>)
    requires |l| >= 1
    requires forall i :: 0 <= i < |l| ==> ',' !in l[i]
    ensures Split(QueryValue(VList(seq(|l|, i requires 0 <= i < |l| => VStr(l[i])))), ',') == l
  {
    var vs := seq(|l|, i requires 0 <= i < |l| => VStr(l[i]));
    assert Rendered(vs) == l;
    SplitJoin(l, ',');
  }

  /** `prepare_body`: the first body argument when there is one; an empty
      or missing bucket is passed on as it is. */
  function PrepareBody(body: Option<Dict<string, Value>>): (r: Option<Value>)
    ensures r.Some? <==> body.Some?
    ensures r.Some? && body.value == [] ==> r.value == VDict([])
    ensures r.Some? && body.value != [] ==> r.value == body.value[0].1
  {
    match body
    case None => None
    case Some(d) => if d == [] then Some(VDict([])) else Some(d[0].1)
  }

  /** The body sent is the value bound to the body parameter. */
  lemma PrepareBodyStored(name: string, v: Value)
    ensures Store(NoArguments, Some("body"), name, v).Some?
    ensures PrepareBody(Some(Store(NoArguments, Some("body"), name, v).value.body)) == Some(v)
  {
    assert Slot(Some("body")) == Some(0);
  }

  // Path.

  function Prepend(p: string, r: Option<string>): (q: Option<string>)
    ensures q.Some? <==> r.Some?
    ensures q.Some? ==> q.value == p + r.value
  {
    if r.None? then None else Some(p + r.value)
  }

  /** A field name `str.format` treats as positional: empty or all digits.
      With no positional arguments these always raise. */
  predicate Positional(name: string) {
    forall i :: 0 <= i < |name| ==> IsDigit(name[i])
  }

  /** `template.format(**args)`: `{{` and `}}` are literal braces, `{name}`
      is replaced by `str` of the named argument; a missing argument, a
      positional field, an unterminated field or a lone `}` raise. */
  function Format(t: string, args: Dict<string, Value>): (r: Option<string>)
    decreases |t|
  {
    if t == [] then Some("")
    else if t[0] == '{' then
      if |t| > 1 && t[1] == '{' then Prepend("{", Format(t[2..], args))
      else
        var k := Find(t[1..], '}');
        var name := t[1..1 + k];
        if 1 + k == |t| || '{' in name || Positional(name) then None
        else
          match Get(args, name)
          case None => None
          case Some(v) => Prepend(Render(v), Format(t[k + 2..], args))
    else if t[0] == '}' then
      if |t| > 1 && t[1] == '}' then Prepend("}", Format(t[2..], args)) else None
    else Prepend([t[0]], Format(t[1..], args))
  }

  /** Text without braces formats to itself. */
  lemma {:induction false} FormatPlain(t: string, args: Dict<string, Value>)
    requires '{' !in t && '}' !in t
    ensures Format(t, args) == Some(t)
  {
    if t != [] {
      FormatPlain(t[1..], args);
      assert [t[0]] + t[1..] == t;
    }
  }

  /** A template starting with a field looks the field's name up. */
  lemma FieldHead(name: string, b: string, args: Dict<string, Value>)
    requires '{' !in name && '}' !in name && !Positional(name)
    ensures Format("{" + name + "}" + b, args) ==
      if HasKey(args, name) then Prepend(Render(Get(args, name).value), Format(b, args)) else None
  {
    var t := "{" + name + "}" + b;
    assert t[1..] == name + ("}" + b);
    FindPast(name, "}" + b, '}');
    var k := Find(t[1..], '}');
    assert t[1..1 + k] == name;
    assert t[k + 2..] == b;
    assert name != [];
    assert t[0] == '{' && t[1] == name[0];
  }

  /** A plain character is copied. */
  lemma FormatChar(c: char, rest: string, args: Dict<string, Value>)
    requires c != '{' && c != '}'
    ensures Format([c] + rest, args) == Prepend([c], Format(rest, args))
  {
    assert ([c] + rest)[1..] == rest;
  }

  /** A field whose name is an argument is replaced by that argument's
      `str`; the text before it is kept and the rest is formatted on. */
  lemma FormatField(a: string, name: string, b: string, args: Dict<string, Value>)
    requires '{' !in a && '}' !in a
    requires '{' !in name && '}' !in name && !Positional(name)
    requires HasKey(args, name)
    ensures Format(a + "{" + name + "}" + b, args) == Prepend(a + Render(Get(args, name).value), Format(b, args))
  {
    var u := "{" + name + "}" + b;
    assert a + "{" + name + "}" + b == a + u;
    FieldAfter(a, u, name, b, args);
  }

  lemma {:induction false} FieldAfter(a: string, u: string, name: string, b: string, args: Dict<string, Value>)
    requires '{' !in a && '}' !in a
    requires '{' !in name && '}' !in name && !Positional(name)
    requires HasKey(args, name) && u == "{" + name + "}" + b
    ensures Format(a + u, args) == Prepend(a + Render(Get(args, name).value), Format(b, args))
  {
    if a == [] {
      FieldHead(name, b, args);
      assert a + u == u;
      assert a + Render(Get(args, name).value) == Render(Get(args, name).value);
    } else {
      FieldAfter(a[1..], u, name, b, args);
      assert a[0] in a;
      FieldStep(a, u, Render(Get(args, name).value), Format(b, args), args);
    }
  }

  /** One plain character in front of a text that formats to `r` followed
      by the rest. */
  lemma FieldStep(a: string, u: string, r: string, fb: Option<string>, args: Dict<string, Value>)
    requires a != [] && a[0] != '{' && a[0] != '}'
    requires Format(a[1..] + u, args) == Prepend(a[1..] + r, fb)
    ensures Format(a + u, args) == Prepend(a + r, fb)
  {
    FormatChar(a[0], a[1..] + u, args);
    assert a + u == [a[0]] + (a[1..] + u);
    PrependTwice([a[0]], a[1..] + r, fb);
    assert [a[0]] + (a[1..] + r) == a + r;
  }

  lemma PrependTwice(p: string, q: string, o: Option<string>)
    ensures Prepend(p, Prepend(q, o)) == Prepend(p + q, o)
  {
    if o.Some? {
      assert p + (q + o.value) == p + q + o.value;
    }
  }

  /** A field naming no argument makes the whole format raise. */
  lemma {:induction false} FormatMissing(a: string, name: string, b: string, args: Dict<string, Value>)
    requires '{' !in a && '}' !in a
    requires '{' !in name && '}' !in name && !Positional(name)
    requires !HasKey(args, name)
    ensures Format(a + "{" + name + "}" + b, args) == None
  {
    if a == [] {
      FieldHead(name, b, args);
      assert a + "{" + name + "}" + b == "{" + name + "}" + b;
    } else {
      FormatMissing(a[1..], name, b, args);
      assert a[0] in a;
      FormatChar(a[0], a[1..] + "{" + name + "}" + b, args);
      assert a + "{" + name + "}" + b == [a[0]] + (a[1..] + "{" + name + "}" + b);
    }
  }

  /** The path part of `prepare_url`: the base path without trailing
      slashes, one slash, then the template without leading slashes and
      with its fields filled from the path arguments. A missing base path
      counts as empty. */
  function PreparePath(base: string, template: string, args: Dict<string, Value>): (r: Option<string>)
    ensures r.Some? <==> Format(LStrip(template, {'/'}), args).Some?
    ensures r.Some? ==> RStrip(base, {'/'}) + "/" <= r.value
  {
    match Format(LStrip(template, {'/'}), args)
    case None => None
    case Some(url) => Some(RStrip(base, {'/'}) + "/" + url)
  }

  /** Exactly one slash joins base and template, unless the template's
      first field itself fills in a leading slash. */
  lemma PreparePathSeam(base: string, template: string, args: Dict<string, Value>, r: string)
    requires PreparePath(base, template, args) == Some(r)
    requires var t := LStrip(template, {'/'}); t == [] || t[0] != '{'
    ensures var b := RStrip(base, {'/'});
      && (|b| == 0 || r[|b| - 1] != '/')
      && r[|b|] == '/'
      && (|r| == |b| + 1 || r[|b| + 1] != '/')
  {
    var t := LStrip(template, {'/'});
    var b := RStrip(base, {'/'});
    var url := Format(t, args).value;
    assert r == b + "/" + url;
    assert t == [] || t[0] != '/';
    NoLeadingSlash(t, args);
    Seam(b, url);
  }

  /** A template not starting with a field formats to text starting with
      its own first character. */
  lemma FormatFirst(t: string, args: Dict<string, Value>)
    requires t != [] && t[0] != '{' && Format(t, args).Some?
    ensures Format(t, args).value != [] && Format(t, args).value[0] == t[0]
  {
    if t[0] == '}' {
      assert Format(t, args).value == "}" + Format(t[2..], args).value;
    } else {
      assert Format(t, args).value == [t[0]] + Format(t[1..], args).value;
    }
  }

  lemma NoLeadingSlash(t: string, args: Dict<string, Value>)
    requires Format(t, args).Some?
    requires t == [] || (t[0] != '{' && t[0] != '/')
    ensures Format(t, args).value == [] || Format(t, args).value[0] != '/'
  {
    if t != [] {
      FormatFirst(t, args);
    }
  }

  lemma Seam(b: string, url: string)
    requires |b| == 0 || b[|b| - 1] != '/'
    requires url == [] || url[0] != '/'
    ensures var r := b + "/" + url;
      && (|b| == 0 || r[|b| - 1] != '/')
      && r[|b|] == '/'
      && (|r| == |b| + 1 || r[|b| + 1] != '/')
  {
  }

  // The scope gate and the whole preparation.

  /** What `prepare_call` yields: the request pieces, or the exception it
      raises first. */
  datatype CallPlan =
    | Planned(path: string, query: Option<seq<(string, string)>>, body: Option<Value>, headers: Dict<string, Value>)
    | ScopeDenied(error: ScopeRequired)
    | FormatFailed

  /** The scope check runs only with scopes enabled and not ignored. */
  predicate GateCloses(scopes: seq<string>, enabled: seq<string>, ignoreScopes: bool) {
    |enabled| > 0 && !ignoreScopes && !ValidateScopes(scopes, Some(enabled))
  }

  /** `prepare_call`, on a bound call's buckets. */
  function PrepareCall(b: Buckets, scopes: seq<string>, template: string, base: string,
                       enabled: seq<string>, ignoreScopes: bool): (r: CallPlan)
    ensures r.ScopeDenied? <==> GateCloses(scopes, enabled, ignoreScopes)
    ensures r.ScopeDenied? ==> r.error.missingScopes == scopes
    ensures r.FormatFailed? <==> !GateCloses(scopes, enabled, ignoreScopes) && PreparePath(base, template, b.path).None?
    ensures r.Planned? ==> r.headers == b.headers && r.query.Some? && r.body.Some?
    ensures r.Planned? ==>
      && PreparePath(base, template, b.path) == Some(r.path)
      && r.query == PrepareQuery(Some(b.query))
      && r.body == PrepareBody(Some(b.body))
    ensures !GateCloses(scopes, enabled, ignoreScopes) && PreparePath(base, template, b.path).Some? ==> r.Planned?
  {
    if GateCloses(scopes, enabled, ignoreScopes) then ScopeDenied(MakeScopeRequired(Some(scopes)))
    else
      match PreparePath(base, template, b.path)
      case None => FormatFailed
      case Some(path) => Planned(path, PrepareQuery(Some(b.query)), PrepareBody(Some(b.body)), b.headers)
  }

  /** With scopes enabled and not ignored, a call is refused exactly when
      one of its scopes is not enabled; otherwise it is never refused. */
  lemma ScopeGate(b: Buckets, scopes: seq<string>, template: string, base: string, enabled: seq<string>, ignoreScopes: bool)
    ensures |enabled| > 0 && !ignoreScopes ==>
      (PrepareCall(b, scopes, template, base, enabled, ignoreScopes).ScopeDenied? <==> exists x :: x in scopes && x !in enabled)
    ensures |enabled| == 0 || ignoreScopes ==> !PrepareCall(b, scopes, template, base, enabled, ignoreScopes).ScopeDenied?
  {
  }

  // Responses.

  /** What `process_response` returns or raises. */
  datatype Response =
    | Raw(data: Value)
    | Reply(status: int, body: Value, headers: Dict<string, string>)
    | ResponseError(status: int, body: Value, headers: Dict<string, string>)
    | ConversionFailed

  /** The per-call flag when given, else the session's. */
  function EffectiveRaise(raiseIfError: Option<bool>, sessionRaise: bool): bool {
    if raiseIfError.Some? then raiseIfError.value else sessionRaise
  }

  /** `process_response`: without a schema for the status the data is
      returned untouched; otherwise truthy data is converted, and an error
      status raises when the effective flag is set. */
  function ProcessResponse(lib: Natives, responses: Dict<int, Node>, status: int, data: Value,
                           headers: Dict<string, string>, raiseIfError: Option<bool>, sessionRaise: bool): (r: Response)
    ensures r.Raw? <==> !HasKey(responses, status)
    ensures r.Raw? ==> r.data == data
    ensures r.ResponseError? ==> !(200 <= status < 400) && EffectiveRaise(raiseIfError, sessionRaise)
    ensures r.Reply? ==> (200 <= status < 400) || !EffectiveRaise(raiseIfError, sessionRaise)
    ensures (r.Reply? || r.ResponseError?) ==> r.status == status && r.headers == headers
    ensures (r.Reply? || r.ResponseError?) && !Truthy(data) ==> r.body == data
    ensures r.ConversionFailed? <==>
              HasKey(responses, status) && Truthy(data) && Convert(lib, Load, Get(responses, status).value, data).None?
    ensures (r.Reply? || r.ResponseError?) && Truthy(data) ==>
              Convert(lib, Load, Get(responses, status).value, data) == Some(r.body)
  {
    match Get(responses, status)
    case None => Raw(data)
    case Some(schema) =>
      var doRaise := EffectiveRaise(raiseIfError, sessionRaise);
      var converted := if Truthy(data) then Convert(lib, Load, schema, data) else Some(data);
      match converted
      case None => ConversionFailed
      case Some(d) =>
        if !(200 <= status < 400) && doRaise then ResponseError(status, d, headers)
        else Reply(status, d, headers)
  }

  /** Data that is the wire form of a value under the status's schema
      comes back as that value, whatever the status and flags. */
  lemma ResponseRoundTrip(lib: Natives, responses: Dict<int, Node>, status: int, v: Value, w: Value,
                          headers: Dict<string, string>, raiseIfError: Option<bool>, sessionRaise: bool)
    requires HasKey(responses, status) && Truthy(w)
    requires Convert(lib, Dump, Get(responses, status).value, v) == Some(w)
    requires Convert(lib, Load, Get(responses, status).value, w) == Some(v)
    ensures var r := ProcessResponse(lib, responses, status, w, headers, raiseIfError, sessionRaise);
      (r.Reply? || r.ResponseError?) && r.body == v && r.status == status
  {
  }

  /** With a schema and data that converts, the call raises exactly for a
      status outside [200, 400) with the effective flag set, and the flag
      passed to the call overrides the session's. */
  lemma ResponseRaises(lib: Natives, responses: Dict<int, Node>, status: int, data: Value,
                       headers: Dict<string, string>, raiseIfError: Option<bool>, sessionRaise: bool)
    requires HasKey(responses, status)
    requires Truthy(data) ==> Convert(lib, Load, Get(responses, status).value, data).Some?
    ensures var r := ProcessResponse(lib, responses, status, data, headers, raiseIfError, sessionRaise);
      && (r.ResponseError? <==> !(200 <= status < 400) && EffectiveRaise(raiseIfError, sessionRaise))
      && (r.Reply? <==> (200 <= status < 400) || !EffectiveRaise(raiseIfError, sessionRaise))
    ensures raiseIfError.Some? ==> EffectiveRaise(raiseIfError, sessionRaise) == raiseIfError.value
  {
  }
}
