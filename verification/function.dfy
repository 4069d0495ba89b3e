/** The generated call classes (`esi/spec/function.py`): binding the
    keyword arguments of one call to the request parts, validating them on
    the way, and checking the token's scopes. */
module Functions {
  import opened Wrappers
  import opened Dicts
  import opened Nodes
  import opened Errors
  import opened Types
  import opened Parameters

  /** `self.data`: one dict per request part. */
  datatype Buckets = Buckets(
    body: Dict<string, Value>,
    headers: Dict<string, Value>,
    path: Dict<string, Value>,
    query: Dict<string, Value>)

  const NoArguments: Buckets := Buckets([], [], [], [])

  /** The keyword that switches validation errors off. */
  const SkipKey: string := "esi_skip_validation"

  /** Which dict a location names: `header` is bound to the very same dict
      as `headers`; any other location has no dict. */
  function Slot(part: Option<string>): (r: Option<nat>)
    ensures r.Some? <==> part.Some? && part.value in {"body", "header", "headers", "path", "query"}
    ensures r.Some? ==> r.value < 4
  {
    match part
    case Some("body") => Some(0)
    case Some("header") => Some(1)
    case Some("headers") => Some(1)
    case Some("path") => Some(2)
    case Some("query") => Some(3)
    case _ => None
  }

  /** The dict in slot `k`. */
  function BucketAt(b: Buckets, k: nat): Dict<string, Value> {
    if k == 0 then b.body else if k == 1 then b.headers else if k == 2 then b.path else b.query
  }

  /** `data[part]` */
  function Bucket(b: Buckets, part: Option<string>): (r: Option<Dict<string, Value>>)
    ensures r.Some? <==> Slot(part).Some?
  {
    match Slot(part)
    case Some(k) => Some(BucketAt(b, k))
    case None => None
  }

  /** Arguments for `header` and for `headers` land in one dict. */
  lemma HeaderAlias(b: Buckets, name: string, v: Value)
    ensures Store(b, Some("header"), name, v) == Store(b, Some("headers"), name, v)
    ensures Bucket(Store(b, Some("header"), name, v).value, Some("headers")) == Some(Put(b.headers, name, v))
  {
  }

  /** `data[part][name] = value`; `None` for a location without a dict
      (the `KeyError`). */
  function Store(b: Buckets, part: Option<string>, name: string, v: Value): (r: Option<Buckets>)
    ensures r.Some? <==> Slot(part).Some?
    ensures r.Some? ==> BucketAt(r.value, Slot(part).value) == Put(BucketAt(b, Slot(part).value), name, v)
    ensures r.Some? ==> forall k :: k < 4 && k != Slot(part).value ==> BucketAt(r.value, k) == BucketAt(b, k)
  {
    match Slot(part)
    case Some(0) => Some(b.(body := Put(b.body, name, v)))
    case Some(1) => Some(b.(headers := Put(b.headers, name, v)))
    case Some(2) => Some(b.(path := Put(b.path, name, v)))
    case Some(_) => Some(b.(query := Put(b.query, name, v)))
    case None => None
  }

  /** The state of the binding loop: the keywords not yet popped, the
      parts filled so far and the errors collected so far. */
  datatype Progress = Progress(kwargs: Dict<string, Value>, buckets: Buckets, errors: Dict<string, seq<Leaf>>)

  /** The argument a keyword dict holds for a parameter. */
  function ArgOf(p: Node, kwargs: Dict<string, Value>): Value {
    match SafeName(p)
    case Some(k) => Get(kwargs, k).GetOr(VNone)
    case None => VNone
  }

  /** One turn of the loop in `__init__`: pop the argument; skip it when it
      equals the default under Python's `==` (`Types.PyEq`); otherwise
      validate it, file its errors under the safe name, and store it in its
      part even when invalid. `None` where the turn raises anything but a
      `ValidationError`. */
  function Bind(p: Node, s: Progress): (r: Option<Progress>)
    ensures r.None? <==>
      || SafeName(p).None?
      || !HasKey(s.kwargs, SafeName(p).value)
      || (!PyEq(ArgOf(p, s.kwargs), p.default) && (Validate(p, ArgOf(p, s.kwargs)).Crash? || Slot(Part(p)).None?))
    ensures r.Some? ==> r.value.kwargs == Remove(s.kwargs, SafeName(p).value)
    ensures r.Some? && PyEq(ArgOf(p, s.kwargs), p.default) ==> r.value.buckets == s.buckets && r.value.errors == s.errors
    ensures r.Some? && !PyEq(ArgOf(p, s.kwargs), p.default) ==>
      && Store(s.buckets, Part(p), p.name.value, ArgOf(p, s.kwargs)) == Some(r.value.buckets)
      && r.value.errors == match Validate(p, ArgOf(p, s.kwargs))
                           case Invalid(e) => UpdateErrorDict(e, s.errors, SafeName(p).value)
                           case _ => s.errors
  {
    match SafeName(p)
    case None => None
    case Some(k) =>
      match Get(s.kwargs, k)
      case None => None
      case Some(v) =>
        var kwargs := Remove(s.kwargs, k);
        if PyEq(v, p.default) then Some(s.(kwargs := kwargs))
        else
          match (Validate(p, v), Store(s.buckets, Part(p), p.name.value, v))
          case (Crash(_), _) => None
          case (_, None) => None
          case (Ok(_), Some(buckets)) => Some(Progress(kwargs, buckets, s.errors))
          case (Invalid(e), Some(buckets)) => Some(Progress(kwargs, buckets, UpdateErrorDict(e, s.errors, k)))
  }

  /** The loop over `self.params` from position `i` on. */
  function BindFrom(params: seq<Node>, i: nat, s: Progress): (r: Option<Progress>)
    requires i <= |params|
    decreases |params| - i
  {
    if i == |params| then Some(s)
    else
      match Bind(params[i], s)
      case None => None
      case Some(s') => BindFrom(params, i + 1, s')
  }

  /** Whether the call asked to skip validation. */
  predicate SkipRequested(kwargs: Dict<string, Value>) {
    Truthy(Get(kwargs, SkipKey).GetOr(VBool(false)))
  }

  /** `Function(**kwargs)`: the filled parts; a `ValidationError` holding
      every collected error when some argument was invalid and validation
      was not skipped. */
  function Call(params: seq<Node>, kwargs: Dict<string, Value>): (r: Outcome<Buckets>)
    ensures r.Invalid? ==> !SkipRequested(kwargs) && r.error.ErrDict? && r.error.fields != []
  {
    match BindFrom(params, 0, Progress(Remove(kwargs, SkipKey), NoArguments, []))
    case None => Crash("argument binding raised")
    case Some(s) =>
      if s.errors != [] && !SkipRequested(kwargs) then Invalid(ErrDict(s.errors)) else Ok(s.buckets)
  }

  /** An error that leaves a trace in an error dict: a dict error without
      fields adds nothing. */
  predicate Contributes(e: ValidationError) {
    e.ErrList? || e.fields != []
  }

  /** A parameter whose argument was given, differs from the default and
      fails validation with an error that is filed. */
  predicate Rejected(p: Node, kwargs: Dict<string, Value>) {
    var v := ArgOf(p, kwargs);
    !PyEq(v, p.default) && Validate(p, v).Invalid? && Contributes(Validate(p, v).error)
  }

  /** The argument `v` sits under the parameter's name in its part. */
  predicate Holds(b: Buckets, p: Node, v: Value) {
    p.name.Some? && Bucket(b, Part(p)).Some? && Get(Bucket(b, Part(p)).value, p.name.value) == Some(v)
  }

  /** What a call can rely on: every parameter has a safe name other than
      the skip keyword, an argument under it, and a name no other
      parameter has; every argument that differs from its default
      validates without an unexpected exception and has a part to go to. */
  predicate WellFormed(params: seq<Node>, kwargs: Dict<string, Value>) {
    && (forall j :: 0 <= j < |params| ==>
          && SafeName(params[j]).Some? && SafeName(params[j]).value != SkipKey
          && HasKey(kwargs, SafeName(params[j]).value))
    && (forall i, j :: 0 <= i < j < |params| ==> SafeName(params[i]) != SafeName(params[j]))
    && (forall j :: 0 <= j < |params| && !PyEq(ArgOf(params[j], kwargs), params[j].default) ==>
          !Validate(params[j], ArgOf(params[j], kwargs)).Crash? && Slot(Part(params[j])).Some?)
  }

  lemma UpdateNonEmpty(e: ValidationError, d: Dict<string, seq<Leaf>>, prefix: string)
    ensures UpdateErrorDict(e, d, prefix) != [] <==> d != [] || Contributes(e)
  {
    var r := UpdateErrorDict(e, d, prefix);
    if d != [] {
      assert Keys(d)[0] == d[0].0;
      assert HasKey(r, d[0].0);
    } else if e.ErrList? {
      assert Get(r, prefix).Some?;
    } else if e.fields != [] {
      var fs := e.fields;
      var k0 := FieldKey(prefix, fs[0].0);
      var d' := Extend(d, k0, fs[0].1);
      assert HasKey(d', k0);
      assert r == PrefixFields(fs[1..], d', prefix);
    }
  }

  /** The keywords left at position `i` still hold the call's arguments
      for the parameters not yet bound. */
  predicate Agrees(params: seq<Node>, i: nat, kw: Dict<string, Value>, kwargs: Dict<string, Value>) {
    forall j :: i <= j < |params| ==>
      && SafeName(params[j]).Some?
      && ArgOf(params[j], kwargs) == ArgOf(params[j], kw)
      && HasKey(kwargs, SafeName(params[j]).value)
  }

  /** One turn of a well-formed loop succeeds and leaves the later
      arguments in place. */
  lemma BindStep(params: seq<Node>, i: nat, kw: Dict<string, Value>, s: Progress)
    requires WellFormed(params, kw) && i < |params| && Agrees(params, i, kw, s.kwargs)
    ensures Bind(params[i], s).Some?
    ensures Agrees(params, i + 1, kw, Bind(params[i], s).value.kwargs)
  {
    var k := SafeName(params[i]).value;
    var s' := Bind(params[i], s).value;
    forall j | i + 1 <= j < |params|
      ensures ArgOf(params[j], s'.kwargs) == ArgOf(params[j], kw) && HasKey(s'.kwargs, SafeName(params[j]).value)
    {
      assert SafeName(params[j]).value != k;
    }
  }

  /** A well-formed loop finishes, and ends with errors exactly when it
      started with some or one of its parameters is rejected. */
  lemma {:induction false} BindFromErrors(params: seq<Node>, i: nat, kw: Dict<string, Value>, s: Progress)
    requires WellFormed(params, kw) && i <= |params| && Agrees(params, i, kw, s.kwargs)
    ensures BindFrom(params, i, s).Some?
    ensures BindFrom(params, i, s).value.errors != [] <==>
              s.errors != [] || exists j :: i <= j < |params| && Rejected(params[j], kw)
    decreases |params| - i
  {
    if i < |params| {
      var p := params[i];
      BindStep(params, i, kw, s);
      var s' := Bind(p, s).value;
      BindFromErrors(params, i + 1, kw, s');
      BindErrors(p, s, kw);
      RejectedSplit(params, i, kw);
    }
  }

  /** One turn ends with errors exactly when it started with some or
      rejects its parameter. */
  lemma BindErrors(p: Node, s: Progress, kw: Dict<string, Value>)
    requires Bind(p, s).Some? && ArgOf(p, s.kwargs) == ArgOf(p, kw)
    ensures Bind(p, s).value.errors != [] <==> s.errors != [] || Rejected(p, kw)
  {
    var v := ArgOf(p, kw);
    if !PyEq(v, p.default) && Validate(p, v).Invalid? {
      UpdateNonEmpty(Validate(p, v).error, s.errors, SafeName(p).value);
    }
  }

  lemma RejectedSplit(params: seq<Node>, i: nat, kw: Dict<string, Value>)
    requires i < |params|
    ensures (exists j :: i <= j < |params| && Rejected(params[j], kw)) <==>
            Rejected(params[i], kw) || exists j :: i + 1 <= j < |params| && Rejected(params[j], kw)
  {
    if exists j :: i <= j < |params| && Rejected(params[j], kw) {
      var j :| i <= j < |params| && Rejected(params[j], kw);
      assert j == i || (i + 1 <= j < |params| && Rejected(params[j], kw));
    }
  }

  /** One turn keeps what was stored under another name. */
  lemma BindKeeps(p: Node, s: Progress, q: Node, w: Value)
    requires Bind(p, s).Some? && Holds(s.buckets, q, w) && p.name != q.name
    ensures Holds(Bind(p, s).value.buckets, q, w)
  {
  }

  /** A well-formed loop keeps what was stored under a name none of its
      remaining parameters has. */
  lemma {:induction false} BindFromKeeps(params: seq<Node>, i: nat, kw: Dict<string, Value>, s: Progress, q: Node, w: Value)
    requires WellFormed(params, kw) && i <= |params| && Agrees(params, i, kw, s.kwargs)
    requires Holds(s.buckets, q, w) && forall j :: i <= j < |params| ==> params[j].name != q.name
    ensures BindFrom(params, i, s).Some? && Holds(BindFrom(params, i, s).value.buckets, q, w)
    decreases |params| - i
  {
    if i < |params| {
      BindStep(params, i, kw, s);
      BindKeeps(params[i], s, q, w);
      BindFromKeeps(params, i + 1, kw, Bind(params[i], s).value, q, w);
    }
  }

  /** A well-formed loop stores every argument from position `i` on that
      differs from its default. */
  lemma {:induction false} BindFromStores(params: seq<Node>, i: nat, kw: Dict<string, Value>, s: Progress, j: nat)
    requires WellFormed(params, kw) && i <= j < |params| && Agrees(params, i, kw, s.kwargs)
    requires !PyEq(ArgOf(params[j], kw), params[j].default)
    ensures BindFrom(params, i, s).Some? && Holds(BindFrom(params, i, s).value.buckets, params[j], ArgOf(params[j], kw))
    decreases |params| - i
  {
    BindStep(params, i, kw, s);
    var s' := Bind(params[i], s).value;
    if i < j {
      BindFromStores(params, i + 1, kw, s', j);
    } else {
      var p := params[i];
      assert Holds(s'.buckets, p, ArgOf(p, kw));
      forall k | i + 1 <= k < |params| ensures params[k].name != p.name {
        assert SafeName(params[k]) != SafeName(p);
      }
      BindFromKeeps(params, i + 1, kw, s', p, ArgOf(p, kw));
    }
  }

  /** A call whose parameters are well formed never raises anything but a
      `ValidationError`; it raises one exactly when validation is not
      skipped and some argument is rejected; otherwise every argument that
      differs from its default is stored under the parameter's name in the
      parameter's part. */
  lemma CallOutcome(params: seq<Node>, kwargs: Dict<string, Value>)
    requires WellFormed(params, kwargs)
    ensures !Call(params, kwargs).Crash?
    ensures Call(params, kwargs).Invalid? <==>
              !SkipRequested(kwargs) && exists j :: 0 <= j < |params| && Rejected(params[j], kwargs)
    ensures Call(params, kwargs).Ok? ==>
              forall j :: 0 <= j < |params| && !PyEq(ArgOf(params[j], kwargs), params[j].default) ==>
                Holds(Call(params, kwargs).value, params[j], ArgOf(params[j], kwargs))
  {
    var s := Progress(Remove(kwargs, SkipKey), NoArguments, []);
    forall j | 0 <= j < |params|
      ensures ArgOf(params[j], s.kwargs) == ArgOf(params[j], kwargs) && HasKey(s.kwargs, SafeName(params[j]).value)
    {
      assert SafeName(params[j]).value != SkipKey;
    }
    BindFromErrors(params, 0, kwargs, s);
    forall j | 0 <= j < |params| && !PyEq(ArgOf(params[j], kwargs), params[j].default)
      ensures Holds(BindFrom(params, 0, s).value.buckets, params[j], ArgOf(params[j], kwargs))
    {
      BindFromStores(params, 0, kwargs, s, j);
    }
  }

  /** An argument equal to its parameter's default under Python's `==` is
      skipped: it is neither validated nor stored. */
  lemma DefaultSkipped(p: Node, v: Value)
    requires p.name.Some? && SafeName(p).value != SkipKey && PyEq(v, p.default)
    ensures Call([p], [(SafeName(p).value, v)]) == Ok(NoArguments)
  {
    var k := SafeName(p).value;
    var kw: Dict<string, Value> := [(k, v)];
    assert Remove(kw, SkipKey) == kw;
    assert Get(kw, k) == Some(v);
    var s := Progress(kw, NoArguments, []);
    assert Bind(p, s) == Some(Progress(Remove(kw, k), NoArguments, []));
    assert BindFrom([p], 0, s) == BindFrom([p], 1, Progress(Remove(kw, k), NoArguments, []));
  }

  /** A `1` given for a default of `1.0`, and a `0` given for a default of
      `False`, count as the default. */
  lemma DefaultComparedByValue(p: Node)
    requires p.name.Some? && SafeName(p).value != SkipKey
    ensures p.default == VFloat(1.0) ==> Call([p], [(SafeName(p).value, VInt(1))]) == Ok(NoArguments)
    ensures p.default == VBool(false) ==> Call([p], [(SafeName(p).value, VInt(0))]) == Ok(NoArguments)
  {
    PyEqExamples();
    if p.default == VFloat(1.0) {
      DefaultSkipped(p, VInt(1));
    }
    if p.default == VBool(false) {
      DefaultSkipped(p, VInt(0));
    }
  }

  /** `validate_scopes`: an operation without scopes is always allowed;
      otherwise every scope it needs must be among the active ones, and a
      missing list of active scopes allows nothing. */
  function ValidateScopes(scopes: seq<string>, active: Option<seq<string>>): (r: bool)
    ensures r <==> scopes == [] || (active.Some? && forall x :: x in scopes ==> x in active.value)
  {
    if scopes == [] then true
    else if active.None? then false
    else AllActive(scopes, active.value, 0)
  }

  /** `all(x in active for x in scopes[i:])` */
  function AllActive(scopes: seq<string>, active: seq<string>, i: nat): (r: bool)
    requires i <= |scopes|
    ensures r <==> forall j :: i <= j < |scopes| ==> scopes[j] in active
    decreases |scopes| - i
  {
    i == |scopes| || (scopes[i] in active && AllActive(scopes, active, i + 1))
  }

  /** Granting more scopes never withdraws access. */
  lemma ScopesMonotone(scopes: seq<string>, active: seq<string>, more: seq<string>)
    requires ValidateScopes(scopes, Some(active))
    requires forall x :: x in active ==> x in more
    ensures ValidateScopes(scopes, Some(more))
  {
  }
}
