/** The loaded document (`esi/spec/loader.py`): the global definitions and
    parameters, the operations keyed by operation id, a per-method index
    of them, and the left-biased merge of two documents. */
module Loader {
  import opened Wrappers
  import opened Dicts
  import opened Nodes
  import opened Describeable
  import opened Utils
  import opened Paths

  /** `ESISpec`: the (rewritten) raw document and the tables built from it. */
  datatype Spec = Spec(
    data: Dict<string, Value>,
    definitions: Dict<string, Node>,
    parameters: Dict<string, Node>,
    paths: Dict<string, Path>,
    byMethod: Dict<string, Dict<string, Path>>)

  // The per-method index.

  /** `paths_per_method[m][k]`, `None` where either lookup fails. */
  function Lookup(idx: Dict<string, Dict<string, Path>>, m: string, k: string): Option<Path> {
    match Get(idx, m)
    case Some(t) => Get(t, k)
    case None => None
  }

  /** `paths_per_method.setdefault(m, {})[k] = p` */
  function Index(idx: Dict<string, Dict<string, Path>>, m: string, k: string, p: Path): (r: Dict<string, Dict<string, Path>>)
    ensures Lookup(r, m, k) == Some(p)
    ensures forall m', k' :: (m' != m || k' != k) ==> Lookup(r, m', k') == Lookup(idx, m', k')
  {
    Put(idx, m, Put(Get(idx, m).GetOr([]), k, p))
  }

  /** Every operation is indexed under its own method, and every index
      entry is an operation of that method whose id is known. */
  ghost predicate Consistent(s: Spec) {
    && (forall k :: HasKey(s.paths, k) ==> Lookup(s.byMethod, Get(s.paths, k).value.verb, k) == Get(s.paths, k))
    && (forall m, k :: Lookup(s.byMethod, m, k).Some? ==>
          Lookup(s.byMethod, m, k).value.verb == m && HasKey(s.paths, k))
  }

  /** Moreover every index entry is the operation the main table holds. */
  ghost predicate Indexed(s: Spec) {
    && Consistent(s)
    && (forall m, k :: Lookup(s.byMethod, m, k).Some? ==> Get(s.paths, k) == Lookup(s.byMethod, m, k))
  }

  /** `self.paths[k] = p` together with its index entry. */
  function AddPath(s: Spec, k: string, p: Path): (r: Spec)
    ensures Get(r.paths, k) == Some(p) && forall k' :: k' != k ==> Get(r.paths, k') == Get(s.paths, k')
    ensures r.data == s.data && r.definitions == s.definitions && r.parameters == s.parameters
  {
    s.(paths := Put(s.paths, k, p), byMethod := Index(s.byMethod, p.verb, k, p))
  }

  lemma AddPathConsistent(s: Spec, k: string, p: Path)
    requires Consistent(s)
    ensures Consistent(AddPath(s, k, p))
  {
    var r := AddPath(s, k, p);
    forall k' | HasKey(r.paths, k') ensures Lookup(r.byMethod, Get(r.paths, k').value.verb, k') == Get(r.paths, k') {
      if k' != k {
        assert HasKey(s.paths, k');
      }
    }
    forall m, k' | Lookup(r.byMethod, m, k').Some?
      ensures Lookup(r.byMethod, m, k').value.verb == m && HasKey(r.paths, k')
    {
      if k' != k {
        assert HasKey(s.paths, k');
      }
    }
  }

  /** Adding an operation keeps the index exact when its id is new or was
      already used under the same method. */
  lemma AddPathIndexed(s: Spec, k: string, p: Path)
    requires Indexed(s)
    requires !HasKey(s.paths, k) || Get(s.paths, k).value.verb == p.verb
    ensures Indexed(AddPath(s, k, p))
  {
    AddPathConsistent(s, k, p);
  }

  /** Reusing an id under another method leaves the old method's index
      entry behind: it still names the replaced operation. */
  lemma AddPathStale(s: Spec, k: string, p: Path)
    requires Indexed(s)
    requires HasKey(s.paths, k) && Get(s.paths, k).value.verb != p.verb
    ensures !Indexed(AddPath(s, k, p))
  {
    var q := Get(s.paths, k).value;
    var r := AddPath(s, k, p);
    assert Lookup(r.byMethod, q.verb, k) == Some(q);
    assert Get(r.paths, k) == Some(p) != Some(q);
  }

  // Loading.

  /** One operation of the document: its URL template, method and raw
      operation object. */
  datatype Op = Op(url: string, verb: string, data: Dict<string, Value>)

  /** The operations of `paths` in document order; `None` where a table is
      not an object. */
  function Operations(data: Dict<string, Value>): (r: Option<seq<Op>>)
  {
    match GetOr(data, "paths", VDict([]))
    case VDict(urls) => UrlOps(urls, 0)
    case _ => None
  }

  function UrlOps(urls: Dict<string, Value>, i: nat): (r: Option<seq<Op>>)
    requires i <= |urls|
    decreases |urls| - i
  {
    if i == |urls| then Some([])
    else
      match (urls[i].1, UrlOps(urls, i + 1))
      case (VDict(methods), Some(rest)) =>
        (match MethodOps(urls[i].0, methods, 0)
         case Some(ops) => Some(ops + rest)
         case None => None)
      case _ => None
  }

  function MethodOps(url: string, methods: Dict<string, Value>, j: nat): (r: Option<seq<Op>>)
    requires j <= |methods|
    ensures r.Some? ==> |r.value| == |methods| - j
    ensures r.Some? ==> forall i :: 0 <= i < |r.value| ==>
              r.value[i].url == url && r.value[i].verb == methods[j + i].0 && VDict(r.value[i].data) == methods[j + i].1
    decreases |methods| - j
  {
    if j == |methods| then Some([])
    else
      match (methods[j].1, MethodOps(url, methods, j + 1))
      case (VDict(d), Some(rest)) => Some([Op(url, methods[j].0, d)] + rest)
      case _ => None
  }

  /** `path.operation_id`, where it can key a table of strings. */
  function OpId(op: Op): Option<string> {
    var id := Get(op.data, "operationId");
    if id.Some? && id.value.VStr? then Some(id.value.s) else None
  }

  /** `Path(url, method, data)` keyed by its operation id. */
  function Built(op: Op): (r: Option<(string, Path)>)
    ensures r.Some? ==> OpId(op) == Some(r.value.0) && NewPath(op.url, op.verb, op.data) == Some(r.value.1)
    ensures r.Some? <==> OpId(op).Some? && NewPath(op.url, op.verb, op.data).Some?
  {
    match (NewPath(op.url, op.verb, op.data), OpId(op))
    case (Some(p), Some(k)) => Some((k, p))
    case _ => None
  }

  /** Every operation built, in order; `None` where one raises. The source
      interleaves building and storing, which raises exactly as often. */
  function BuildAll(ops: seq<Op>): (r: Option<seq<(string, Path)>>)
    ensures r.Some? <==> forall i :: 0 <= i < |ops| ==> Built(ops[i]).Some?
    ensures r.Some? ==> |r.value| == |ops| && forall i :: 0 <= i < |ops| ==> Built(ops[i]) == Some(r.value[i])
  {
    MapAll(ops, Built)
  }

  /** `load_paths`' stores, for the built operations in order. */
  function AddAll(built: seq<(string, Path)>, s: Spec): (r: Spec)
    ensures r.data == s.data && r.definitions == s.definitions && r.parameters == s.parameters
  {
    if built == [] then s
    else AddPath(AddAll(built[..|built| - 1], s), built[|built| - 1].0, built[|built| - 1].1)
  }

  /** An id maps to the last operation stored under it. */
  lemma {:induction false} AddAllLast(built: seq<(string, Path)>, s: Spec, j: nat)
    requires j < |built| && forall i :: j < i < |built| ==> built[i].0 != built[j].0
    ensures Get(AddAll(built, s).paths, built[j].0) == Some(built[j].1)
  {
    var n := |built| - 1;
    if j < n {
      var prefix := built[..n];
      assert prefix[j] == built[j];
      assert forall i :: j < i < |prefix| ==> prefix[i] == built[i];
      AddAllLast(prefix, s, j);
      assert built[n].0 != built[j].0;
      AddAllGet(built, s, built[j].0);
    } else {
      assert j == n;
      AddAllGet(built, s, built[n].0);
    }
  }

  /** Looking an id up after the last store. */
  lemma AddAllGet(built: seq<(string, Path)>, s: Spec, k: string)
    requires built != []
    ensures var n := |built| - 1;
      Get(AddAll(built, s).paths, k) == if k == built[n].0 then Some(built[n].1) else Get(AddAll(built[..n], s).paths, k)
  {
    var n := |built| - 1;
    AddPathGet(AddAll(built[..n], s), built[n].0, built[n].1, k);
  }

  lemma AddPathGet(s: Spec, k: string, p: Path, k': string)
    ensures Get(AddPath(s, k, p).paths, k') == if k' == k then Some(p) else Get(s.paths, k')
  {
  }

  /** The keys of a table, as a set. */
  ghost function KeySet<V>(d: Dict<string, V>): set<string> {
    if d == [] then {} else {d[0].0} + KeySet(d[1..])
  }

  lemma {:induction false} KeySetHas<V>(d: Dict<string, V>, k: string)
    ensures k in KeySet(d) <==> HasKey(d, k)
  {
    if d != [] {
      KeySetHas(d[1..], k);
      assert Keys(d) == [d[0].0] + Keys(d[1..]);
    }
  }

  lemma {:induction false} KeySetPut<V>(d: Dict<string, V>, k: string, v: V)
    ensures KeySet(Put(d, k, v)) == KeySet(d) + {k}
  {
    if d == [] {
      KeySetCons((k, v), []);
    } else if d[0].0 != k {
      KeySetPut(d[1..], k, v);
      KeySetCons(d[0], Put(d[1..], k, v));
    } else {
      KeySetCons((k, v), d[1..]);
    }
  }

  lemma KeySetCons<V>(e: (string, V), rest: Dict<string, V>)
    ensures KeySet([e] + rest) == {e.0} + KeySet(rest)
  {
    assert ([e] + rest)[1..] == rest;
  }

  /** The operation ids of the built operations. */
  ghost function Ids(built: seq<(string, Path)>): set<string> {
    if built == [] then {} else Ids(built[..|built| - 1]) + {built[|built| - 1].0}
  }

  lemma {:induction false} IdsHas(built: seq<(string, Path)>, k: string)
    ensures k in Ids(built) <==> exists j :: 0 <= j < |built| && built[j].0 == k
  {
    if built != [] {
      var prefix := built[..|built| - 1];
      IdsHas(prefix, k);
      if exists j :: 0 <= j < |built| && built[j].0 == k {
        var j :| 0 <= j < |built| && built[j].0 == k;
        if j < |prefix| {
          assert prefix[j].0 == k;
        }
      }
    }
  }

  /** The operations are keyed by exactly the ids met, added to those
      already present. */
  lemma {:induction false} AddAllKeys(built: seq<(string, Path)>, s: Spec)
    ensures KeySet(AddAll(built, s).paths) == KeySet(s.paths) + Ids(built)
  {
    if built != [] {
      var (k, p) := built[|built| - 1];
      AddAllKeys(built[..|built| - 1], s);
      KeySetPut(AddAll(built[..|built| - 1], s).paths, k, p);
    }
  }

  lemma {:induction false} AddAllConsistent(built: seq<(string, Path)>, s: Spec)
    requires Consistent(s)
    ensures Consistent(AddAll(built, s))
  {
    if built != [] {
      var (k, p) := built[|built| - 1];
      AddAllConsistent(built[..|built| - 1], s);
      AddPathConsistent(AddAll(built[..|built| - 1], s), k, p);
    }
  }

  /** With distinct operation ids, none of them present beforehand, the
      index stays exact. */
  lemma {:induction false} AddAllIndexed(built: seq<(string, Path)>, s: Spec)
    requires Indexed(s) && UniqueKeys(built) && Ids(built) !! KeySet(s.paths)
    ensures Indexed(AddAll(built, s))
  {
    if built != [] {
      var (k, p) := built[|built| - 1];
      var prefix := built[..|built| - 1];
      IdsHas(prefix, k);
      AddAllIndexed(prefix, s);
      AddAllKeys(prefix, s);
      KeySetHas(AddAll(prefix, s).paths, k);
      AddPathIndexed(AddAll(prefix, s), k, p);
    }
  }

  /** A later operation reusing an id under another method leaves the
      index inexact. */
  lemma StaleIndex(s: Spec, k: string, p: Path, q: Path)
    requires Indexed(s) && !HasKey(s.paths, k) && p.verb != q.verb
    ensures !Indexed(AddAll([(k, p), (k, q)], s))
  {
    var l := [(k, p), (k, q)];
    var s1 := AddPath(s, k, p);
    assert AddAll([(k, p)], s) == s1 by {
      assert [(k, p)][..0] == [];
    }
    assert l[..1] == [(k, p)];
    AddPathIndexed(s, k, p);
    AddPathStale(s1, k, q);
  }

  /** `load_globals` for one table: every entry of the raw table built as
      a global node of `role`, under the same key and in the same order;
      `None` where one does not build. */
  function GlobalTable(role: Role, raw: Dict<string, Value>): (r: Option<Dict<string, Node>>)
    ensures r.Some? <==> forall i :: 0 <= i < |raw| ==> FromJson(role, raw[i].1, true).Some?
    ensures r.Some? ==> Keys(r.value) == Keys(raw)
    ensures r.Some? ==> forall i :: 0 <= i < |raw| ==> FromJson(role, raw[i].1, true) == Some(r.value[i].1)
    ensures r.Some? ==> forall i :: 0 <= i < |raw| ==> r.value[i].1.isGlobal && r.value[i].1.role == role
  {
    MapValues(raw, v => FromJson(role, v, true))
  }

  /** `defs[key] = obj`: the raw table afterwards holds the very nodes of
      the global table. */
  function WrittenBack(table: Dict<string, Node>): (w: Dict<string, Value>)
    ensures Keys(w) == Keys(table)
    ensures forall i :: 0 <= i < |table| ==> w[i].1 == VNode(table[i].1)
  {
    if table == [] then [] else [(table[0].0, VNode(table[0].1))] + WrittenBack(table[1..])
  }

  /** `load_globals`: both global tables built, and the raw tables the
      document holds rewritten to the same nodes. */
  function LoadGlobals(data: Dict<string, Value>): (r: Option<(Dict<string, Value>, Dict<string, Node>, Dict<string, Node>)>)
    ensures r.Some? ==> GetOr(data, "definitions", VDict([])).VDict? && GetOr(data, "parameters", VDict([])).VDict?
    ensures r.Some? ==> Keys(r.value.1) == Keys(GetOr(data, "definitions", VDict([])).entries)
    ensures r.Some? ==> Keys(r.value.2) == Keys(GetOr(data, "parameters", VDict([])).entries)
    ensures r.Some? ==> forall i :: 0 <= i < |r.value.1| ==> r.value.1[i].1.isGlobal && r.value.1[i].1.role == SchemaRole
    ensures r.Some? ==> forall i :: 0 <= i < |r.value.2| ==> r.value.2[i].1.isGlobal && r.value.2[i].1.role == ParameterRole
    ensures r.Some? && HasKey(data, "definitions") ==> Get(r.value.0, "definitions") == Some(VDict(WrittenBack(r.value.1)))
    ensures r.Some? && HasKey(data, "parameters") ==> Get(r.value.0, "parameters") == Some(VDict(WrittenBack(r.value.2)))
    ensures r.Some? ==> forall k :: k != "definitions" && k != "parameters" ==> Get(r.value.0, k) == Get(data, k)
  {
    var defs := GetOr(data, "definitions", VDict([]));
    var params := GetOr(data, "parameters", VDict([]));
    if !defs.VDict? || !params.VDict? then None
    else
      match (GlobalTable(SchemaRole, defs.entries), GlobalTable(ParameterRole, params.entries))
      case (Some(dt), Some(pt)) =>
        var data1 := if HasKey(data, "definitions") then Put(data, "definitions", VDict(WrittenBack(dt))) else data;
        var data2 := if HasKey(data, "parameters") then Put(data1, "parameters", VDict(WrittenBack(pt))) else data1;
        Some((data2, dt, pt))
      case _ => None
  }

  /** `ESISpec(data)`: the globals, then every operation, in document
      order; `None` where construction raises. */
  function NewSpec(data: Dict<string, Value>): (r: Option<Spec>)
    ensures r.Some? ==> Consistent(r.value)
    ensures r.Some? ==> LoadGlobals(data).Some? && r.value.data == LoadGlobals(data).value.0
    ensures r.Some? ==> r.value.definitions == LoadGlobals(data).value.1 && r.value.parameters == LoadGlobals(data).value.2
  {
    match LoadGlobals(data)
    case None => None
    case Some((d, defs, params)) =>
      var s0 := Spec(d, defs, params, [], []);
      match Operations(d)
      case None => None
      case Some(ops) =>
        match BuildAll(ops)
        case None => None
        case Some(built) =>
          AddAllConsistent(built, s0);
          Some(AddAll(built, s0))
  }

  /** With distinct operation ids the per-method index of a loaded
      document is exact. */
  lemma NewSpecIndexed(data: Dict<string, Value>)
    requires NewSpec(data).Some?
    requires UniqueKeys(BuildAll(Operations(LoadGlobals(data).value.0).value).value)
    ensures Indexed(NewSpec(data).value)
  {
    var (d, defs, params) := LoadGlobals(data).value;
    var built := BuildAll(Operations(d).value).value;
    var s0 := Spec(d, defs, params, [], []);
    NewSpecBuilt(data);
    EmptyIndexed(s0);
    AddAllIndexed(built, s0);
  }

  /** A loaded document is its globals with every built operation added. */
  lemma NewSpecBuilt(data: Dict<string, Value>)
    requires NewSpec(data).Some?
    ensures var (d, defs, params) := LoadGlobals(data).value;
            NewSpec(data) == Some(AddAll(BuildAll(Operations(d).value).value, Spec(d, defs, params, [], [])))
  {
  }

  lemma EmptyIndexed(s: Spec)
    requires s.paths == [] && s.byMethod == []
    ensures Indexed(s) && KeySet(s.paths) == {}
  {
  }

  // Merging.

  /** The entries of `b` whose keys `a` lacks, added to `a` in order: the
      dict comprehension followed by `update` of `combine_defs`. */
  function AddMissing<V>(a: Dict<string, V>, b: Dict<string, V>): (r: Dict<string, V>)
    ensures forall k :: HasKey(a, k) ==> Get(r, k) == Get(a, k)
    ensures forall k :: HasKey(r, k) <==> HasKey(a, k) || HasKey(b, k)
  {
    if b == [] then a
    else
      var n := |b| - 1;
      var r := AddMissing(a, b[..n]);
      assert Keys(b) == Keys(b[..n]) + [b[n].0];
      if HasKey(a, b[n].0) then r else Put(r, b[n].0, b[n].1)
  }

  /** With distinct keys in `b`, every key `a` lacks takes `b`'s value. */
  lemma {:induction false} AddMissingValues<V>(a: Dict<string, V>, b: Dict<string, V>, k: string)
    requires UniqueKeys(b) && !HasKey(a, k)
    ensures Get(AddMissing(a, b), k) == Get(b, k)
  {
    if b != [] {
      var n := |b| - 1;
      assert b == b[..n] + [b[n]];
      AddMissingValues(a, b[..n], k);
      if k == b[n].0 {
        GetAt(b, n);
      } else {
        GetAppend(b[..n], b[n].0, b[n].1, k);
      }
    }
  }

  /** Merging what is already there changes nothing. */
  lemma {:induction false} AddMissingPresent<V>(a: Dict<string, V>, b: Dict<string, V>)
    requires forall k :: HasKey(b, k) ==> HasKey(a, k)
    ensures AddMissing(a, b) == a
  {
    if b != [] {
      var n := |b| - 1;
      assert Keys(b) == Keys(b[..n]) + [b[n].0];
      AddMissingPresent(a, b[..n]);
    }
  }

  /** `combine_defs` */
  function CombineDefs(a: Spec, b: Spec): (r: Spec)
    ensures r.data == a.data && r.paths == a.paths && r.byMethod == a.byMethod
    ensures r.definitions == AddMissing(a.definitions, b.definitions)
    ensures r.parameters == AddMissing(a.parameters, b.parameters)
  {
    a.(parameters := AddMissing(a.parameters, b.parameters), definitions := AddMissing(a.definitions, b.definitions))
  }

  /** The operations of `b` whose ids `a` lacks, in order. */
  function NewEntries(b: Dict<string, Path>, a: Dict<string, Path>): (r: seq<(string, Path)>)
    ensures forall e :: e in r ==> e in b && !HasKey(a, e.0)
    ensures forall j :: 0 <= j < |b| && !HasKey(a, b[j].0) ==> b[j] in r
    ensures UniqueKeys(b) ==> UniqueKeys(r)
  {
    if b == [] then []
    else
      var n := |b| - 1;
      var r := NewEntries(b[..n], a);
      assert forall j :: 0 <= j < n ==> b[j] == b[..n][j];
      if HasKey(a, b[n].0) then r
      else
        assert UniqueKeys(b) ==> forall e :: e in r ==> e.0 != b[n].0;
        r + [b[n]]
  }

  /** `combine_functions` */
  function CombineFunctions(a: Spec, b: Spec): (r: Spec)
    ensures r == AddAll(NewEntries(b.paths, a.paths), a)
    ensures forall k :: HasKey(a.paths, k) ==> Get(r.paths, k) == Get(a.paths, k)
  {
    var added := NewEntries(b.paths, a.paths);
    AddAllKeeps(added, a);
    AddAll(added, a)
  }

  /** Operations whose ids are not added keep their entries. */
  lemma {:induction false} AddAllKeeps(built: seq<(string, Path)>, s: Spec)
    requires forall e :: e in built ==> !HasKey(s.paths, e.0)
    ensures forall k :: HasKey(s.paths, k) ==> Get(AddAll(built, s).paths, k) == Get(s.paths, k)
  {
    if built != [] {
      var n := |built| - 1;
      assert forall e :: e in built[..n] ==> e in built;
      AddAllKeeps(built[..n], s);
    }
  }

  /** `self += other` */
  function IAdd(a: Spec, b: Spec): (r: Spec)
    ensures r.data == a.data
    ensures forall k :: HasKey(a.paths, k) ==> Get(r.paths, k) == Get(a.paths, k)
    ensures forall k :: HasKey(a.definitions, k) ==> Get(r.definitions, k) == Get(a.definitions, k)
    ensures forall k :: HasKey(a.parameters, k) ==> Get(r.parameters, k) == Get(a.parameters, k)
  {
    CombineFunctions(CombineDefs(a, b), b)
  }

  /** After `+=` every id of the right document is known. */
  lemma IAddPaths(a: Spec, b: Spec, k: string)
    requires HasKey(b.paths, k)
    ensures HasKey(IAdd(a, b).paths, k)
  {
    var c := CombineDefs(a, b);
    var added := NewEntries(b.paths, a.paths);
    assert IAdd(a, b) == AddAll(added, c);
    AddAllKeys(added, c);
    KeySetHas(AddAll(added, c).paths, k);
    KeySetHas(a.paths, k);
    if !HasKey(a.paths, k) {
      NewEntriesIds(b.paths, a.paths, k);
    }
  }

  /** With distinct ids on the right, an id the left document lacks ends
      up with the right document's operation. */
  lemma IAddTakes(a: Spec, b: Spec, k: string)
    requires UniqueKeys(b.paths) && HasKey(b.paths, k) && !HasKey(a.paths, k)
    ensures Get(IAdd(a, b).paths, k) == Get(b.paths, k)
  {
    var j :| 0 <= j < |b.paths| && Keys(b.paths)[j] == k;
    GetAt(b.paths, j);
    NewEntriesLast(b.paths, a.paths, j, CombineDefs(a, b));
  }

  /** A new entry is stored last under its id. */
  lemma NewEntriesLast(b: Dict<string, Path>, a: Dict<string, Path>, j: nat, c: Spec)
    requires UniqueKeys(b) && j < |b| && !HasKey(a, b[j].0)
    ensures Get(AddAll(NewEntries(b, a), c).paths, b[j].0) == Some(b[j].1)
  {
    var added := NewEntries(b, a);
    assert b[j] in added;
    var i :| 0 <= i < |added| && added[i] == b[j];
    AddAllLast(added, c, i);
  }

  /** An id of `b` that `a` lacks is among the new entries. */
  lemma NewEntriesIds(b: Dict<string, Path>, a: Dict<string, Path>, k: string)
    requires HasKey(b, k) && !HasKey(a, k)
    ensures k in Ids(NewEntries(b, a))
  {
    var added := NewEntries(b, a);
    var j :| 0 <= j < |b| && Keys(b)[j] == k;
    assert b[j] in added;
    IdsHas(added, k);
  }

  /** Nothing is new when every id is already present. */
  lemma NewEntriesNone(b: Dict<string, Path>, a: Dict<string, Path>)
    requires forall k :: HasKey(b, k) ==> HasKey(a, k)
    ensures NewEntries(b, a) == []
  {
  }

  /** `+=` keeps the per-method index exact. */
  lemma IAddIndexed(a: Spec, b: Spec)
    requires Indexed(a) && UniqueKeys(b.paths)
    ensures Indexed(IAdd(a, b))
  {
    var added := NewEntries(b.paths, a.paths);
    forall k | k in Ids(added) ensures k !in KeySet(a.paths) {
      IdsHas(added, k);
      KeySetHas(a.paths, k);
      var j :| 0 <= j < |added| && added[j].0 == k;
      assert added[j] in added;
    }
    AddAllIndexed(added, CombineDefs(a, b));
  }

  /** Adding the same document twice is adding it once. */
  lemma IAddIdempotent(a: Spec, b: Spec)
    ensures IAdd(IAdd(a, b), b) == IAdd(a, b)
  {
    var r := IAdd(a, b);
    IAddShape(a, b);
    AddMissingPresent(r.definitions, b.definitions);
    AddMissingPresent(r.parameters, b.parameters);
    assert CombineDefs(r, b) == r;
    forall k | HasKey(b.paths, k) ensures HasKey(r.paths, k) {
      IAddPaths(a, b, k);
    }
    NewEntriesNone(b.paths, r.paths);
    IAddShape(r, b);
  }

  /** `+=` merges the tables, then adds the new operations. */
  lemma IAddShape(a: Spec, b: Spec)
    ensures IAdd(a, b) == AddAll(NewEntries(b.paths, a.paths), CombineDefs(a, b))
    ensures IAdd(a, b).definitions == AddMissing(a.definitions, b.definitions)
    ensures IAdd(a, b).parameters == AddMissing(a.parameters, b.parameters)
  {
  }

  // Document properties.

  /** `host` */
  function Host(s: Spec): (r: Value)
    ensures HasKey(s.data, "host") ==> Get(s.data, "host") == Some(r)
    ensures !HasKey(s.data, "host") ==> r == VNone
  {
    GetOr(s.data, "host", VNone)
  }

  /** `_info`: the `info` object, `{}` when absent. */
  function Info(s: Spec): Value {
    GetOr(s.data, "info", VDict([]))
  }

  /** `self._info.get(key, default)`; `None` when `info` is not an object. */
  function InfoGet(s: Spec, key: string, default: Value): (r: Option<Value>)
    ensures r.Some? <==> Info(s).VDict?
    ensures r.Some? && !HasKey(Info(s).entries, key) ==> r.value == default
    ensures r.Some? && HasKey(Info(s).entries, key) ==> Get(Info(s).entries, key) == r
  {
    match Info(s)
    case VDict(e) => Some(GetOr(e, key, default))
    case _ => None
  }

  /** `description` */
  function InfoDescription(s: Spec): Option<Value> {
    InfoGet(s, "description", VStr(""))
  }

  /** `title` */
  function InfoTitle(s: Spec): Option<Value> {
    InfoGet(s, "title", VStr("EVE Swagger Interface"))
  }

  /** `base_path` */
  function BasePath(s: Spec): (r: Value)
    ensures !HasKey(s.data, "basePath") ==> r == VStr("/")
    ensures HasKey(s.data, "basePath") ==> Get(s.data, "basePath") == Some(r)
  {
    GetOr(s.data, "basePath", VStr("/"))
  }

  /** `schemes` */
  function Schemes(s: Spec): (r: Value)
    ensures !HasKey(s.data, "schemes") ==> r == VList([VStr("https")])
    ensures HasKey(s.data, "schemes") ==> Get(s.data, "schemes") == Some(r)
  {
    GetOr(s.data, "schemes", VList([VStr("https")]))
  }

  /** `sso`: the `evesso` security definition, `{}` when absent; `None`
      when the security definitions are not an object. */
  function Sso(s: Spec): (r: Option<Value>)
    ensures !HasKey(s.data, "securityDefinitions") ==> r == Some(VDict([]))
    ensures r.None? <==> !GetOr(s.data, "securityDefinitions", VDict([])).VDict?
    ensures r.Some? && HasKey(s.data, "securityDefinitions") ==>
      var e := Get(s.data, "securityDefinitions").value.entries;
      r.value == if HasKey(e, "evesso") then Get(e, "evesso").value else VDict([])
  {
    match GetOr(s.data, "securityDefinitions", VDict([]))
    case VDict(e) => Some(GetOr(e, "evesso", VDict([])))
    case _ => None
  }

  /** A document with no top-level keys takes every default. */
  lemma EmptyDocumentDefaults(s: Spec)
    requires s.data == []
    ensures Host(s) == VNone && BasePath(s) == VStr("/") && Schemes(s) == VList([VStr("https")])
    ensures InfoDescription(s) == Some(VStr("")) && InfoTitle(s) == Some(VStr("EVE Swagger Interface"))
    ensures Sso(s) == Some(VDict([]))
  {
  }

  /** What `from_spec` fetches, or the `InvalidSpecError` it raises first. */
  datatype Fetch = FetchUrl(url: string) | InvalidSpec(name: string)

  /** `ESISpec.from_spec`: only a preset name is fetched. */
  function FromSpec(spec: string): (r: Fetch)
    ensures r.FetchUrl? <==> spec in SpecUrls
    ensures r.FetchUrl? ==> r.url == SpecUrl(spec)
    ensures r.InvalidSpec? ==> r.name == spec
  {
    if spec !in SpecUrls then InvalidSpec(spec) else FetchUrl(SpecUrl(spec))
  }

  /** Different preset names fetch different documents. */
  lemma SpecUrlInjective(a: string, b: string)
    requires SpecUrl(a) == SpecUrl(b)
    ensures a == b
  {
    var tail := "/swagger.json";
    assert (a + tail)[..|a|] == a && (b + tail)[..|b|] == b;
    assert SpecUrl(a)[24..] == a + tail && SpecUrl(b)[24..] == b + tail;
  }
}
