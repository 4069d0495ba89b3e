/** Building a schema node from keyword arguments or from a JSON fragment
    (`Describeable.__init__` and `Describeable.from_json`).

    Construction has two phases. First every keyword the node's class knows
    is stored as an attribute and every other keyword is dropped. Then the
    structural attributes are promoted: a raw `items` fragment becomes an
    `Item` node; otherwise raw `properties` entries become `Property` nodes;
    and a `schema` fragment on a node without a type becomes a `Schema` node
    and the type becomes `"schema"`.

    A construction that raises (a fragment that is not a dict, a duplicated
    keyword) yields `None`. */
module Describeable {
  import opened Wrappers
  import opened Dicts
  import opened Nodes
  import opened Utils

  /** The attributes a node class declares; the last three only the
      parameter class has. */
  datatype Attr =
    | Title | Type | Format | Description | IsGlobal | RequiredAttr | Properties | Items
    | SchemaAttr | Default | MinItems | MaxItems | UniqueItems | Minimum | Maximum
    | Enum | In | Name

  /** The attribute an underscore-prefixed keyword names, if any. */
  function AttrOf(k: string): (r: Option<Attr>)
    ensures r == Some(IsGlobal) ==> k == "_is_global"
  {
    match k
    case "_title" => Some(Title)
    case "_type" => Some(Type)
    case "_format" => Some(Format)
    case "_description" => Some(Description)
    case "_is_global" => Some(IsGlobal)
    case "_required" => Some(RequiredAttr)
    case "_properties" => Some(Properties)
    case "_items" => Some(Items)
    case "_schema" => Some(SchemaAttr)
    case "_default" => Some(Default)
    case "_min_items" => Some(MinItems)
    case "_max_items" => Some(MaxItems)
    case "_unique_items" => Some(UniqueItems)
    case "_minimum" => Some(Minimum)
    case "_maximum" => Some(Maximum)
    case "_enum" => Some(Enum)
    case "_in" => Some(In)
    case "_name" => Some(Name)
    case _ => None
  }

  /** `hasattr(self, k)` for the attributes that hold data. */
  predicate HasAttr(role: Role, k: string) {
    AttrOf(k).Some? && (AttrOf(k).value in {Enum, In, Name} ==> role == ParameterRole)
  }

  /** The keyword a JSON key is passed as. */
  function AttrName(key: string): string {
    "_" + ToCamelCase(key)
  }

  function AsStr(v: Value): Option<string> {
    if v.VStr? then Some(v.s) else None
  }

  /** The string elements of a list, which are the only ones a property
      name can match. */
  function Strings(l: seq<Value>): (r: seq<string>)
    ensures forall s :: s in r <==> VStr(s) in l
  {
    if l == [] then []
    else (if l[0].VStr? then [l[0].s] else []) + Strings(l[1..])
  }

  /** `required` as stored: it is as truthy as the value given, and a
      list's names are its string elements. */
  function AsRequired(v: Value): (r: Required)
    ensures RequiredTruthy(r) <==> Truthy(v)
    ensures v.VList? ==> r.Names? && forall s :: s in r.names <==> VStr(s) in v.elems
  {
    match v
    case VBool(b) => Flag(b)
    case VList(l) => Names(Strings(l), |l|)
    case _ => Flag(Truthy(v))
  }

  /** The node with attribute `a` put back to its class default; two nodes
      with equal clears differ at most in `a`. */
  function Clear(n: Node, a: Attr): Node {
    var b := Blank(n.role);
    match a
    case Title => n.(title := b.title)
    case Type => n.(kind := b.kind)
    case Format => n.(format := b.format)
    case Description => n.(description := b.description)
    case IsGlobal => n.(isGlobal := b.isGlobal)
    case RequiredAttr => n.(required := b.required)
    case Properties => n.(properties := b.properties)
    case Items => n.(items := b.items)
    case SchemaAttr => n.(schema := b.schema)
    case Default => n.(default := b.default)
    case MinItems => n.(minItems := b.minItems)
    case MaxItems => n.(maxItems := b.maxItems)
    case UniqueItems => n.(uniqueItems := b.uniqueItems)
    case Minimum => n.(minimum := b.minimum)
    case Maximum => n.(maximum := b.maximum)
    case Enum => n.(enum := b.enum)
    case In => n.(location := b.location)
    case Name => n.(name := b.name)
  }

  /** The attributes kept as the `Value` they were given. */
  predicate StoredRaw(a: Attr) {
    a in {Title, Description, Properties, Items, SchemaAttr, Default, MinItems, MaxItems, Minimum, Maximum, Enum}
  }

  /** The value of an attribute kept raw. */
  function Raw(n: Node, a: Attr): Value
    requires StoredRaw(a)
  {
    match a
    case Title => n.title
    case Description => n.description
    case Properties => n.properties
    case Items => n.items
    case SchemaAttr => n.schema
    case Default => n.default
    case MinItems => n.minItems
    case MaxItems => n.maxItems
    case Minimum => n.minimum
    case Maximum => n.maximum
    case Enum => n.enum
  }

  /** `setattr(self, k, v)`: only attribute `a` changes. Value-typed
      attributes, the bounds among them, hold `v` itself. */
  function SetAttr(n: Node, a: Attr, v: Value): (r: Node)
    ensures Clear(r, a) == Clear(n, a)
    ensures r.role == n.role
    ensures r.items == if a == Items then v else n.items
    ensures r.properties == if a == Properties then v else n.properties
    ensures r.schema == if a == SchemaAttr then v else n.schema
    ensures a != IsGlobal ==> r.isGlobal == n.isGlobal
    ensures StoredRaw(a) ==> Raw(r, a) == v
  {
    match a
    case Title => n.(title := v)
    case Type => n.(kind := AsStr(v))
    case Format => n.(format := AsStr(v))
    case Description => n.(description := v)
    case IsGlobal => n.(isGlobal := Truthy(v))
    case RequiredAttr => n.(required := AsRequired(v))
    case Properties => n.(properties := v)
    case Items => n.(items := v)
    case SchemaAttr => n.(schema := v)
    case Default => n.(default := v)
    case MinItems => n.(minItems := v)
    case MaxItems => n.(maxItems := v)
    case UniqueItems => n.(uniqueItems := Truthy(v))
    case Minimum => n.(minimum := v)
    case Maximum => n.(maximum := v)
    case Enum => n.(enum := v)
    case In => n.(location := AsStr(v))
    case Name => n.(name := AsStr(v))
  }

  /** The first phase of `__init__`: store each known keyword, in order. */
  function SetAttrs(n: Node, kwargs: Dict<string, Value>): (r: Node)
    ensures r.role == n.role
    ensures r.items == n.items || r.items in Values(kwargs)
    ensures r.properties == n.properties || r.properties in Values(kwargs)
    ensures r.schema == n.schema || r.schema in Values(kwargs)
    ensures !HasKey(kwargs, "_is_global") ==> r.isGlobal == n.isGlobal
    decreases |kwargs|
  {
    if kwargs == [] then n
    else
      var (k, v) := kwargs[0];
      var n' := if HasAttr(n.role, k) then SetAttr(n, AttrOf(k).value, v) else n;
      var r := SetAttrs(n', kwargs[1..]);
      assert Values(kwargs) == [v] + Values(kwargs[1..]);
      assert Keys(kwargs) == [k] + Keys(kwargs[1..]);
      r
  }

  /** The keywords a class of the given role accepts. */
  function Known(role: Role, kwargs: Dict<string, Value>): Dict<string, Value>
  {
    if kwargs == [] then []
    else (if HasAttr(role, kwargs[0].0) then [kwargs[0]] else []) + Known(role, kwargs[1..])
  }

  /** Keywords the class does not know have no effect at all. */
  lemma {:induction false} SetAttrsKnown(n: Node, kwargs: Dict<string, Value>)
    ensures SetAttrs(n, kwargs) == SetAttrs(n, Known(n.role, kwargs))
    decreases |kwargs|
  {
    if kwargs != [] {
      var (k, v) := kwargs[0];
      var n' := if HasAttr(n.role, k) then SetAttr(n, AttrOf(k).value, v) else n;
      SetAttrsKnown(n', kwargs[1..]);
      if HasAttr(n.role, k) {
        var kn := Known(n.role, kwargs);
        assert kn == [kwargs[0]] + Known(n.role, kwargs[1..]);
        assert kn[0] == kwargs[0] && kn[1..] == Known(n.role, kwargs[1..]);
      } else {
        assert Known(n.role, kwargs) == Known(n.role, kwargs[1..]);
      }
    }
  }

  /** Overwriting or adding a keyword the class does not know leaves the
      known keywords as they were. */
  lemma {:induction false} KnownPut(role: Role, kwargs: Dict<string, Value>, k: string, v: Value)
    requires !HasAttr(role, k)
    ensures Known(role, Put(kwargs, k, v)) == Known(role, kwargs)
    decreases |kwargs|
  {
    if kwargs == [] {
      assert Known(role, [(k, v)]) == [] + Known(role, []);
    } else if kwargs[0].0 == k {
      var p := [(k, v)] + kwargs[1..];
      assert p[0] == (k, v) && p[1..] == kwargs[1..];
    } else {
      KnownPut(role, kwargs[1..], k, v);
      var p := [kwargs[0]] + Put(kwargs[1..], k, v);
      assert p[0] == kwargs[0] && p[1..] == Put(kwargs[1..], k, v);
    }
  }

  /** The keyword arguments `from_json` builds: each key renamed, a later
      key that renames to the same keyword overwriting the earlier value in
      place, as a dict comprehension does. */
  function Renamed(d: Dict<string, Value>): (r: Dict<string, Value>)
    ensures forall v :: v in Values(r) ==> v in Values(d)
    decreases |d|
  {
    if d == [] then []
    else
      var last := d[|d| - 1];
      var r := Put(Renamed(d[..|d| - 1]), AttrName(last.0), last.1);
      PutValues(Renamed(d[..|d| - 1]), AttrName(last.0), last.1);
      r
  }

  lemma {:induction false} PutValues<V>(d: Dict<string, V>, k: string, v: V)
    ensures forall x :: x in Values(Put(d, k, v)) ==> x in Values(d) || x == v
    decreases |d|
  {
    if d != [] && d[0].0 != k {
      PutValues(d[1..], k, v);
      assert Put(d, k, v) == [d[0]] + Put(d[1..], k, v);
      assert Values(Put(d, k, v)) == [d[0].1] + Values(Put(d[1..], k, v));
      assert Values(d) == [d[0].1] + Values(d[1..]);
    } else if d != [] {
      assert Values(Put(d, k, v)) == [v] + Values(d[1..]);
      assert Values(d) == [d[0].1] + Values(d[1..]);
    }
  }

  /** The last key that renames to a keyword decides its value. */
  lemma RenamedLast(d: Dict<string, Value>, j: nat)
    requires j < |d|
    requires forall j' :: j < j' < |d| ==> AttrName(d[j'].0) != AttrName(d[j].0)
    ensures Get(Renamed(d), AttrName(d[j].0)) == Some(d[j].1)
    decreases |d|
  {
    if j < |d| - 1 {
      var front := d[..|d| - 1];
      assert front[j] == d[j];
      forall j' | j < j' < |front| ensures AttrName(front[j'].0) != AttrName(front[j].0) {
        assert front[j'] == d[j'];
      }
      RenamedLast(front, j);
    }
  }

  /** The largest of two depths. */
  function Max(a: nat, b: nat): nat {
    if a < b then b else a
  }

  /** How deep the raw fragments a node still has to promote are. */
  function NodeDepth(n: Node): nat {
    1 + Max(Depth(n.items), Max(Depth(n.properties), Depth(n.schema)))
  }

  lemma InValuesDepth(kwargs: Dict<string, Value>, v: Value)
    requires v in Values(kwargs)
    ensures Depth(v) < Depth(VDict(kwargs))
  {
    var j :| 0 <= j < |kwargs| && Values(kwargs)[j] == v;
    assert kwargs[j].1 == v;
    assert Depth(kwargs[j].1) <= PartsDepth(VDict(kwargs), 0);
  }

  /** Storing keywords never makes a node deeper than its keywords. */
  lemma SetAttrsDepth(role: Role, kwargs: Dict<string, Value>)
    ensures NodeDepth(SetAttrs(Blank(role), kwargs)) <= Depth(VDict(kwargs))
  {
    var n := SetAttrs(Blank(role), kwargs);
    if n.items != VNone {
      InValuesDepth(kwargs, n.items);
    }
    if n.properties != VNone {
      InValuesDepth(kwargs, n.properties);
    }
    if n.schema != VNone {
      InValuesDepth(kwargs, n.schema);
    }
  }

  /** The keywords `from_json` passes are no deeper than the fragment. */
  lemma FromJsonDepth(d: Dict<string, Value>, isGlobal: bool)
    ensures Depth(VDict([("_is_global", VBool(isGlobal))] + Renamed(d))) <= Depth(VDict(d))
  {
    var kw := [("_is_global", VBool(isGlobal))] + Renamed(d);
    var b := Depth(VDict(d)) - 1;
    forall j | 0 <= j < |kw| ensures Depth(kw[j].1) <= b {
      if j > 0 {
        var v := kw[j].1;
        assert v == Renamed(d)[j - 1].1;
        assert v == Values(Renamed(d))[j - 1];
        InValuesDepth(d, v);
      }
    }
    PartsDepthBound(VDict(kw), 0, b);
  }

  /** `cls.from_json(data, is_global)` */
  function FromJson(role: Role, data: Value, isGlobal: bool): (r: Option<Node>)
    ensures !data.VDict? ==> r.None?
    ensures data.VDict? && HasKey(Renamed(data.entries), "_is_global") ==> r.None?
    ensures r.Some? ==> r.value.role == role && r.value.isGlobal == isGlobal
    decreases Depth(data), 3
  {
    if !data.VDict? then None
    else
      var renamed := Renamed(data.entries);
      if HasKey(renamed, "_is_global") then None
      else
        var kwargs := [("_is_global", VBool(isGlobal))] + renamed;
        FromJsonDepth(data.entries, isGlobal);
        GlobalFirst(role, isGlobal, renamed);
        Init(role, kwargs)
  }

  lemma GlobalFirst(role: Role, isGlobal: bool, rest: Dict<string, Value>)
    requires !HasKey(rest, "_is_global")
    ensures SetAttrs(Blank(role), [("_is_global", VBool(isGlobal))] + rest).isGlobal == isGlobal
  {
    var kw := [("_is_global", VBool(isGlobal))] + rest;
    assert kw[0] == ("_is_global", VBool(isGlobal)) && kw[1..] == rest;
    
  }

  /** `cls(**kwargs)` */
  function Init(role: Role, kwargs: Dict<string, Value>): (r: Option<Node>)
    ensures r.Some? ==> r.value.role == role
    ensures r.Some? ==> r.value.isGlobal == SetAttrs(Blank(role), kwargs).isGlobal
    decreases Depth(VDict(kwargs)), 2
  {
    SetAttrsDepth(role, kwargs);
    Promote(SetAttrs(Blank(role), kwargs))
  }

  /** `items` holds a fragment still to be promoted. */
  predicate RawItems(n: Node) {
    Truthy(n.items) && !n.items.VNode?
  }

  /** No type was given but a schema was. */
  predicate Typeless(n: Node) {
    !TruthyStr(n.kind) && Truthy(n.schema)
  }

  /** The second phase of `__init__`: promote raw fragments to nodes. */
  function Promote(n: Node): (r: Option<Node>)
    ensures r.Some? ==> r.value == n.(items := r.value.items, properties := r.value.properties,
                                      schema := r.value.schema, kind := r.value.kind)
    ensures r.Some? && RawItems(n) ==> r.value.items.VNode? && r.value.items.node.role == ItemRole
                                       && r.value.properties == n.properties
    ensures r.Some? && !RawItems(n) ==> r.value.items == n.items
    ensures r.Some? && !RawItems(n) && !Truthy(n.properties) ==> r.value.properties == n.properties
    ensures r.Some? && !RawItems(n) && Truthy(n.properties) ==>
              n.properties.VDict? && r.value.properties.VDict? && PromotedEntries(n.properties.entries, r.value.properties.entries)
    ensures r.Some? ==> r.value.kind == if Typeless(n) then Some("schema") else n.kind
    ensures r.Some? && !Typeless(n) ==> r.value.schema == n.schema
    ensures r.Some? && Typeless(n) ==> r.value.schema.VNode? && (n.schema.VNode? ==> r.value.schema == n.schema)
                                       && (!n.schema.VNode? ==> r.value.schema.node.role == SchemaRole)
    ensures RawItems(n) && !n.items.VDict? ==> r.None?
    ensures !RawItems(n) && Truthy(n.properties) && !n.properties.VDict? ==> r.None?
    ensures Typeless(n) && !n.schema.VNode? && !n.schema.VDict? ==> r.None?
    decreases NodeDepth(n), 1
  {
    var items := PromoteItems(n);
    var properties := PromoteProperties(n);
    var schema := PromoteSchema(n);
    if items.None? || properties.None? || schema.None? then None
    else
      Some(n.(items := items.value, properties := properties.value, schema := schema.value,
              kind := if Typeless(n) then Some("schema") else n.kind))
  }

  /** `items` after promotion; `None` when building the `Item` raises. */
  function PromoteItems(n: Node): (r: Option<Value>)
    ensures !RawItems(n) ==> r == Some(n.items)
    ensures RawItems(n) && r.Some? ==> r.value.VNode? && r.value.node.role == ItemRole
    ensures RawItems(n) && !n.items.VDict? ==> r.None?
    decreases NodeDepth(n), 0
  {
    if RawItems(n) then Lift(FromJson(ItemRole, n.items, false)) else Some(n.items)
  }

  /** `properties` after promotion, which the `elif` skips when `items`
      was promoted. */
  function PromoteProperties(n: Node): (r: Option<Value>)
    ensures RawItems(n) || !Truthy(n.properties) ==> r == Some(n.properties)
    ensures !RawItems(n) && Truthy(n.properties) && r.Some? ==>
              n.properties.VDict? && r.value.VDict? && PromotedEntries(n.properties.entries, r.value.entries)
    ensures !RawItems(n) && Truthy(n.properties) && !n.properties.VDict? ==> r.None?
    decreases NodeDepth(n), 0
  {
    if RawItems(n) || !Truthy(n.properties) then Some(n.properties)
    else if !n.properties.VDict? then None
    else
      match PromoteEntries(n.properties, 0)
      case None => None
      case Some(es) =>
        assert n.properties.entries[0..] == n.properties.entries;
        Some(VDict(es))
  }

  /** `schema` after promotion; only a node without a type promotes it. */
  function PromoteSchema(n: Node): (r: Option<Value>)
    ensures !Typeless(n) || n.schema.VNode? ==> r == Some(n.schema)
    ensures Typeless(n) && !n.schema.VNode? && r.Some? ==> r.value.VNode? && r.value.node.role == SchemaRole
    ensures Typeless(n) && !n.schema.VNode? && !n.schema.VDict? ==> r.None?
    decreases NodeDepth(n), 0
  {
    if !Typeless(n) || n.schema.VNode? then Some(n.schema)
    else Lift(FromJson(SchemaRole, n.schema, false))
  }

  function Lift(o: Option<Node>): (r: Option<Value>)
    ensures o.Some? <==> r.Some?
    ensures o.Some? ==> r.value == VNode(o.value)
  {
    match o
    case None => None
    case Some(n) => Some(VNode(n))
  }

  /** `properties` after promotion: the same keys in the same order, every
      value a node, nodes that were already built kept as they are and every
      raw entry promoted to a `Property`. */
  predicate PromotedEntries(before: Dict<string, Value>, after: Dict<string, Value>) {
    |after| == |before|
    && (forall j :: 0 <= j < |after| ==> after[j].0 == before[j].0 && after[j].1.VNode?)
    && (forall j :: 0 <= j < |after| && before[j].1.VNode? ==> after[j].1 == before[j].1)
    && (forall j :: 0 <= j < |after| && !before[j].1.VNode? ==> after[j].1.node.role == PropertyRole)
  }

  /** The `PropDict` comprehension over the entries from position `i` on. */
  function PromoteEntries(p: Value, i: nat): (r: Option<Dict<string, Value>>)
    requires p.VDict? && i <= |p.entries|
    ensures r.Some? ==> PromotedEntries(p.entries[i..], r.value)
    decreases Depth(p), 4, |p.entries| - i
  {
    if i == |p.entries| then Some([])
    else
      var (key, value) := p.entries[i];
      assert Depth(value) < Depth(p) by {
        assert Depth(p.entries[i].1) <= PartsDepth(p, 0);
      }
      var head := if value.VNode? then Some(value.node) else FromJson(PropertyRole, value, false);
      match head
      case None => None
      case Some(h) =>
        match PromoteEntries(p, i + 1)
        case None => None
        case Some(rest) =>
          SuffixCons(p.entries, i);
          PromotedCons(p.entries[i], h, p.entries[i + 1..], rest);
          Some([(key, VNode(h))] + rest)
  }

  /** One more entry, promoted, in front of promoted entries. */
  lemma PromotedCons(e: (string, Value), h: Node, before: Dict<string, Value>, after: Dict<string, Value>)
    requires PromotedEntries(before, after)
    requires e.1.VNode? ==> h == e.1.node
    requires !e.1.VNode? ==> h.role == PropertyRole
    ensures PromotedEntries([e] + before, [(e.0, VNode(h))] + after)
  {
  }

  /** Promotion settles: building again from a built node changes nothing,
      except when a raw `items` and raw `properties` were given together —
      the `elif` then left `properties` raw, and the second pass promotes
      them. */
  lemma PromoteSettles(n: Node, m: Node)
    requires Promote(n) == Some(m)
    requires !(RawItems(n) && Truthy(n.properties))
    ensures Promote(m) == Some(m)
  {
    assert !RawItems(m);
    assert !Typeless(m);
    assert PromoteItems(m) == Some(m.items);
    assert PromoteSchema(m) == Some(m.schema);
    PropertiesSettle(n, m);
  }

  lemma PropertiesSettle(n: Node, m: Node)
    requires Promote(n) == Some(m)
    requires !(RawItems(n) && Truthy(n.properties))
    ensures PromoteProperties(m) == Some(m.properties)
  {
    if Truthy(m.properties) && !RawItems(m) {
      assert !RawItems(n) && Truthy(n.properties);
      var es := m.properties.entries;
      PromoteEntriesNodes(m.properties, 0);
      assert es[0..] == es;
    }
  }

  /** Entries that are all nodes already come back unchanged. */
  lemma {:induction false} PromoteEntriesNodes(p: Value, i: nat)
    requires p.VDict? && i <= |p.entries|
    requires forall j :: i <= j < |p.entries| ==> p.entries[j].1.VNode?
    ensures PromoteEntries(p, i) == Some(p.entries[i..])
    decreases |p.entries| - i
  {
    if i < |p.entries| {
      PromoteEntriesNodes(p, i + 1);
      assert p.entries[i..] == [p.entries[i]] + p.entries[i + 1..];
    }
  }

  /** The exception to settling: a node given raw `items` and raw
      `properties` keeps the properties raw until built a second time. */
  lemma PromoteTwice()
    ensures var frag := VDict([("title", VStr("t"))]);
            var n := Blank(Plain).(items := frag, properties := VDict([("p", frag)]));
            Promote(n).Some? && Promote(Promote(n).value).Some?
            && Promote(Promote(n).value) != Promote(n)
  {
    var frag := VDict([("title", VStr("t"))]);
    var ti := Blank(ItemRole).(title := VStr("t"));
    var tp := Blank(PropertyRole).(title := VStr("t"));
    var n := Blank(Plain).(items := frag, properties := VDict([("p", frag)]));
    var m := n.(items := VNode(ti));
    TitleItem(ItemRole, "title", "t");
    TitleItem(PropertyRole, "title", "t");
    FirstPass(frag, n, ti);
    SecondPass(frag, m, tp);
  }

  lemma FirstPass(frag: Value, n: Node, ti: Node)
    requires frag.VDict? && |frag.entries| > 0 && FromJson(ItemRole, frag, false) == Some(ti)
    requires n == Blank(Plain).(items := frag, properties := VDict([("p", frag)]))
    ensures Promote(n) == Some(n.(items := VNode(ti)))
  {
    assert PromoteItems(n) == Some(VNode(ti));
    assert PromoteProperties(n) == Some(n.properties);
    assert PromoteSchema(n) == Some(VNone);
  }

  lemma SecondPass(frag: Value, m: Node, tp: Node)
    requires frag.VDict? && FromJson(PropertyRole, frag, false) == Some(tp)
    requires m.properties == VDict([("p", frag)]) && m.items.VNode? && m.schema == VNone && m.kind == None
    ensures Promote(m) == Some(m.(properties := VDict([("p", VNode(tp))])))
  {
    PromoteEntriesOne(m.properties, tp);
    assert !RawItems(m) && Truthy(m.properties);
    assert PromoteProperties(m) == Some(VDict([("p", VNode(tp))]));
    assert !Typeless(m);
  }

  lemma PromoteEntriesOne(p: Value, h: Node)
    requires p.VDict? && |p.entries| == 1 && !p.entries[0].1.VNode?
    requires FromJson(PropertyRole, p.entries[0].1, false) == Some(h)
    ensures PromoteEntries(p, 0) == Some([(p.entries[0].0, VNode(h))])
  {
    assert PromoteEntries(p, 1) == Some([]);
    assert [(p.entries[0].0, VNode(h))] + [] == [(p.entries[0].0, VNode(h))];
  }

  /** A fragment with a single key builds what the one renamed keyword
      builds. */
  lemma FromJsonSingle(role: Role, key: string, v: Value, isGlobal: bool)
    requires AttrName(key) != "_is_global"
    ensures FromJson(role, VDict([(key, v)]), isGlobal)
         == Init(role, [("_is_global", VBool(isGlobal)), (AttrName(key), v)])
  {
    var d := [(key, v)];
    assert d[..0] == [];
    assert Renamed(d) == [(AttrName(key), v)];
    assert [("_is_global", VBool(isGlobal))] + [(AttrName(key), v)]
        == [("_is_global", VBool(isGlobal)), (AttrName(key), v)];
  }

  /** Two keywords, the first clearing the global flag, store just the
      second. */
  lemma SetAttrsPair(role: Role, a: string, v: Value)
    ensures SetAttrs(Blank(role), [("_is_global", VBool(false)), (a, v)])
         == if HasAttr(role, a) then SetAttr(Blank(role), AttrOf(a).value, v) else Blank(role)
  {
    var kw := [("_is_global", VBool(false)), (a, v)];
    var b := Blank(role);
    assert kw[0] == ("_is_global", VBool(false)) && kw[1..] == [(a, v)];
    assert AttrOf("_is_global") == Some(IsGlobal);
    assert SetAttr(b, IsGlobal, VBool(false)) == b;
    assert SetAttrs(b, kw) == SetAttrs(b, [(a, v)]);
    var n' := if HasAttr(role, a) then SetAttr(b, AttrOf(a).value, v) else b;
    assert [(a, v)][0] == (a, v) && [(a, v)][1..] == [];
    assert SetAttrs(b, [(a, v)]) == SetAttrs(n', []);
  }

  /** A fragment with only a title builds a node with only that title. */
  lemma TitleItem(role: Role, key: string, title: string)
    requires key == "title"
    ensures FromJson(role, VDict([(key, VStr(title))]), false) == Some(Blank(role).(title := VStr(title)))
  {
    TitleName(key);
    FromJsonSingle(role, key, VStr(title), false);
    TitleInit(role, AttrName(key), title);
  }

  lemma TitleInit(role: Role, a: string, title: string)
    requires a == "_title"
    ensures Init(role, [("_is_global", VBool(false)), (a, VStr(title))]) == Some(Blank(role).(title := VStr(title)))
  {
    SetAttrsPair(role, a, VStr(title));
    TitleAttr(a);
    var n := Blank(role).(title := VStr(title));
    assert SetAttr(Blank(role), Title, VStr(title)) == n;
    assert PromoteItems(n) == Some(VNone) && PromoteProperties(n) == Some(VNone) && PromoteSchema(n) == Some(VNone);
  }

  lemma TitleName(key: string)
    requires key == "title"
    ensures AttrName(key) == "_title"
  {
    CamelIdentity(key);
  }

  /** `from_json` drops keys its class has no attribute for: adding such a
      key to a fragment builds the same node. */
  lemma FromJsonDropsUnknown(role: Role, d: Dict<string, Value>, key: string, v: Value, isGlobal: bool)
    requires !HasAttr(role, AttrName(key))
    ensures FromJson(role, VDict(d + [(key, v)]), isGlobal) == FromJson(role, VDict(d), isGlobal)
  {
    var a := AttrName(key);
    GlobalKnown(role);
    var renamed := Renamed(d);
    RenamedSnoc(d, key, v);
    assert HasKey(Put(renamed, a, v), "_is_global") == HasKey(renamed, "_is_global");
    SetAttrsUnknownPut(role, ("_is_global", VBool(isGlobal)), renamed, a, v);
  }

  /** Every class knows the global flag. */
  lemma GlobalKnown(role: Role)
    ensures HasAttr(role, "_is_global")
  {
  }

  /** Renaming a fragment with one more key puts that key's keyword. */
  lemma RenamedSnoc(d: Dict<string, Value>, key: string, v: Value)
    ensures Renamed(d + [(key, v)]) == Put(Renamed(d), AttrName(key), v)
  {
    var d' := d + [(key, v)];
    assert d'[..|d'| - 1] == d && d'[|d'| - 1] == (key, v);
  }

  /** After the global flag, a keyword the class does not know changes
      nothing the keywords set. */
  lemma SetAttrsUnknownPut(role: Role, g: (string, Value), renamed: Dict<string, Value>, a: string, v: Value)
    requires g.0 == "_is_global" && !HasAttr(role, a)
    ensures SetAttrs(Blank(role), [g] + Put(renamed, a, v)) == SetAttrs(Blank(role), [g] + renamed)
  {
    var kw := [g] + renamed;
    var kw' := [g] + Put(renamed, a, v);
    KnownPut(role, renamed, a, v);
    assert Known(role, kw) == [g] + Known(role, renamed) by {
      assert kw[0] == g && kw[1..] == renamed;
    }
    assert Known(role, kw') == [g] + Known(role, Put(renamed, a, v)) by {
      assert kw'[0] == g && kw'[1..] == Put(renamed, a, v);
    }
    SetAttrsKnown(Blank(role), kw);
    SetAttrsKnown(Blank(role), kw');
  }

  /** The example the attribute names come from: `minItems` is stored as
      `_min_items`. */
  lemma FromJsonMinItems(key: string)
    requires key == "minItems"
    ensures FromJson(Plain, VDict([(key, VInt(3))]), false) == Some(Blank(Plain).(minItems := VInt(3)))
  {
    MinItemsName(key);
    FromJsonSingle(Plain, key, VInt(3), false);
    InitMinItems(AttrName(key));
  }

  lemma InitMinItems(a: string)
    requires a == "_min_items"
    ensures Init(Plain, [("_is_global", VBool(false)), (a, VInt(3))]) == Some(Blank(Plain).(minItems := VInt(3)))
  {
    SetAttrsPair(Plain, a, VInt(3));
    MinItemsAttr(a);
    var n := Blank(Plain).(minItems := VInt(3));
    assert SetAttr(Blank(Plain), MinItems, VInt(3)) == n;
    assert PromoteItems(n) == Some(VNone) && PromoteProperties(n) == Some(VNone) && PromoteSchema(n) == Some(VNone);
  }

  /** A prebuilt `Item`, a partial dict and a whole JSON fragment give the
      same schema tree. */
  lemma SchemasAgree()
    ensures var t := Blank(ItemRole).(title := VStr("test"));
            var frag := VDict([("title", VStr("test"))]);
            var s := Blank(SchemaRole).(items := VNode(t));
            && Init(ItemRole, [("_title", VStr("test"))]) == Some(t)
            && Init(SchemaRole, [("_items", VNode(t))]) == Some(s)
            && Init(SchemaRole, [("_items", frag)]) == Some(s)
            && FromJson(SchemaRole, VDict([("items", frag)]), false) == Some(s)
  {
    var t := Blank(ItemRole).(title := VStr("test"));
    var frag := VDict([("title", VStr("test"))]);
    var s := Blank(SchemaRole).(items := VNode(t));
    BuiltItem(t);
    BuiltSchema(t, s);
    TitleFragment(frag, t);
    PartialSchema(frag, t, s);
    JsonSchema(frag, s);
  }

  lemma BuiltItem(t: Node)
    requires t == Blank(ItemRole).(title := VStr("test"))
    ensures Init(ItemRole, [("_title", VStr("test"))]) == Some(t)
  {
    TitleAttr("_title");
    InitOne(ItemRole, "_title", VStr("test"));
    assert SetAttr(Blank(ItemRole), Title, VStr("test")) == t;
    assert PromoteItems(t) == Some(VNone) && PromoteProperties(t) == Some(VNone) && PromoteSchema(t) == Some(VNone);
  }

  lemma BuiltSchema(t: Node, s: Node)
    requires s == Blank(SchemaRole).(items := VNode(t))
    ensures Init(SchemaRole, [("_items", VNode(t))]) == Some(s)
  {
    ItemsAttr();
    InitOne(SchemaRole, "_items", VNode(t));
    assert SetAttr(Blank(SchemaRole), Items, VNode(t)) == s;
    assert PromoteItems(s) == Some(s.items) && PromoteProperties(s) == Some(VNone) && PromoteSchema(s) == Some(VNone);
  }

  lemma PartialSchema(frag: Value, t: Node, s: Node)
    requires frag.VDict? && |frag.entries| > 0 && FromJson(ItemRole, frag, false) == Some(t)
    requires s == Blank(SchemaRole).(items := VNode(t))
    ensures Init(SchemaRole, [("_items", frag)]) == Some(s)
  {
    ItemsAttr();
    InitOne(SchemaRole, "_items", frag);
    var raw := Blank(SchemaRole).(items := frag);
    SetItems(Blank(SchemaRole), frag);
    PromoteRawItems(frag, t, raw);
  }

  lemma SetItems(n: Node, v: Value)
    ensures SetAttr(n, Items, v) == n.(items := v)
  {
  }

  /** A blank node given a raw `items` fragment holds the built `Item`. */
  lemma PromoteRawItems(frag: Value, t: Node, raw: Node)
    requires frag.VDict? && |frag.entries| > 0 && FromJson(ItemRole, frag, false) == Some(t)
    requires raw == Blank(SchemaRole).(items := frag)
    ensures Promote(raw) == Some(raw.(items := VNode(t)))
  {
    assert RawItems(raw) && !Typeless(raw);
    assert PromoteItems(raw) == Some(VNode(t));
    assert PromoteProperties(raw) == Some(VNone);
    assert PromoteSchema(raw) == Some(VNone);
  }

  lemma JsonSchema(frag: Value, s: Node)
    requires Init(SchemaRole, [("_items", frag)]) == Some(s)
    ensures FromJson(SchemaRole, VDict([("items", frag)]), false) == Some(s)
  {
    ItemsName();
    ItemsAttr();
    FromJsonSingle(SchemaRole, "items", frag, false);
    SetAttrsPair(SchemaRole, "_items", frag);
    InitOne(SchemaRole, "_items", frag);
  }

  lemma TitleFragment(frag: Value, t: Node)
    requires frag == VDict([("title", VStr("test"))]) && t == Blank(ItemRole).(title := VStr("test"))
    ensures FromJson(ItemRole, frag, false) == Some(t)
  {
    TitleItem(ItemRole, "title", "test");
  }

  /** A single known keyword is stored on an otherwise blank node. */
  lemma InitOne(role: Role, a: string, v: Value)
    requires HasAttr(role, a)
    ensures Init(role, [(a, v)]) == Promote(SetAttr(Blank(role), AttrOf(a).value, v))
  {
    var kw := [(a, v)];
    assert kw[0] == (a, v) && kw[1..] == [];
    var n := SetAttr(Blank(role), AttrOf(a).value, v);
    assert SetAttrs(Blank(role), kw) == SetAttrs(n, []);
  }

  lemma MinItemsName(name: string)
    requires name == "minItems"
    ensures AttrName(name) == "_min_items"
  {
    CamelMinItems(name);
  }

  lemma TitleAttr(a: string)
    requires a == "_title"
    ensures AttrOf(a) == Some(Title)
  {
  }

  lemma ItemsAttr()
    ensures AttrOf("_items") == Some(Items)
  {
  }

  lemma MinItemsAttr(a: string)
    requires a == "_min_items"
    ensures AttrOf(a) == Some(MinItems)
  {
  }

  lemma ItemsName()
    ensures AttrName("items") == "_items"
  {
    CamelIdentity("items");
  }
}
