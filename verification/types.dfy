/** The type registry (`esi/spec/types.py`): one behaviour per declared
    kind, each with `validate`, `to_python` (wire to native) and
    `from_python` (native to wire). A node dispatches to the behaviour of
    its kind (`KindOf`), passing itself; an unknown or absent kind behaves
    as `object`. */
module Types {
  import opened Wrappers
  import opened Text
  import opened Dicts
  import opened Bytes
  import opened Nodes
  import opened Errors
  import opened Utils
  import Base64

  const TypeErrorText: string := "Invalid type: %(type)s"
  const RangeText: string := "Value not within allowed range: %(min)s - %(max)s"
  const OptionsText: string := "Value not within expected options"
  const LengthText: string := "Value length not within allowed range: %(min)s - %(max)s"
  const UniqueText: string := "Values are not unique"
  const RequiredText: string := "Value is required"

  /** The Python class of a value, as far as the registry's `isinstance`
      checks tell them apart. */
  datatype PyType = StrT | IntT | FloatT | DecimalT | BoolT | BytesT | DateT | DateTimeT | ListT | DictT | NoneT | NodeT

  function TypeOf(v: Value): PyType {
    match v
    case VNone => NoneT
    case VBool(_) => BoolT
    case VInt(_) => IntT
    case VFloat(_) => FloatT
    case VDecimal(_) => DecimalT
    case VStr(_) => StrT
    case VBytes(_) => BytesT
    case VDate(_) => DateT
    case VDateTime(_) => DateTimeT
    case VList(_) => ListT
    case VDict(_) => DictT
    case VNode(_) => NodeT
  }

  /** `get_valid_types` of the kinds whose `validate` checks the type. A
      `datetime` is also a `date`. */
  function ValidTypes(k: Kind, fmt: Option<string>): set<PyType> {
    match k
    case StringKind =>
      if fmt == Some("date") then {StrT, IntT, DateTimeT, DateT}
      else if fmt == Some("date-time") then {StrT, IntT, DateTimeT}
      else if fmt == Some("byte") then {StrT, BytesT}
      else {StrT}
    case IntegerKind => {IntT}
    case NumberKind => {FloatT, DecimalT}
    case ArrayKind => {ListT}
    case _ => {}
  }

  /** The kinds whose `validate` starts with the type check of `Type`. */
  predicate TypeChecked(k: Kind) {
    k == StringKind || k == IntegerKind || k == NumberKind || k == ArrayKind
  }

  /** `'%s.%s' % (_type, fmt)` when the format is truthy. */
  function TypeParam(n: Node): string {
    KindName(KindOf(n)) + (if TruthyStr(n.format) then "." + n.format.value else "")
  }

  /** The error of a failed type check. */
  function TypeFailure(n: Node): ValidationError {
    ErrList([Leaf(TypeErrorText, Some("typeerror"), [("type", VStr(TypeParam(n)))])])
  }

  /** `isinstance(v, ts)`: `bool` is a subclass of `int`, so a boolean is
      an instance wherever an integer is. */
  predicate IsInstance(v: Value, ts: set<PyType>) {
    TypeOf(v) in ts || (v.VBool? && IntT in ts)
  }

  /** `Type.validate` */
  function CheckType(n: Node, v: Value): (r: Outcome<()>)
    ensures r.Ok? <==> IsInstance(v, ValidTypes(KindOf(n), n.format))
    ensures r.Invalid? ==> r.error == TypeFailure(n)
    ensures !r.Crash?
  {
    if IsInstance(v, ValidTypes(KindOf(n), n.format)) then Ok(()) else Invalid(TypeFailure(n))
  }

  /** The largest value an integer format can hold; the lower clip is its
      negation. */
  function Boundary(fmt: Option<string>): Option<int> {
    if fmt == Some("int32") then Some(0x7FFF_FFFF)
    else if fmt == Some("int64") then Some(0x7FFF_FFFF_FFFF_FFFF)
    else None
  }

  /** A Python number: `bool`, `int`, `float` or `Decimal`. */
  predicate IsNumber(v: Value) {
    v.VBool? || v.VInt? || v.VFloat? || v.VDecimal?
  }

  /** The numeric value of a number. */
  function Numeric(v: Value): real
    requires IsNumber(v)
  {
    match v
    case VBool(b) => if b then 1.0 else 0.0
    case VInt(i) => i as real
    case VFloat(f) => f
    case VDecimal(d) => d
  }

  /** A bound that `x < bound` and `min`/`max` accept: a falsy one is
      skipped, a number compares, anything else raises `TypeError`. */
  predicate Comparable(b: Value) {
    !Truthy(b) || IsNumber(b)
  }

  /** `max(_min or -boundary, -boundary)` under a format, `_min` without;
      `None` where `max` cannot compare. Like `max`, it returns one of
      its arguments. */
  function EffectiveMin(n: Node): (lo: Option<Value>)
    ensures Boundary(n.format).None? ==> lo == Some(n.minimum)
    ensures Boundary(n.format).Some? ==> (lo.Some? <==> Comparable(n.minimum))
    ensures Boundary(n.format).Some? && lo.Some? ==>
              IsNumber(lo.value) && Numeric(lo.value) >= -Boundary(n.format).value as real &&
              (lo.value == n.minimum || lo.value == VInt(-Boundary(n.format).value))
    ensures Boundary(n.format).Some? && lo.Some? && Truthy(n.minimum) ==> Numeric(lo.value) >= Numeric(n.minimum)
  {
    match Boundary(n.format)
    case None => Some(n.minimum)
    case Some(b) =>
      if !Truthy(n.minimum) then Some(VInt(-b))
      else if !IsNumber(n.minimum) then None
      else if Numeric(n.minimum) >= -b as real then Some(n.minimum)
      else Some(VInt(-b))
  }

  /** `min(_max or boundary, boundary)` under a format, `_max` without;
      `None` where `min` cannot compare. */
  function EffectiveMax(n: Node): (hi: Option<Value>)
    ensures Boundary(n.format).None? ==> hi == Some(n.maximum)
    ensures Boundary(n.format).Some? ==> (hi.Some? <==> Comparable(n.maximum))
    ensures Boundary(n.format).Some? && hi.Some? ==>
              IsNumber(hi.value) && Numeric(hi.value) <= Boundary(n.format).value as real &&
              (hi.value == n.maximum || hi.value == VInt(Boundary(n.format).value))
    ensures Boundary(n.format).Some? && hi.Some? && Truthy(n.maximum) ==> Numeric(hi.value) <= Numeric(n.maximum)
  {
    match Boundary(n.format)
    case None => Some(n.maximum)
    case Some(b) =>
      if !Truthy(n.maximum) then Some(VInt(b))
      else if !IsNumber(n.maximum) then None
      else if Numeric(n.maximum) <= b as real then Some(n.maximum)
      else Some(VInt(b))
  }

  /** The effective bounds of a number check, `None` when computing or
      comparing against one raises. */
  function RangeBounds(n: Node): (r: Option<(Value, Value)>)
    ensures r.Some? ==> Comparable(r.value.0) && Comparable(r.value.1)
    ensures r.Some? <==> EffectiveMin(n).Some? && EffectiveMax(n).Some? &&
                         Comparable(EffectiveMin(n).value) && Comparable(EffectiveMax(n).value)
  {
    match (EffectiveMin(n), EffectiveMax(n))
    case (Some(lo), Some(hi)) => if Comparable(lo) && Comparable(hi) then Some((lo, hi)) else None
    case _ => None
  }

  /** `not (lo and x < lo) and not (hi and x > hi)`: a bound takes part only
      when it is truthy, so a bound of 0 is never checked. */
  predicate Within(x: real, lo: Value, hi: Value) {
    !(Truthy(lo) && IsNumber(lo) && x < Numeric(lo)) && !(Truthy(hi) && IsNumber(hi) && x > Numeric(hi))
  }

  function RangeFailure(lo: Value, hi: Value): ValidationError {
    ErrList([Leaf(RangeText, Some("value"), [("min", lo), ("max", hi)])])
  }

  /** `IntegerType.validate`, which `NumberType` inherits with its own type
      check. */
  function CheckRange(n: Node, v: Value): (r: Outcome<()>)
    ensures !IsInstance(v, ValidTypes(KindOf(n), n.format)) ==> r == Invalid(TypeFailure(n))
    ensures IsInstance(v, ValidTypes(KindOf(n), n.format)) && IsNumber(v) ==> (r.Crash? <==> RangeBounds(n).None?)
    ensures IsInstance(v, ValidTypes(KindOf(n), n.format)) && IsNumber(v) && RangeBounds(n).Some? ==>
              var (lo, hi) := RangeBounds(n).value;
              (r.Ok? <==> Within(Numeric(v), lo, hi)) && (!r.Ok? ==> r == Invalid(RangeFailure(lo, hi)))
  {
    if !IsInstance(v, ValidTypes(KindOf(n), n.format)) then Invalid(TypeFailure(n))
    else if !IsNumber(v) then Ok(())
    else
      match RangeBounds(n)
      case None => Crash("TypeError: a bound is not a number")
      case Some((lo, hi)) => if Within(Numeric(v), lo, hi) then Ok(()) else Invalid(RangeFailure(lo, hi))
  }

  /** Python's `==` against `True` or `False`: the numbers 0 and 1 of every
      numeric type compare equal to them. */
  predicate IsBoolLike(v: Value) {
    IsNumber(v) && (Numeric(v) == 0.0 || Numeric(v) == 1.0)
  }

  /** `value not in (True, False)` */
  function CheckBoolean(v: Value): (r: Outcome<()>)
    ensures r.Ok? <==> IsBoolLike(v)
    ensures v.VBool? ==> r.Ok?
    ensures !r.Ok? ==> r == Invalid(ErrList([Leaf(OptionsText, Some("value"), [])]))
  {
    if IsBoolLike(v) then Ok(()) else Invalid(ErrList([Leaf(OptionsText, Some("value"), [])]))
  }

  /** Python's `==` on values: numbers compare by value across `bool`,
      `int`, `float` and `Decimal`; lists element by element; dicts by
      their keys and the values under them, in any order; every other
      value only to itself. */
  predicate PyEq(a: Value, b: Value)
    decreases a, 0
  {
    if IsNumber(a) || IsNumber(b) then IsNumber(a) && IsNumber(b) && Numeric(a) == Numeric(b)
    else match a
      case VList(l) => b.VList? && |l| == |b.elems| && forall i :: 0 <= i < |l| ==> PyEq(l[i], b.elems[i])
      case VDict(d) =>
        b.VDict? && |d| == |b.entries| && forall i :: 0 <= i < |d| ==> HasEqualEntry(d[i].0, d[i].1, b.entries)
      case _ => a == b
  }

  /** `e` holds key `k` with a value equal to `v`. */
  predicate HasEqualEntry(k: string, v: Value, e: Dict<string, Value>)
    decreases v, 1
  {
    exists j :: 0 <= j < |e| && e[j].0 == k && PyEq(v, e[j].1)
  }

  /** Every value equals itself. */
  lemma {:induction false} PyEqReflexive(a: Value)
    ensures PyEq(a, a)
    decreases a
  {
    match a
    case VList(l) =>
      forall i | 0 <= i < |l| ensures PyEq(l[i], l[i]) {
        PyEqReflexive(l[i]);
      }
    case VDict(d) =>
      forall i | 0 <= i < |d| ensures PyEq(d[i].1, d[i].1) {
        PyEqReflexive(d[i].1);
      }
      PyEqDict(d);
    case _ =>
  }

  /** A dict whose values all equal themselves equals itself: each key
      finds its own entry. */
  lemma PyEqDict(d: Dict<string, Value>)
    requires forall i :: 0 <= i < |d| ==> PyEq(d[i].1, d[i].1)
    ensures PyEq(VDict(d), VDict(d))
  {
    forall i | 0 <= i < |d| ensures HasEqualEntry(d[i].0, d[i].1, d) {
      assert d[i].0 == d[i].0 && PyEq(d[i].1, d[i].1);
    }
  }

  /** `1 == 1.0 == True`, `0 == False`, `[1] == [True]` and `{'a': 1} ==
      {'a': 1.0}`, while `'1' != 1` and `None != 0`. */
  lemma PyEqExamples()
    ensures PyEq(VInt(1), VFloat(1.0)) && PyEq(VBool(true), VInt(1)) && PyEq(VInt(0), VBool(false))
    ensures PyEq(VList([VInt(1)]), VList([VBool(true)]))
    ensures PyEq(VDict([("a", VInt(1))]), VDict([("a", VFloat(1.0))]))
    ensures !PyEq(VStr("1"), VInt(1)) && !PyEq(VNone, VInt(0))
  {
    assert PyEq(VInt(1), VBool(true));
    var d: Dict<string, Value> := [("a", VFloat(1.0))];
    assert d[0].0 == "a" && PyEq(VInt(1), d[0].1);
  }

  /** `value not in (True, False)` is `==` against both booleans. */
  lemma BoolLikeIsPyEq(v: Value)
    ensures IsBoolLike(v) <==> PyEq(v, VBool(true)) || PyEq(v, VBool(false))
  {
  }

  /** No two elements are equal under Python's `==` (the
      `len(set(value)) != len(value)` test). */
  predicate Distinct(l: seq<Value>) {
    forall i, j :: 0 <= i < j < |l| ==> !PyEq(l[i], l[j])
  }

  /** `min_items or minimum` */
  function MinLength(n: Node): Value {
    if Truthy(n.minItems) then n.minItems else n.minimum
  }

  function LengthFailure(n: Node): ValidationError {
    ErrList([Leaf(LengthText, Some("value"), [("min", MinLength(n)), ("max", n.maxItems)])])
  }

  /** Both length bounds can be compared with a length. */
  predicate LengthComparable(n: Node) {
    Comparable(MinLength(n)) && Comparable(n.maxItems)
  }

  /** A length the bounds accept, when they can be compared at all. */
  predicate LengthFits(n: Node, len: nat) {
    LengthComparable(n) && Within(len as real, MinLength(n), n.maxItems)
  }

  const NotUnique: ValidationError := ErrList([Leaf(UniqueText, Some("value"), [])])

  /** The error an array raises for its failing items: every item error's
      leaves, in order, under the key `'[]'`. */
  function ItemsFailure(errs: seq<ValidationError>): ValidationError {
    ErrDict([("[]", ConcatLeaves(FlattenAll(errs)))])
  }

  function FlattenAll(errs: seq<ValidationError>): (r: seq<seq<Leaf>>)
    ensures |r| == |errs| && forall j :: 0 <= j < |errs| ==> r[j] == Flatten(errs[j])
  {
    if errs == [] then [] else [Flatten(errs[0])] + FlattenAll(errs[1..])
  }

  /** `described.validate(value)` */
  function Validate(n: Node, v: Value): (r: Outcome<()>)
    ensures TypeChecked(KindOf(n)) && !IsInstance(v, ValidTypes(KindOf(n), n.format)) ==> r == Invalid(TypeFailure(n))
    decreases n, 2
  {
    match KindOf(n)
    case StringKind => CheckType(n, v)
    case IntegerKind => CheckRange(n, v)
    case NumberKind => CheckRange(n, v)
    case BooleanKind => CheckBoolean(v)
    case ArrayKind => ValidateArray(n, v)
    case ObjectKind => ValidateObject(n, v)
    case SchemaKind => if n.schema.VNode? then Validate(n.schema.node, v) else Crash("schema is not a node")
  }

  /** `ArrayType.validate`: the type, then the length, then uniqueness, and
      only then the items, whose errors are all collected. */
  function ValidateArray(n: Node, v: Value): (r: Outcome<()>)
    ensures !v.VList? ==> r == Invalid(TypeFailure(n))
    ensures v.VList? && !LengthComparable(n) ==> r.Crash?
    ensures v.VList? && LengthComparable(n) && !LengthFits(n, |v.elems|) ==> r == Invalid(LengthFailure(n))
    ensures v.VList? && LengthFits(n, |v.elems|) && n.uniqueItems && !Distinct(v.elems) ==> r == Invalid(NotUnique)
    ensures v.VList? && LengthFits(n, |v.elems|) && (n.uniqueItems ==> Distinct(v.elems)) ==>
              match ItemErrors(n, v.elems, 0)
              case None => r.Crash?
              case Some(errs) => r == if errs == [] then Ok(()) else Invalid(ItemsFailure(errs))
    decreases n, 1
  {
    if !v.VList? then Invalid(TypeFailure(n))
    else if !LengthComparable(n) then Crash("TypeError: a length bound is not a number")
    else if !LengthFits(n, |v.elems|) then Invalid(LengthFailure(n))
    else if n.uniqueItems && !Distinct(v.elems) then Invalid(NotUnique)
    else
      match ItemErrors(n, v.elems, 0)
      case None => Crash("an item could not be validated")
      case Some(errs) => if errs == [] then Ok(()) else Invalid(ItemsFailure(errs))
  }

  /** The errors of the items from position `i` on, in order; `None` when
      validating one raises something else (or there is no item node). */
  function ItemErrors(n: Node, l: seq<Value>, i: nat): (r: Option<seq<ValidationError>>)
    requires i <= |l|
    ensures r.None? <==> exists j :: i <= j < |l| && ItemRaises(n, l[j])
    ensures r.Some? ==> |r.value| <= |l| - i
    ensures r.Some? && n.items.VNode? ==> forall j :: i <= j < |l| && Validate(n.items.node, l[j]).Invalid? ==>
                          Validate(n.items.node, l[j]).error in r.value
    ensures r.Some? && n.items.VNode? ==> (r.value == [] <==> forall j :: i <= j < |l| ==> Validate(n.items.node, l[j]).Ok?)
    decreases n, 0, |l| - i
  {
    if i == |l| then Some([])
    else if !n.items.VNode? then assert ItemRaises(n, l[i]); None
    else
      var head := Validate(n.items.node, l[i]);
      if head.Crash? then None
      else
        match ItemErrors(n, l, i + 1)
        case None => None
        case Some(rest) => Some((if head.Invalid? then [head.error] else []) + rest)
  }

  /** The outcome of validating each item. */
  function Outcomes(m: Node, l: seq<Value>): (r: seq<Outcome<()>>)
    ensures |r| == |l| && forall j :: 0 <= j < |l| ==> r[j] == Validate(m, l[j])
  {
    seq(|l|, j requires 0 <= j < |l| => Validate(m, l[j]))
  }

  /** `errs` are the errors of the invalid outcomes from position `i` on,
      in order: `js` lists exactly those positions, increasing, and
      `errs[k]` is the error at position `js[k]`. */
  predicate ErrorsAt(os: seq<Outcome<()>>, i: nat, js: seq<nat>, errs: seq<ValidationError>) {
    && |js| == |errs|
    && (forall k :: 0 <= k < |js| ==> i <= js[k] < |os| && os[js[k]].Invalid? && errs[k] == os[js[k]].error)
    && (forall k, k' :: 0 <= k < k' < |js| ==> js[k] < js[k'])
    && (forall j :: i <= j < |os| && os[j].Invalid? ==> j in js)
  }

  /** One more outcome in front: an invalid one puts its position and
      error in front, any other changes nothing. */
  lemma ErrorsAtCons(os: seq<Outcome<()>>, i: nat, js: seq<nat>, errs: seq<ValidationError>)
    requires i < |os| && ErrorsAt(os, i + 1, js, errs)
    ensures os[i].Invalid? ==> ErrorsAt(os, i, [i] + js, [os[i].error] + errs)
    ensures !os[i].Invalid? ==> ErrorsAt(os, i, js, errs)
  {
    if os[i].Invalid? {
      ErrorsAtFront(os, i, js, errs);
    } else {
      assert forall j :: i <= j < |os| && os[j].Invalid? ==> j in js by {
        forall j | i <= j < |os| && os[j].Invalid? ensures j in js {
          assert j != i;
        }
      }
    }
  }

  lemma ErrorsAtFront(os: seq<Outcome<()>>, i: nat, js: seq<nat>, errs: seq<ValidationError>)
    requires i < |os| && os[i].Invalid? && ErrorsAt(os, i + 1, js, errs)
    ensures ErrorsAt(os, i, [i] + js, [os[i].error] + errs)
  {
    FrontMatches(os, i, js, errs);
    FrontIncreasing(i, js);
    FrontCovers(os, i, js, errs);
  }

  lemma FrontMatches(os: seq<Outcome<()>>, i: nat, js: seq<nat>, errs: seq<ValidationError>)
    requires i < |os| && os[i].Invalid? && ErrorsAt(os, i + 1, js, errs)
    ensures var js', errs' := [i] + js, [os[i].error] + errs;
      forall k :: 0 <= k < |js'| ==> i <= js'[k] < |os| && os[js'[k]].Invalid? && errs'[k] == os[js'[k]].error
  {
    var js', errs' := [i] + js, [os[i].error] + errs;
    forall k | 0 <= k < |js'|
      ensures i <= js'[k] < |os| && os[js'[k]].Invalid? && errs'[k] == os[js'[k]].error
    {
      if k > 0 { assert js'[k] == js[k - 1] && errs'[k] == errs[k - 1]; }
    }
  }

  lemma FrontIncreasing(i: nat, js: seq<nat>)
    requires forall k :: 0 <= k < |js| ==> i < js[k]
    requires forall k, k' :: 0 <= k < k' < |js| ==> js[k] < js[k']
    ensures var js' := [i] + js; forall k, k' :: 0 <= k < k' < |js'| ==> js'[k] < js'[k']
  {
    var js' := [i] + js;
    forall k, k' | 0 <= k < k' < |js'| ensures js'[k] < js'[k'] {
      assert js'[k'] == js[k' - 1];
      if k > 0 { assert js'[k] == js[k - 1]; }
    }
  }

  lemma FrontCovers(os: seq<Outcome<()>>, i: nat, js: seq<nat>, errs: seq<ValidationError>)
    requires i < |os| && os[i].Invalid? && ErrorsAt(os, i + 1, js, errs)
    ensures forall j :: i <= j < |os| && os[j].Invalid? ==> j in [i] + js
  {
    var js' := [i] + js;
    forall j | i <= j < |os| && os[j].Invalid? ensures j in js' {
      if j > i {
        var k :| 0 <= k < |js| && js[k] == j;
        assert js'[k + 1] == j;
      }
    }
  }

  /** One step of the item loop: the item's error, if any, goes in front
      of the errors collected after it. */
  lemma ItemErrorsStep(n: Node, l: seq<Value>, i: nat)
    requires i < |l| && n.items.VNode? && ItemErrors(n, l, i).Some?
    ensures ItemErrors(n, l, i + 1).Some?
    ensures var o := Validate(n.items.node, l[i]);
      ItemErrors(n, l, i).value == (if o.Invalid? then [o.error] else []) + ItemErrors(n, l, i + 1).value
  { }

  /** The errors of the invalid outcomes from position `i` on, in order. */
  function InvalidErrors(os: seq<Outcome<()>>, i: nat): (r: seq<ValidationError>)
    requires i <= |os|
    ensures exists js :: ErrorsAt(os, i, js, r)
    decreases |os| - i
  {
    if i == |os| then
      assert ErrorsAt(os, i, [], []);
      []
    else
      var rest := InvalidErrors(os, i + 1);
      var js :| ErrorsAt(os, i + 1, js, rest);
      ErrorsAtCons(os, i, js, rest);
      if os[i].Invalid? then
        assert ErrorsAt(os, i, [i] + js, [os[i].error] + rest);
        [os[i].error] + rest
      else
        rest
  }

  lemma InvalidErrorsStep(os: seq<Outcome<()>>, i: nat)
    requires i < |os|
    ensures InvalidErrors(os, i) == (if os[i].Invalid? then [os[i].error] else []) + InvalidErrors(os, i + 1)
  { }

  /** The item loop collects the same errors as `InvalidErrors` over the
      items' outcomes. */
  lemma {:induction false} ItemErrorsAreInvalidErrors(n: Node, l: seq<Value>, i: nat)
    requires i <= |l| && n.items.VNode? && ItemErrors(n, l, i).Some?
    ensures ItemErrors(n, l, i).value == InvalidErrors(Outcomes(n.items.node, l), i)
    decreases |l| - i
  {
    if i < |l| {
      var os := Outcomes(n.items.node, l);
      ItemErrorsStep(n, l, i);
      ItemErrorsAreInvalidErrors(n, l, i + 1);
      InvalidErrorsStep(os, i);
      assert os[i] == Validate(n.items.node, l[i]);
    }
  }

  /** The item loop collects exactly the invalid items' errors, one each,
      in item order. */
  lemma ItemErrorsExact(n: Node, l: seq<Value>, i: nat)
    requires i <= |l| && n.items.VNode? && ItemErrors(n, l, i).Some?
    ensures exists js :: ErrorsAt(Outcomes(n.items.node, l), i, js, ItemErrors(n, l, i).value)
  {
    ItemErrorsAreInvalidErrors(n, l, i);
  }

  /** Validating one item raises something other than a validation error. */
  predicate ItemRaises(n: Node, x: Value)
    decreases n, 0, 0
  {
    !n.items.VNode? || Validate(n.items.node, x).Crash?
  }

  /** How `name in value` and `value[name]` fare on the value an object
      validates: present with its entry, absent, or raising. */
  datatype Probe = Present(entry: Value) | Absent | Raises

  /** `name` occurs in `s` as a substring (`name in s` on a string). */
  predicate Substring(name: string, s: string) {
    exists i :: 0 <= i <= |s| && OccursAt(s, name, i)
  }

  /** `name in v`; `None` when the value does not support `in` with a
      string (numbers, bytes, `None`, nodes). */
  function Contains(v: Value, name: string): (r: Option<bool>)
    ensures r.Some? <==> v.VDict? || v.VList? || v.VStr?
    ensures v.VDict? ==> r == Some(HasKey(v.entries, name))
  {
    match v
    case VDict(d) => Some(HasKey(d, name))
    case VList(l) => Some(VStr(name) in l)
    case VStr(s) => Some(Substring(name, s))
    case _ => None
  }

  /** `name in v`, then `v[name]`: only a dict yields an entry; indexing a
      list or a string by a string raises. */
  function ProbeKey(v: Value, name: string): (r: Probe)
    ensures r.Absent? <==> Contains(v, name) == Some(false)
    ensures r.Present? <==> v.VDict? && HasKey(v.entries, name)
    ensures r.Present? ==> Get(v.entries, name) == Some(r.entry)
  {
    match Contains(v, name)
    case None => Raises
    case Some(false) => Absent
    case Some(true) => if v.VDict? then Present(Get(v.entries, name).value) else Raises
  }

  /** Checking the property at position `j` raises something other than a
      validation error: the value cannot be probed, the property is not a
      node, its validation raises, or it is missing and `required` is a
      flag (`name in False`). */
  predicate PropertyRaises(n: Node, v: Value, j: nat)
    requires n.properties.VDict? && j < |n.properties.entries|
    decreases n, 0, 0
  {
    var (name, prop) := n.properties.entries[j];
    match ProbeKey(v, name)
    case Raises => true
    case Present(x) => !prop.VNode? || Validate(prop.node, x).Crash?
    case Absent => n.required.Flag?
  }

  const RequiredLeaf: Leaf := Leaf(RequiredText, Some("required"), [])

  /** `ObjectType.validate`: no type check; every declared property present
      in the value is validated and its errors are filed under its name; a
      missing one files one `'required'` leaf when `required` names it. One
      error is raised at the end, if anything was filed. */
  function ValidateObject(n: Node, v: Value): (r: Outcome<()>)
    ensures !n.properties.VDict? ==> r.Crash?
    ensures n.properties.VDict? ==>
              match ObjectErrors(n, v, 0, [])
              case None => r.Crash?
              case Some(acc) => r == if acc == [] then Ok(()) else Invalid(ErrDict(acc))
    decreases n, 1
  {
    if !n.properties.VDict? then Crash("properties is not a dict")
    else
      match ObjectErrors(n, v, 0, [])
      case None => Crash("a property could not be validated")
      case Some(acc) => if acc == [] then Ok(()) else Invalid(ErrDict(acc))
  }

  /** The errors filed for the declared properties from position `i` on,
      added to `acc`; existing entries are only ever extended. */
  function ObjectErrors(n: Node, v: Value, i: nat, acc: Dict<string, seq<Leaf>>): (r: Option<Dict<string, seq<Leaf>>>)
    requires n.properties.VDict? && i <= |n.properties.entries|
    decreases n, 0, |n.properties.entries| - i + 1
  {
    if i == |n.properties.entries| then Some(acc)
    else
      match FileProperty(n, v, i, acc)
      case None => None
      case Some(acc') => ObjectErrors(n, v, i + 1, acc')
  }

  /** Errors already filed stay filed: the loop only adds keys and only
      appends to the lists under them. */
  lemma {:induction false} ObjectErrorsKeeps(n: Node, v: Value, i: nat, acc: Dict<string, seq<Leaf>>)
    requires n.properties.VDict? && i <= |n.properties.entries|
    requires ObjectErrors(n, v, i, acc).Some?
    ensures forall k :: HasKey(acc, k) ==>
              HasKey(ObjectErrors(n, v, i, acc).value, k) && Get(acc, k).value <= Get(ObjectErrors(n, v, i, acc).value, k).value
    decreases |n.properties.entries| - i
  {
    if i < |n.properties.entries| {
      var next := FileProperty(n, v, i, acc).value;
      FilePropertyKeeps(n, v, i, acc);
      ObjectErrorsKeeps(n, v, i + 1, next);
    }
  }

  /** One turn of the loop: what checking the property at position `j`
      files into `acc`, `None` when it raises. */
  function FileProperty(n: Node, v: Value, j: nat, acc: Dict<string, seq<Leaf>>): (r: Option<Dict<string, seq<Leaf>>>)
    requires n.properties.VDict? && j < |n.properties.entries|
    ensures r.None? <==> PropertyRaises(n, v, j)
    decreases n, 0, 1
  {
    var (name, prop) := n.properties.entries[j];
    match ProbeKey(v, name)
    case Raises => None
    case Present(x) =>
      if !prop.VNode? then None
      else
        (match Validate(prop.node, x)
         case Crash(_) => None
         case Ok(_) => Some(acc)
         case Invalid(e) => Some(UpdateErrorDict(e, acc, name)))
    case Absent =>
      match n.required
      case Flag(_) => None
      case Names(ns, _) => if name in ns then Some(Extend(acc, name, [RequiredLeaf])) else Some(acc)
  }

  /** One turn of the loop keeps what was filed before. */
  lemma FilePropertyKeeps(n: Node, v: Value, j: nat, acc: Dict<string, seq<Leaf>>)
    requires n.properties.VDict? && j < |n.properties.entries|
    requires FileProperty(n, v, j, acc).Some?
    ensures forall k :: HasKey(acc, k) ==>
              HasKey(FileProperty(n, v, j, acc).value, k) && Get(acc, k).value <= Get(FileProperty(n, v, j, acc).value, k).value
  {
  }

  /** Checking an object raises exactly when checking one of its declared
      properties does, whatever was filed before. */
  lemma {:induction false} ObjectErrorsRaise(n: Node, v: Value, i: nat, acc: Dict<string, seq<Leaf>>)
    requires n.properties.VDict? && i <= |n.properties.entries|
    ensures ObjectErrors(n, v, i, acc).None? <==> exists j :: i <= j < |n.properties.entries| && PropertyRaises(n, v, j)
    decreases |n.properties.entries| - i
  {
    if i < |n.properties.entries| {
      match FileProperty(n, v, i, acc)
      case None =>
        assert ObjectErrors(n, v, i, acc).None?;
        assert PropertyRaises(n, v, i);
        assert exists j :: i <= j < |n.properties.entries| && PropertyRaises(n, v, j);
      case Some(acc') => ObjectErrorsRaise(n, v, i + 1, acc');
    }
  }

  /** The foreign libraries conversion calls, as parameters: `iso8601`'s
      parser, `float()` on text, `datetime.date()`, the local-time
      `datetime.fromtimestamp`, `date.isoformat` and `rfc3339`. A parser
      yields `None` where it raises. */
  datatype Natives = Natives(
    parseDate: string -> Option<Value>,
    parseFloat: string -> Option<real>,
    dateOf: int -> int,
    fromTimestamp: int -> int,
    isoDate: int -> string,
    rfc3339: int -> string)

  /** `to_python` (wire to native) or `from_python` (native to wire). */
  datatype Direction = Load | Dump

  /** Bytes that are all ASCII, read as text. */
  function AsciiText(b: seq<byte>): Option<string> {
    if forall i :: 0 <= i < |b| ==> b[i] < 0x80 then Some(seq(|b|, i requires 0 <= i < |b| => b[i] as char))
    else None
  }

  /** `Type.to_python` for the scalar kinds: a value that already is an
      instance of the kind's Python type is kept (a boolean counts as an
      `int`), anything else goes through the type's constructor (`str`,
      `int`, `float`, `bool`); `None` where that raises. */
  function Cast(lib: Natives, k: Kind, v: Value): (r: Option<Value>)
    requires k == StringKind || k == IntegerKind || k == NumberKind || k == BooleanKind
    ensures IsInstance(v, {ScalarType(k)}) ==> r == Some(v)
    ensures r.Some? ==> IsInstance(r.value, {ScalarType(k)})
    ensures k == StringKind ==> r == Some(VStr(Render(v)))
    ensures k == IntegerKind && !v.VBool? ==> (r.Some? <==> IntOf(v).IntIs?) && (r.Some? ==> r.value == VInt(IntOf(v).i))
    ensures k == NumberKind && IsNumber(v) ==> r == Some(VFloat(Numeric(v)))
    ensures k == BooleanKind ==> r == Some(VBool(Truthy(v)))
  {
    if IsInstance(v, {ScalarType(k)}) then Some(v)
    else
      match k
      case StringKind => Some(VStr(Render(v)))
      case IntegerKind => (match IntOf(v) case IntIs(i) => Some(VInt(i)) case _ => None)
      case NumberKind =>
        (match v
         case VInt(i) => Some(VFloat(i as real))
         case VBool(b) => Some(VFloat(if b then 1.0 else 0.0))
         case VDecimal(d) => Some(VFloat(d))
         case VStr(t) => FloatFrom(lib.parseFloat(t))
         case VBytes(b) => (match AsciiText(b) case Some(t) => FloatFrom(lib.parseFloat(t)) case None => None)
         case _ => None)
      case BooleanKind => Some(VBool(Truthy(v)))
  }

  function FloatFrom(f: Option<real>): (r: Option<Value>)
    ensures r.Some? ==> r.value.VFloat?
  {
    match f case Some(x) => Some(VFloat(x)) case None => None
  }

  /** The `python_type` of a scalar kind. */
  function ScalarType(k: Kind): PyType {
    match k
    case StringKind => StrT
    case IntegerKind => IntT
    case NumberKind => FloatT
    case BooleanKind => BoolT
    case _ => NoneT
  }

  /** `for x in value`: the elements of a list, the one-character strings
      of a string, the keys of a dict, the integers of bytes; `None` for a
      value that is not iterable. */
  function Iterate(v: Value): (r: Option<seq<Value>>)
    ensures v.VList? ==> r == Some(v.elems)
    ensures r.Some? <==> v.VList? || v.VStr? || v.VDict? || v.VBytes?
    ensures r.Some? && v.VStr? ==> |r.value| == |v.s|
  {
    match v
    case VList(l) => Some(l)
    case VStr(s) => Some(seq(|s|, i requires 0 <= i < |s| => VStr([s[i]])))
    case VDict(d) => Some(seq(|d|, i requires 0 <= i < |d| => VStr(d[i].0)))
    case VBytes(b) => Some(seq(|b|, i requires 0 <= i < |b| => VInt(b[i])))
    case _ => None
  }

  /** `str.encode()` unless the value already is bytes. */
  function RawBytes(v: Value): Option<seq<byte>> {
    match v
    case VBytes(b) => Some(b)
    case VStr(s) => Some(Utf8(s))
    case _ => None
  }

  /** `StringType.to_python` / `from_python`. */
  function ConvertString(lib: Natives, d: Direction, n: Node, v: Value): (r: Option<Value>)
    requires KindOf(n) == StringKind
    ensures n.format == Some("byte") && d == Dump && v.VBytes? ==> r == Some(VStr(Base64.Encode(v.bytes)))
    ensures n.format == Some("byte") && d == Load && v.VStr? ==>
              r == match Base64.Decode(Utf8(v.s)) case Some(b) => Some(VBytes(b)) case None => None
    ensures !(n.format == Some("date") || n.format == Some("date-time") || n.format == Some("byte")) ==>
              r == Cast(lib, StringKind, v)
    ensures d == Dump && n.format == Some("date") && IsInstance(v, {IntT}) ==>
              r == Some(VStr(lib.isoDate(lib.dateOf(lib.fromTimestamp(Numeric(v).Floor)))))
    ensures d == Dump && n.format == Some("date-time") && IsInstance(v, {IntT}) ==>
              r == Some(VStr(lib.rfc3339(lib.fromTimestamp(Numeric(v).Floor))))
    ensures d == Dump && n.format == Some("date") && v.VDateTime? ==> r == Some(VStr(lib.isoDate(lib.dateOf(v.instant))))
    ensures d == Dump && n.format == Some("date") && v.VDate? ==> r == Some(VStr(lib.isoDate(v.day)))
    ensures d == Dump && n.format == Some("date-time") && v.VDateTime? ==> r == Some(VStr(lib.rfc3339(v.instant)))
    ensures (d == Dump && (n.format == Some("date") || n.format == Some("date-time"))
             && !IsInstance(v, {IntT, DateT, DateTimeT})) ==> r == Some(v)
    ensures d == Dump && n.format == Some("date-time") && v.VDate? ==> r == Some(v)
    ensures d == Load && (n.format == Some("date") || n.format == Some("date-time")) ==>
              r == if v.VStr? then lib.parseDate(v.s) else None
  {
    var fmt := n.format;
    if fmt == Some("byte") then
      match RawBytes(v)
      case None => None
      case Some(b) =>
        if d == Dump then Some(VStr(Base64.Encode(b)))
        else (match Base64.Decode(b) case Some(x) => Some(VBytes(x)) case None => None)
    else if d == Load && (fmt == Some("date") || fmt == Some("date-time")) then
      if v.VStr? then lib.parseDate(v.s) else None
    else if d == Dump && fmt == Some("date") then
      match v
      case VDateTime(t) => Some(VStr(lib.isoDate(lib.dateOf(t))))
      case VInt(i) => Some(VStr(lib.isoDate(lib.dateOf(lib.fromTimestamp(i)))))
      case VBool(b) => Some(VStr(lib.isoDate(lib.dateOf(lib.fromTimestamp(if b then 1 else 0)))))
      case VDate(day) => Some(VStr(lib.isoDate(day)))
      case _ => Some(v)
    else if d == Dump && fmt == Some("date-time") then
      match v
      case VDateTime(t) => Some(VStr(lib.rfc3339(t)))
      case VInt(i) => Some(VStr(lib.rfc3339(lib.fromTimestamp(i))))
      case VBool(b) => Some(VStr(lib.rfc3339(lib.fromTimestamp(if b then 1 else 0))))
      case _ => Some(v)
    else Cast(lib, StringKind, v)
  }

  /** `described.to_python(value)` / `described.from_python(value)`;
      `None` where the source raises. */
  function Convert(lib: Natives, d: Direction, n: Node, v: Value): (r: Option<Value>)
    ensures KindOf(n) == SchemaKind ==> r == if n.schema.VNode? then Convert(lib, d, n.schema.node, v) else None
    ensures KindOf(n) in {IntegerKind, NumberKind, BooleanKind} ==> r == Cast(lib, KindOf(n), v)
    decreases n, 2
  {
    match KindOf(n)
    case StringKind => ConvertString(lib, d, n, v)
    case IntegerKind => Cast(lib, IntegerKind, v)
    case NumberKind => Cast(lib, NumberKind, v)
    case BooleanKind => Cast(lib, BooleanKind, v)
    case ArrayKind =>
      (match Iterate(v)
       case None => None
       case Some(xs) => (match ConvertItems(lib, d, n, xs, 0) case None => None case Some(ys) => Some(VList(ys))))
    case ObjectKind => ConvertObject(lib, d, n, v)
    case SchemaKind => if n.schema.VNode? then Convert(lib, d, n.schema.node, v) else None
  }

  /** `[subitem.to_python(x) for x in value]`, from position `i` on: one
      converted element per element, in order. */
  function ConvertItems(lib: Natives, d: Direction, n: Node, xs: seq<Value>, i: nat): (r: Option<seq<Value>>)
    requires i <= |xs|
    ensures r.Some? ==> |r.value| == |xs| - i
    ensures r.Some? && i < |xs| ==> n.items.VNode?
    ensures r.Some? && n.items.VNode? ==> forall j :: i <= j < |xs| ==> Convert(lib, d, n.items.node, xs[j]) == Some(r.value[j - i])
    ensures n.items.VNode? && (forall j :: i <= j < |xs| ==> Convert(lib, d, n.items.node, xs[j]).Some?) ==> r.Some?
    decreases n, 0, |xs| - i
  {
    if i == |xs| then Some([])
    else if !n.items.VNode? then None
    else
      match Convert(lib, d, n.items.node, xs[i])
      case None => None
      case Some(y) =>
        match ConvertItems(lib, d, n, xs, i + 1)
        case None => None
        case Some(rest) => Some([y] + rest)
  }

  /** Whether the comprehension emits the declared property `name`: it is
      in the value or, loading, its default is truthy (`name in value or
      prop.default`; dumping keeps only `name in value`). */
  predicate Emits(d: Direction, v: Value, name: string, prop: Value) {
    Contains(v, name) == Some(true) || (d == Load && prop.VNode? && Truthy(prop.node.default))
  }

  /** What an emitted property converts: the value's entry, or (loading a
      missing one) the property's default. */
  function Source(v: Value, name: string, prop: Value): Value {
    if v.VDict? && HasKey(v.entries, name) then Get(v.entries, name).value
    else if prop.VNode? then prop.node.default
    else VNone
  }

  /** The declared names that are emitted, in declaration order. */
  function EmittedNames(d: Direction, v: Value, props: Dict<string, Value>): seq<string> {
    if props == [] then []
    else (if Emits(d, v, props[0].0, props[0].1) then [props[0].0] else []) + EmittedNames(d, v, props[1..])
  }

  /** Handling one declared property raises: `name in value` raises,
      loading meets a property that is not a node (`prop.default`), or the
      property is emitted and reading or converting its entry raises. */
  predicate EntryRaises(lib: Natives, d: Direction, v: Value, name: string, prop: Value)
    decreases prop, 0
  {
    Contains(v, name).None?
    || (d == Load && !prop.VNode?)
    || (Emits(d, v, name, prop) && (!v.VDict? || !prop.VNode? || Convert(lib, d, prop.node, Source(v, name, prop)).None?))
  }

  /** `ObjectType.to_python` / `from_python`: a dict of the declared
      properties only. */
  function ConvertObject(lib: Natives, d: Direction, n: Node, v: Value): (r: Option<Value>)
    ensures !n.properties.VDict? ==> r.None?
    ensures r.Some? ==> r.value.VDict? && |r.value.entries| <= |n.properties.entries|
    decreases n, 1
  {
    if !n.properties.VDict? then None
    else
      match ConvertEntries(lib, d, n, v, 0, [])
      case None => None
      case Some(out) => Some(VDict(out))
  }

  /** The dict comprehension from position `i` on, added to `acc`. */
  function ConvertEntries(lib: Natives, d: Direction, n: Node, v: Value, i: nat, acc: Dict<string, Value>)
    : (r: Option<Dict<string, Value>>)
    requires n.properties.VDict? && i <= |n.properties.entries|
    ensures r.Some? ==> |r.value| <= |acc| + |n.properties.entries| - i
    decreases n, 0, |n.properties.entries| - i
  {
    var props := n.properties.entries;
    if i == |props| then Some(acc)
    else
      var (name, prop) := props[i];
      match EntryValue(lib, d, v, name, prop)
      case None => None
      case Some(None) => ConvertEntries(lib, d, n, v, i + 1, acc)
      case Some(Some(y)) => ConvertEntries(lib, d, n, v, i + 1, Put(acc, name, y))
  }

  /** The converted entry for one property: `Some(None)` when it is not
      emitted, `None` when the source raises. Loading reads
      `value.get(name, prop.default)`; dumping reads `value[name]`. */
  function EntryValue(lib: Natives, d: Direction, v: Value, name: string, prop: Value): (r: Option<Option<Value>>)
    ensures r.None? <==> EntryRaises(lib, d, v, name, prop)
    ensures r == Some(None) ==> !Emits(d, v, name, prop)
    ensures r.Some? && r.value.Some? ==>
              Emits(d, v, name, prop) && prop.VNode? && Convert(lib, d, prop.node, Source(v, name, prop)) == r.value
    decreases prop, 1
  {
    match d
    case Dump =>
      (match ProbeKey(v, name)
       case Raises => None
       case Absent => Some(None)
       case Present(x) => if prop.VNode? then WrapSome(Convert(lib, Dump, prop.node, x)) else None)
    case Load =>
      (match Contains(v, name)
       case None => None
       case Some(present) =>
         if !prop.VNode? then None
         else if !present && !Truthy(prop.node.default) then Some(None)
         else if !v.VDict? then None
         else
           var x := if present then Get(v.entries, name).value else prop.node.default;
           WrapSome(Convert(lib, Load, prop.node, x)))
  }

  function WrapSome(r: Option<Value>): (w: Option<Option<Value>>)
    ensures w.Some? <==> r.Some?
    ensures w.Some? ==> w.value == r
  {
    match r case Some(y) => Some(Some(y)) case None => None
  }

  /** The annotation of an object-kind value. */
  const DictTyping: string := "typing.Dict[str, typing.Any]"

  /** A node of kind `schema` refers to another node and behaves exactly
      like it: validation, both conversions and the typing annotation are
      the referenced node's. */
  lemma SchemaReference(lib: Natives, d: Direction, m: Node, role: Role, v: Value)
    ensures var n := Blank(role).(kind := Some("schema"), schema := VNode(m));
      && Validate(n, v) == Validate(m, v)
      && Convert(lib, d, n, v) == Convert(lib, d, m, v)
      && TypingName(n) == TypingName(m)
  {
  }

  /** The `typing` annotation a node's kind declares, as
      `typing_type_name` shows it; `None` where the source raises (an
      array without an item node, a schema reference that is not a node). */
  function TypingName(n: Node): (r: Option<string>)
    ensures r.Some? ==> |r.value| > 0 && '=' !in r.value
    ensures KindOf(n) == ArrayKind ==> (r.Some? <==> n.items.VNode? && TypingName(n.items.node).Some?)
    ensures KindOf(n) == SchemaKind ==> r == if n.schema.VNode? then TypingName(n.schema.node) else None
  {
    match KindOf(n)
    case StringKind => Some("str")
    case IntegerKind => Some("int")
    case NumberKind => Some("float")
    case BooleanKind => Some("bool")
    case ArrayKind =>
      if !n.items.VNode? then None
      else (match TypingName(n.items.node) case Some(t) => Some("typing.List[" + t + "]") case None => None)
    case ObjectKind => Some(DictTyping)
    case SchemaKind => if n.schema.VNode? then TypingName(n.schema.node) else None
  }

  // ---- Properties of validation ----

  /** Under `int32` the accepted range is clipped to [-(2^31-1), 2^31-1]:
      2^31 - 1 passes, 2^31 fails, and so does -2^31, since the lower clip
      is the negated boundary. */
  lemma Int32Range(n: Node)
    requires KindOf(n) == IntegerKind && n.format == Some("int32")
    requires !Truthy(n.minimum) && !Truthy(n.maximum)
    ensures Validate(n, VInt(0x7FFF_FFFF)).Ok? && Validate(n, VInt(-0x7FFF_FFFF)).Ok?
    ensures Validate(n, VInt(0x8000_0000)) == Invalid(RangeFailure(VInt(-0x7FFF_FFFF), VInt(0x7FFF_FFFF)))
    ensures Validate(n, VInt(-0x8000_0000)) == Invalid(RangeFailure(VInt(-0x7FFF_FFFF), VInt(0x7FFF_FFFF)))
  {
    assert RangeBounds(n) == Some((VInt(-0x7FFF_FFFF), VInt(0x7FFF_FFFF)));
  }

  /** A fractional bound is compared as it is: with `minimum` 0.5, a
      `number` of 0.2 fails and reports 0.5 as its minimum. */
  lemma FractionalMinimum(n: Node)
    requires KindOf(n) == NumberKind && Boundary(n.format).None?
    requires n.minimum == VFloat(0.5) && !Truthy(n.maximum)
    ensures Validate(n, VFloat(0.2)) == Invalid(RangeFailure(VFloat(0.5), n.maximum))
    ensures Validate(n, VFloat(0.5)) == Ok(())
  {
  }

  /** A truthy bound that is not a number makes the comparison raise. */
  lemma TextBoundRaises(n: Node, i: int)
    requires KindOf(n) == IntegerKind && n.maximum == VStr("10")
    ensures Validate(n, VInt(i)).Crash?
  {
    assert !Comparable(n.maximum);
    if Boundary(n.format).None? {
      assert EffectiveMax(n) == Some(n.maximum);
    }
  }

  /** `True` is an `int`: an integer check with no bounds accepts it, and
      a bound compares it as 1. */
  lemma BoolIsInteger(n: Node)
    requires KindOf(n) == IntegerKind && Boundary(n.format).None? && !Truthy(n.maximum)
    ensures n.minimum == VNone ==> Validate(n, VBool(true)) == Ok(())
    ensures n.minimum == VInt(2) ==> Validate(n, VBool(true)) == Invalid(RangeFailure(VInt(2), n.maximum))
  {
  }

  /** `value not in (True, False)` passes 0, 1, 0.0, 1.0 and `Decimal(1)`,
      since they compare equal to a boolean, and fails 2 and `'True'`. */
  lemma BooleanEquality()
    ensures CheckBoolean(VInt(0)).Ok? && CheckBoolean(VInt(1)).Ok? && CheckBoolean(VFloat(1.0)).Ok?
    ensures CheckBoolean(VFloat(0.0)).Ok? && CheckBoolean(VDecimal(1.0)).Ok?
    ensures !CheckBoolean(VInt(2)).Ok? && !CheckBoolean(VStr("True")).Ok?
  {
  }

  /** Without a format, bounds that are absent or 0 are never checked: every
      integer passes. */
  lemma ZeroBoundsIgnored(n: Node, i: int)
    requires KindOf(n) == IntegerKind && Boundary(n.format).None?
    requires !Truthy(n.minimum) && !Truthy(n.maximum)
    ensures Validate(n, VInt(i)) == Ok(())
  {
  }

  /** A `number` rejects a plain `int` on its type check. */
  lemma NumberRejectsInt(n: Node, i: int)
    requires KindOf(n) == NumberKind
    ensures Validate(n, VInt(i)) == Invalid(TypeFailure(n))
    ensures TypeFailure(n).leaves[0].params == [("type", VStr(TypeParam(n)))]
  {
  }

  /** With `uniqueItems`, `[1, 1]` fails on uniqueness before any item is
      looked at, even when there is no item node to check them with. */
  lemma DuplicatesBeforeItems(n: Node)
    requires KindOf(n) == ArrayKind && n.uniqueItems
    requires !Truthy(MinLength(n)) && !Truthy(n.maxItems)
    ensures Validate(n, VList([VInt(1), VInt(1)])) == Invalid(NotUnique)
  {
    var l := [VInt(1), VInt(1)];
    assert !Distinct(l) by { assert PyEq(l[0], l[1]); }
  }

  /** An array whose items all validate without raising passes exactly when
      every item passes; otherwise the one error raised holds, under `'[]'`,
      the leaves of every failing item's error. */
  lemma ArrayCollectsAll(n: Node, l: seq<Value>)
    requires KindOf(n) == ArrayKind && n.items.VNode?
    requires LengthFits(n, |l|) && (n.uniqueItems ==> Distinct(l))
    requires forall j :: 0 <= j < |l| ==> !Validate(n.items.node, l[j]).Crash?
    ensures Validate(n, VList(l)).Ok? <==> forall j :: 0 <= j < |l| ==> Validate(n.items.node, l[j]).Ok?
    ensures !Validate(n, VList(l)).Ok? ==>
              exists errs :: Validate(n, VList(l)) == Invalid(ItemsFailure(errs)) &&
                forall j :: 0 <= j < |l| && Validate(n.items.node, l[j]).Invalid? ==> Validate(n.items.node, l[j]).error in errs
    ensures !Validate(n, VList(l)).Ok? ==>
              exists errs, js :: Validate(n, VList(l)) == Invalid(ItemsFailure(errs)) && ErrorsAt(Outcomes(n.items.node, l), 0, js, errs)
  {
    assert ItemErrors(n, l, 0).Some?;
    ItemErrorsExact(n, l, 0);
  }

  /** How many leaves checking the property at position `j` files: every
      leaf of its error when present and invalid, one `'required'` leaf when
      absent and named by `required`. */
  function Contribution(n: Node, v: Value, j: nat): nat
    requires n.properties.VDict? && j < |n.properties.entries|
  {
    var (name, prop) := n.properties.entries[j];
    match ProbeKey(v, name)
    case Present(x) => if prop.VNode? && Validate(prop.node, x).Invalid? then |Flatten(Validate(prop.node, x).error)| else 0
    case Absent => if n.required.Names? && name in n.required.names then 1 else 0
    case Raises => 0
  }

  function Contributions(n: Node, v: Value, i: nat): nat
    requires n.properties.VDict? && i <= |n.properties.entries|
    decreases |n.properties.entries| - i
  {
    if i == |n.properties.entries| then 0 else Contribution(n, v, i) + Contributions(n, v, i + 1)
  }

  /** Nothing short-circuits an object check: the leaves filed are exactly
      those of every invalid property plus one per missing required one. */
  lemma {:induction false} ObjectLeafCount(n: Node, v: Value, i: nat, acc: Dict<string, seq<Leaf>>)
    requires n.properties.VDict? && i <= |n.properties.entries|
    requires ObjectErrors(n, v, i, acc).Some?
    ensures LeafCount(ObjectErrors(n, v, i, acc).value) == LeafCount(acc) + Contributions(n, v, i)
    decreases |n.properties.entries| - i
  {
    if i < |n.properties.entries| {
      var (name, prop) := n.properties.entries[i];
      var next := FileProperty(n, v, i, acc).value;
      ObjectLeafCount(n, v, i + 1, next);
      match ProbeKey(v, name)
      case Present(x) =>
        if Validate(prop.node, x).Invalid? {
          UpdateErrorDictCount(Validate(prop.node, x).error, acc, name);
        }
      case Absent =>
        if name in n.required.names {
          LeafCountPut(acc, name, Get(acc, name).GetOr([]) + [RequiredLeaf]);
        }
    }
  }

  /** A key the object does not declare makes no difference to its check. */
  lemma ObjectIgnoresExtra(n: Node, d: Dict<string, Value>, k: string, x: Value, i: nat,
                           acc: Dict<string, seq<Leaf>>)
    requires n.properties.VDict? && i <= |n.properties.entries|
    requires k !in Keys(n.properties.entries) && !HasKey(d, k)
    ensures ObjectErrors(n, VDict(d + [(k, x)]), i, acc) == ObjectErrors(n, VDict(d), i, acc)
  {
    forall j, a | i <= j < |n.properties.entries|
      ensures FileProperty(n, VDict(d + [(k, x)]), j, a) == FileProperty(n, VDict(d), j, a)
    {
      FilePropertyExtra(n, d, k, x, j, a);
    }
    ObjectErrorsAgree(n, VDict(d + [(k, x)]), VDict(d), i, acc);
  }

  /** Two values every property files alike get the same errors. */
  lemma {:induction false} ObjectErrorsAgree(n: Node, v: Value, w: Value, i: nat, acc: Dict<string, seq<Leaf>>)
    requires n.properties.VDict? && i <= |n.properties.entries|
    requires forall j, a :: i <= j < |n.properties.entries| ==> FileProperty(n, v, j, a) == FileProperty(n, w, j, a)
    ensures ObjectErrors(n, v, i, acc) == ObjectErrors(n, w, i, acc)
    decreases |n.properties.entries| - i
  {
    if i < |n.properties.entries| {
      var f := FileProperty(n, w, i, acc);
      if f.Some? {
        ObjectErrorsAgree(n, v, w, i + 1, f.value);
      }
    }
  }


  lemma FilePropertyExtra(n: Node, d: Dict<string, Value>, k: string, x: Value, i: nat, acc: Dict<string, seq<Leaf>>)
    requires n.properties.VDict? && i < |n.properties.entries|
    requires k !in Keys(n.properties.entries)
    ensures FileProperty(n, VDict(d + [(k, x)]), i, acc) == FileProperty(n, VDict(d), i, acc)
  {
    var name := n.properties.entries[i].0;
    assert Keys(n.properties.entries)[i] == name;
    ProbeExtra(d, k, x, name);
  }

  /** Probing a name other than the added key sees no difference. */
  lemma ProbeExtra(d: Dict<string, Value>, k: string, x: Value, name: string)
    requires name != k
    ensures ProbeKey(VDict(d + [(k, x)]), name) == ProbeKey(VDict(d), name)
  {
    GetAppend(d, k, x, name);
    assert HasKey(d + [(k, x)], name) <==> HasKey(d, name);
  }

  // ---- Properties of conversion ----

  /** `byte` strings round-trip through base64 (section 4 of RFC 4648). */
  lemma ByteRoundTrip(lib: Natives, n: Node, b: seq<byte>)
    requires KindOf(n) == StringKind && n.format == Some("byte")
    ensures Convert(lib, Dump, n, VBytes(b)) == Some(VStr(Base64.Encode(b)))
    ensures Convert(lib, Load, n, VStr(Base64.Encode(b))) == Some(VBytes(b))
  {
    Base64.DecodeEncode(b);
  }

  /** `b'test'` is sent as `'dGVzdA=='` and read back. */
  lemma ByteExample(lib: Natives, n: Node)
    requires KindOf(n) == StringKind && n.format == Some("byte")
    ensures Convert(lib, Dump, n, VBytes([0x74, 0x65, 0x73, 0x74])) == Some(VStr("dGVzdA=="))
    ensures Convert(lib, Load, n, VStr("dGVzdA==")) == Some(VBytes([0x74, 0x65, 0x73, 0x74]))
  {
    Base64.EncodeTest();
    ByteRoundTrip(lib, n, [0x74, 0x65, 0x73, 0x74]);
  }

  /** `True` passes the type check of a `date-time` string, as an `int`
      does, and is sent as the instant one second after the epoch;
      `False` under `date` is sent as the epoch's date. */
  lemma BoolTimestamp(lib: Natives, n: Node)
    requires KindOf(n) == StringKind
    ensures n.format == Some("date-time") ==>
              CheckType(n, VBool(true)).Ok? && Convert(lib, Dump, n, VBool(true)) == Some(VStr(lib.rfc3339(lib.fromTimestamp(1))))
    ensures n.format == Some("date") ==>
              CheckType(n, VBool(false)).Ok? && Convert(lib, Dump, n, VBool(false)) == Some(VStr(lib.isoDate(lib.dateOf(lib.fromTimestamp(0)))))
  {
  }

  /** A date-time is read back from its RFC 3339 text whenever the parser
      inverts the formatter on it. */
  lemma DateTimeRoundTrip(lib: Natives, n: Node, t: int)
    requires KindOf(n) == StringKind && n.format == Some("date-time")
    requires lib.parseDate(lib.rfc3339(t)) == Some(VDateTime(t))
    ensures Convert(lib, Dump, n, VDateTime(t)) == Some(VStr(lib.rfc3339(t)))
    ensures Convert(lib, Load, n, VStr(lib.rfc3339(t))) == Some(VDateTime(t))
  {
  }

  /** Items that round-trip one by one make the list round-trip. */
  lemma ItemsRoundTrip(lib: Natives, n: Node, xs: seq<Value>, ws: seq<Value>, i: nat)
    requires n.items.VNode? && |xs| == |ws| && i <= |xs|
    requires forall j :: 0 <= j < |xs| ==> Convert(lib, Dump, n.items.node, xs[j]) == Some(ws[j])
    requires forall j :: 0 <= j < |xs| ==> Convert(lib, Load, n.items.node, ws[j]) == Some(xs[j])
    ensures ConvertItems(lib, Dump, n, xs, i) == Some(ws[i..])
    ensures ConvertItems(lib, Load, n, ws, i) == Some(xs[i..])
  {
    ItemsConvert(lib, Dump, n, xs, ws, i);
    ItemsConvert(lib, Load, n, ws, xs, i);
  }

  /** Items that each convert make the tail of the list convert to the
      tail of their results. */
  lemma ItemsConvert(lib: Natives, d: Direction, n: Node, xs: seq<Value>, ys: seq<Value>, i: nat)
    requires n.items.VNode? && |xs| == |ys| && i <= |xs|
    requires forall j :: 0 <= j < |xs| ==> Convert(lib, d, n.items.node, xs[j]) == Some(ys[j])
    ensures ConvertItems(lib, d, n, xs, i) == Some(ys[i..])
  {
    assert forall j :: i <= j < |xs| ==> Convert(lib, d, n.items.node, xs[j]).Some?;
    var r := ConvertItems(lib, d, n, xs, i);
    forall k | 0 <= k < |r.value|
      ensures r.value[k] == ys[i..][k]
    {
      assert Convert(lib, d, n.items.node, xs[k + i]) == Some(r.value[k]);
    }
    assert |r.value| == |ys[i..]|;
    assert r.value == ys[i..];
  }

  /** An array converts element by element: when its item node round-trips
      every element, the whole list round-trips, length and order kept. */
  lemma ArrayRoundTrip(lib: Natives, n: Node, xs: seq<Value>, ws: seq<Value>)
    requires KindOf(n) == ArrayKind && n.items.VNode? && |xs| == |ws|
    requires forall j :: 0 <= j < |xs| ==> Convert(lib, Dump, n.items.node, xs[j]) == Some(ws[j])
    requires forall j :: 0 <= j < |xs| ==> Convert(lib, Load, n.items.node, ws[j]) == Some(xs[j])
    ensures Convert(lib, Dump, n, VList(xs)) == Some(VList(ws))
    ensures Convert(lib, Load, n, VList(ws)) == Some(VList(xs))
  {
    ItemsRoundTrip(lib, n, xs, ws, 0);
    assert xs[0..] == xs && ws[0..] == ws;
  }

  /** The emitted names are declared names whose property is emitted. */
  lemma {:induction false} EmittedNamesIn(d: Direction, v: Value, props: Dict<string, Value>, k: string)
    requires k in EmittedNames(d, v, props)
    ensures exists j :: 0 <= j < |props| && props[j].0 == k && Emits(d, v, k, props[j].1)
  {
    if props[0].0 == k && Emits(d, v, k, props[0].1) {
    } else {
      EmittedNamesIn(d, v, props[1..], k);
      var j :| 0 <= j < |props[1..]| && props[1..][j].0 == k && Emits(d, v, k, props[1..][j].1);
      assert props[j + 1] == props[1..][j];
    }
  }

  /** Properties emitted alike give the same emitted names. */
  lemma {:induction false} EmittedNamesAgree(d: Direction, v: Value, d': Direction, v': Value, props: Dict<string, Value>)
    requires forall j :: 0 <= j < |props| ==> (Emits(d, v, props[j].0, props[j].1) <==> Emits(d', v', props[j].0, props[j].1))
    ensures EmittedNames(d, v, props) == EmittedNames(d', v', props)
  {
    if props != [] {
      assert forall j :: 0 <= j < |props[1..]| ==> props[1..][j] == props[j + 1];
      EmittedNamesAgree(d, v, d', v', props[1..]);
    }
  }

  /** One step of the comprehension, as a function of the property. */
  function EntryStep(lib: Natives, d: Direction, v: Value): (string, Value) -> Option<Option<Value>> {
    (name, prop) => EntryValue(lib, d, v, name, prop)
  }

  /** The comprehension from position `i` on is the fold of its steps over
      the remaining properties. */
  lemma {:induction false} ConvertEntriesGather(lib: Natives, d: Direction, n: Node, v: Value, i: nat, acc: Dict<string, Value>)
    requires n.properties.VDict? && i <= |n.properties.entries|
    ensures ConvertEntries(lib, d, n, v, i, acc) == Gather(n.properties.entries[i..], EntryStep(lib, d, v), acc)
    decreases |n.properties.entries| - i
  {
    var props := n.properties.entries;
    if i < |props| {
      var e := EntryValue(lib, d, v, props[i].0, props[i].1);
      assert props[i..][0] == props[i] && props[i..][1..] == props[i + 1..];
      if e.Some? {
        var acc' := if e.value.None? then acc else Put(acc, props[i].0, e.value.value);
        ConvertEntriesGather(lib, d, n, v, i + 1, acc');
      }
    }
  }

  /** When no step raises, the kept names are the emitted ones. */
  lemma {:induction false} KeptEmitted(lib: Natives, d: Direction, v: Value, props: Dict<string, Value>)
    requires forall j :: 0 <= j < |props| ==> EntryValue(lib, d, v, props[j].0, props[j].1).Some?
    ensures KeptKeys(props, EntryStep(lib, d, v)) == EmittedNames(d, v, props)
  {
    if props != [] {
      assert forall j :: 0 <= j < |props[1..]| ==> props[1..][j] == props[j + 1];
      var e := EntryValue(lib, d, v, props[0].0, props[0].1);
      assert e.Some?;
      KeptEmitted(lib, d, v, props[1..]);
    }
  }

  /** An object converts to the fold of its steps over the declared
      properties. */
  lemma ObjectGather(lib: Natives, d: Direction, n: Node, v: Value)
    requires KindOf(n) == ObjectKind && n.properties.VDict?
    ensures var g := Gather(n.properties.entries, EntryStep(lib, d, v), []);
      Convert(lib, d, n, v) == if g.Some? then Some(VDict(g.value)) else None
  {
    ConvertEntriesGather(lib, d, n, v, 0, []);
    assert n.properties.entries[0..] == n.properties.entries;
  }

  /** `ObjectType.to_python` / `from_python` raises exactly when handling
      one declared property raises. */
  lemma ObjectRaises(lib: Natives, d: Direction, n: Node, v: Value)
    requires KindOf(n) == ObjectKind && n.properties.VDict?
    ensures var props := n.properties.entries;
      Convert(lib, d, n, v).None? <==> exists j :: 0 <= j < |props| && EntryRaises(lib, d, v, props[j].0, props[j].1)
  {
    var props := n.properties.entries;
    ObjectGather(lib, d, n, v);
    GatherRaises(props, EntryStep(lib, d, v), []);
  }

  /** On declared properties with distinct names, the converted object's
      keys are the emitted names in declaration order. */
  lemma ObjectKeys(lib: Natives, d: Direction, n: Node, v: Value)
    requires KindOf(n) == ObjectKind && n.properties.VDict? && UniqueKeys(n.properties.entries)
    ensures var r := Convert(lib, d, n, v);
      r.Some? ==> r.value.VDict? && Keys(r.value.entries) == EmittedNames(d, v, n.properties.entries)
  {
    var props := n.properties.entries;
    var f := EntryStep(lib, d, v);
    ObjectGather(lib, d, n, v);
    if Gather(props, f, []).Some? {
      GatherKeeps(props, f, []);
      KeptEmitted(lib, d, v, props);
    }
  }

  /** On declared properties with distinct names, each emitted property
      maps to the conversion of its entry (or, loading, of its default). */
  lemma ObjectValues(lib: Natives, d: Direction, n: Node, v: Value)
    requires KindOf(n) == ObjectKind && n.properties.VDict? && UniqueKeys(n.properties.entries)
    ensures var props := n.properties.entries; var r := Convert(lib, d, n, v);
      r.Some? ==> forall j :: 0 <= j < |props| && Emits(d, v, props[j].0, props[j].1) ==>
        props[j].1.VNode? && Convert(lib, d, props[j].1.node, Source(v, props[j].0, props[j].1)) == Get(r.value.entries, props[j].0)
  {
    var props := n.properties.entries;
    var f := EntryStep(lib, d, v);
    ObjectGather(lib, d, n, v);
    if Gather(props, f, []).Some? {
      GatherKeeps(props, f, []);
      forall j | 0 <= j < |props| && Emits(d, v, props[j].0, props[j].1)
        ensures props[j].1.VNode? && Convert(lib, d, props[j].1.node, Source(v, props[j].0, props[j].1)) == Get(Gather(props, f, []).value, props[j].0)
      {
        assert f(props[j].0, props[j].1) == EntryValue(lib, d, v, props[j].0, props[j].1);
      }
    }
  }

  /** `v` and `w` are an object and its wire form: `v` holds only declared
      properties, in declaration order; every absent property has no
      truthy default; `w` has the same keys, and each present entry dumps
      to its entry in `w`, which loads back to it. */
  predicate ObjectPair(lib: Natives, n: Node, v: Dict<string, Value>, w: Dict<string, Value>) {
    && KindOf(n) == ObjectKind && n.properties.VDict? && UniqueKeys(n.properties.entries)
    && (forall j :: 0 <= j < |n.properties.entries| ==> n.properties.entries[j].1.VNode?)
    && UniqueKeys(v) && Keys(v) == EmittedNames(Dump, VDict(v), n.properties.entries) && Keys(w) == Keys(v)
    && (forall j :: 0 <= j < |n.properties.entries| && !HasKey(v, n.properties.entries[j].0) ==>
          !Truthy(n.properties.entries[j].1.node.default))
    && (forall j :: 0 <= j < |n.properties.entries| && HasKey(v, n.properties.entries[j].0) ==>
          var (name, prop) := n.properties.entries[j];
          Convert(lib, Dump, prop.node, Get(v, name).value) == Get(w, name) &&
          Convert(lib, Load, prop.node, Get(w, name).value) == Get(v, name))
  }

  /** An object and its wire form convert into each other: dumping the
      object gives the wire form and loading that gives the object back. */
  lemma ObjectRoundTrip(lib: Natives, n: Node, v: Dict<string, Value>, w: Dict<string, Value>)
    requires ObjectPair(lib, n, v, w)
    ensures Convert(lib, Dump, n, VDict(v)) == Some(VDict(w))
    ensures Convert(lib, Load, n, VDict(w)) == Some(VDict(v))
  {
    ObjectDumps(lib, n, v, w);
    ObjectLoads(lib, n, v, w);
  }

  lemma ObjectDumps(lib: Natives, n: Node, v: Dict<string, Value>, w: Dict<string, Value>)
    requires ObjectPair(lib, n, v, w)
    ensures Convert(lib, Dump, n, VDict(v)) == Some(VDict(w))
  {
    var props := n.properties.entries;
    ObjectRaises(lib, Dump, n, VDict(v));
    assert forall j :: 0 <= j < |props| ==> !EntryRaises(lib, Dump, VDict(v), props[j].0, props[j].1);
    ObjectKeys(lib, Dump, n, VDict(v));
    ObjectValues(lib, Dump, n, VDict(v));
    var dumped := Convert(lib, Dump, n, VDict(v)).value.entries;
    forall k | HasKey(w, k) ensures Get(w, k) == Get(dumped, k) {
      assert HasKey(v, k);
      EmittedNamesIn(Dump, VDict(v), props, k);
    }
    SameKeysUnique(v, w);
    SameDict(w, dumped);
  }

  lemma ObjectLoads(lib: Natives, n: Node, v: Dict<string, Value>, w: Dict<string, Value>)
    requires ObjectPair(lib, n, v, w)
    ensures Convert(lib, Load, n, VDict(w)) == Some(VDict(v))
  {
    var props := n.properties.entries;
    assert forall j :: 0 <= j < |props| ==> HasKey(w, props[j].0) == HasKey(v, props[j].0);
    ObjectRaises(lib, Load, n, VDict(w));
    assert forall j :: 0 <= j < |props| ==> !EntryRaises(lib, Load, VDict(w), props[j].0, props[j].1);
    ObjectKeys(lib, Load, n, VDict(w));
    ObjectValues(lib, Load, n, VDict(w));
    var loaded := Convert(lib, Load, n, VDict(w)).value.entries;
    EmittedNamesAgree(Load, VDict(w), Dump, VDict(v), props);
    forall k | HasKey(v, k) ensures Get(v, k) == Get(loaded, k) {
      EmittedNamesIn(Dump, VDict(v), props, k);
    }
    SameDict(v, loaded);
  }

  /** A declared integer property converts both ways unchanged (the
      `{"test": 1}` case). */
  lemma ObjectExample(lib: Natives, n: Node, p: Node)
    requires KindOf(n) == ObjectKind && n.properties == VDict([("test", VNode(p))]) && KindOf(p) == IntegerKind
    ensures Convert(lib, Load, n, VDict([("test", VInt(1))])) == Some(VDict([("test", VInt(1))]))
    ensures Convert(lib, Dump, n, VDict([("test", VInt(1))])) == Some(VDict([("test", VInt(1))]))
  {
    var v := VDict([("test", VInt(1))]);
    assert Keys(v.entries) == ["test"];
    assert EntryValue(lib, Load, v, "test", VNode(p)) == Some(Some(VInt(1)));
    assert EntryValue(lib, Dump, v, "test", VNode(p)) == Some(Some(VInt(1)));
    assert Put([], "test", VInt(1)) == [("test", VInt(1))];
    assert ConvertEntries(lib, Load, n, v, 1, [("test", VInt(1))]) == Some([("test", VInt(1))]);
    assert ConvertEntries(lib, Load, n, v, 0, []) == Some([("test", VInt(1))]);
    assert ConvertEntries(lib, Dump, n, v, 1, [("test", VInt(1))]) == Some([("test", VInt(1))]);
    assert ConvertEntries(lib, Dump, n, v, 0, []) == Some([("test", VInt(1))]);
  }

  /** Loading back-fills a missing property from its truthy default;
      dumping does not, and drops undeclared keys. */
  lemma BackFillOnlyOnLoad(lib: Natives, n: Node, p: Node)
    requires KindOf(n) == ObjectKind && n.properties == VDict([("a", VNode(p))])
    requires KindOf(p) == IntegerKind && p.default == VInt(5)
    ensures Convert(lib, Load, n, VDict([("b", VInt(1))])) == Some(VDict([("a", VInt(5))]))
    ensures Convert(lib, Dump, n, VDict([("b", VInt(1))])) == Some(VDict([]))
  {
    var v := VDict([("b", VInt(1))]);
    assert Keys(v.entries) == ["b"];
    assert !HasKey(v.entries, "a");
    assert EntryValue(lib, Load, v, "a", VNode(p)) == Some(Some(VInt(5)));
    assert EntryValue(lib, Dump, v, "a", VNode(p)) == Some(None);
    assert Put([], "a", VInt(5)) == [("a", VInt(5))];
    assert ConvertEntries(lib, Load, n, v, 1, [("a", VInt(5))]) == Some([("a", VInt(5))]);
    assert ConvertEntries(lib, Load, n, v, 0, []) == Some([("a", VInt(5))]);
    assert ConvertEntries(lib, Dump, n, v, 1, []) == Some([]);
    assert ConvertEntries(lib, Dump, n, v, 0, []) == Some([]);
  }
}
