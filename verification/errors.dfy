/** The exceptions of `esi/exceptions.py`: the `ValidationError` tree that
    every composite validation accumulates into, the scope error, and the
    error-limit headers of a failed response. */
module Errors {
  import opened Wrappers
  import opened Text
  import opened Dicts
  import opened Nodes

  /** A single error: what a `ValidationError` built from a plain message
      holds. Absent params are the empty dict (both are falsy). */
  datatype Leaf = Leaf(message: string, code: Option<string>, params: Dict<string, Value>)

  /** A `ValidationError` is either a flat list of leaves (`error_list`) or
      a field-to-leaves dict (`error_dict`); a leaf error is the list of
      itself. */
  datatype ValidationError =
    | ErrList(leaves: seq<Leaf>)
    | ErrDict(fields: Dict<string, seq<Leaf>>)

  /** What the constructor may be given: a plain message with its code and
      params, a list, a dict, or an existing error. */
  datatype Message =
    | Msg(text: string, code: Option<string>, params: Dict<string, Value>)
    | Many(items: seq<Message>)
    | Fields(entries: Dict<string, Message>)
    | Raised(error: ValidationError)

  /** The outcome of a call that can raise: a value, a `ValidationError`,
      or any other exception (a `TypeError`, `KeyError`, `AttributeError`,
      `binascii.Error`, ...) that escapes the validation machinery. */
  datatype Outcome<T> = Ok(value: T) | Invalid(error: ValidationError) | Crash(reason: string)

  /** All leaves of an error: `error_list`, or the concatenated values of
      `error_dict` (`sum(error_dict.values(), [])`). */
  function Flatten(e: ValidationError): seq<Leaf> {
    match e
    case ErrList(ls) => ls
    case ErrDict(fs) => ConcatLeaves(Values(fs))
  }

  function ConcatLeaves(lss: seq<seq<Leaf>>): (r: seq<Leaf>)
    ensures |lss| == 1 ==> r == lss[0]
  {
    if lss == [] then [] else lss[0] + ConcatLeaves(lss[1..])
  }

  /** `ValidationError(message, code, params)`. `None` stands for the
      `AttributeError` the constructor raises when a dict entry is itself a
      dict (or a dict-shaped error): such an error has no `error_list`. An
      existing error is taken over as it is; `MakeUnparse` shows that
      rebuilding it from its parts gives the same error. */
  function Make(m: Message): (r: Option<ValidationError>)
    ensures m.Msg? ==> r == Some(ErrList([Leaf(m.text, m.code, m.params)]))
    ensures m.Raised? ==> r == Some(m.error)
    ensures m.Many? && r.Some? ==> r.value.ErrList?
    ensures m.Fields? && r.Some? ==> r.value.ErrDict? && |r.value.fields| == |m.entries|
    decreases m, 1
  {
    match m
    case Msg(t, c, p) => Some(ErrList([Leaf(t, c, p)]))
    case Raised(e) => Some(e)
    case Many(_) =>
      (match ListFrom(m, 0) case Some(ls) => Some(ErrList(ls)) case None => None)
    case Fields(_) =>
      (match FieldsFrom(m, 0) case Some(fs) => Some(ErrDict(fs)) case None => None)
  }

  /** The leaves the list items from position `i` on contribute: a dict
      error contributes all of its values, any other error its list. */
  function ListFrom(m: Message, i: nat): (r: Option<seq<Leaf>>)
    requires m.Many? && i <= |m.items|
    decreases m, 0, |m.items| - i
  {
    if i == |m.items| then Some([])
    else
      var head := Make(m.items[i]);
      var rest := ListFrom(m, i + 1);
      if head.Some? && rest.Some? then Some(Flatten(head.value) + rest.value) else None
  }

  /** A list of messages builds exactly when every item builds. */
  lemma {:induction false} ListFromSome(m: Message, i: nat)
    requires m.Many? && i <= |m.items|
    ensures ListFrom(m, i).Some? <==> forall j :: i <= j < |m.items| ==> Make(m.items[j]).Some?
    decreases |m.items| - i
  {
    if i < |m.items| {
      ListFromSome(m, i + 1);
    }
  }

  /** The `error_dict` built from the dict entries from position `i` on:
      each field maps to its value's `error_list`. */
  function FieldsFrom(m: Message, i: nat): (r: Option<Dict<string, seq<Leaf>>>)
    requires m.Fields? && i <= |m.entries|
    ensures r.Some? ==> |r.value| == |m.entries| - i
    decreases m, 0, |m.entries| - i
  {
    if i == |m.entries| then Some([])
    else
      var head := Make(m.entries[i].1);
      var rest := FieldsFrom(m, i + 1);
      if head.Some? && head.value.ErrList? && rest.Some? then
        Some([(m.entries[i].0, head.value.leaves)] + rest.value)
      else None
  }

  /** A dict of messages builds exactly when every value builds to a list
      error. */
  lemma {:induction false} FieldsFromSome(m: Message, i: nat)
    requires m.Fields? && i <= |m.entries|
    ensures FieldsFrom(m, i).Some? <==> forall j :: i <= j < |m.entries| ==>
      Make(m.entries[j].1).Some? && Make(m.entries[j].1).value.ErrList?
    decreases |m.entries| - i
  {
    if i < |m.entries| {
      FieldsFromSome(m, i + 1);
    }
  }

  /** A list message builds when all its items do; a dict message when all
      its values build to list errors. */
  lemma MakeBuilds(m: Message)
    ensures m.Many? ==> (Make(m).Some? <==> forall j :: 0 <= j < |m.items| ==> Make(m.items[j]).Some?)
    ensures m.Fields? ==> (Make(m).Some? <==> forall j :: 0 <= j < |m.entries| ==>
      Make(m.entries[j].1).Some? && Make(m.entries[j].1).value.ErrList?)
  {
    if m.Many? {
      ListFromSome(m, 0);
    } else if m.Fields? {
      FieldsFromSome(m, 0);
    }
  }

  /** Each field maps to the leaves of its value. */
  lemma {:induction false} FieldsFromAt(m: Message, i: nat)
    requires m.Fields? && i <= |m.entries|
    requires FieldsFrom(m, i).Some?
    ensures forall j :: i <= j < |m.entries| ==>
      Make(m.entries[j].1).Some? && Make(m.entries[j].1).value.ErrList? &&
      FieldsFrom(m, i).value[j - i] == (m.entries[j].0, Make(m.entries[j].1).value.leaves)
    decreases |m.entries| - i
  {
    FieldsFromSome(m, i);
    if i < |m.entries| {
      FieldsFromAt(m, i + 1);
      var r := FieldsFrom(m, i).value;
      var rest := FieldsFrom(m, i + 1).value;
      assert r == [(m.entries[i].0, Make(m.entries[i].1).value.leaves)] + rest;
      forall j | i < j < |m.entries|
        ensures r[j - i] == (m.entries[j].0, Make(m.entries[j].1).value.leaves)
      {
        assert r[j - i] == rest[j - (i + 1)];
      }
    }
  }

  /** The constructor's view of an existing error: its dict of leaf lists,
      or its list of leaves. */
  function Unparse(e: ValidationError): Message {
    match e
    case ErrList(ls) => Many(LeafMessages(ls))
    case ErrDict(fs) => Fields(seq(|fs|, i requires 0 <= i < |fs| => (fs[i].0, Many(LeafMessages(fs[i].1)))))
  }

  function LeafMessages(ls: seq<Leaf>): (r: seq<Message>)
    ensures |r| == |ls|
    ensures forall i :: 0 <= i < |ls| ==> r[i] == Msg(ls[i].message, ls[i].code, ls[i].params)
  {
    seq(|ls|, i requires 0 <= i < |ls| => Msg(ls[i].message, ls[i].code, ls[i].params))
  }

  lemma {:induction false} LeafList(ls: seq<Leaf>, i: nat)
    requires i <= |ls|
    ensures ListFrom(Many(LeafMessages(ls)), i) == Some(ls[i..])
    decreases |ls| - i
  {
    if i < |ls| {
      LeafList(ls, i + 1);
      var m := Many(LeafMessages(ls));
      assert m.items[i] == Msg(ls[i].message, ls[i].code, ls[i].params);
      assert Make(m.items[i]) == Some(ErrList([ls[i]]));
      assert ls[i..] == [ls[i]] + ls[i + 1..];
    } else {
      assert ls[i..] == [];
    }
  }

  /** Passing an error's own structure back through the constructor
      rebuilds the same error: wrapping an error changes nothing. */
  lemma MakeUnparse(e: ValidationError)
    ensures Make(Unparse(e)) == Some(e)
  {
    match e
    case ErrList(ls) =>
      LeafList(ls, 0);
    case ErrDict(fs) =>
      var m := Unparse(e);
      forall j | 0 <= j < |fs| ensures Make(m.entries[j].1) == Some(ErrList(fs[j].1)) {
        LeafList(fs[j].1, 0);
      }
      var r := FieldsFrom(m, 0);
      FieldsFromSome(m, 0);
      FieldsFromAt(m, 0);
      assert r.value == fs;
  }

  /** A list error holds, in order, the leaves of each of its items. */
  lemma {:induction false} ManyAppend(ms: seq<Message>, last: Message, i: nat)
    requires i <= |ms|
    requires Make(Many(ms + [last])).Some?
    ensures ListFrom(Many(ms), i).Some? && Make(last).Some? && ListFrom(Many(ms + [last]), i).Some?
    ensures ListFrom(Many(ms + [last]), i).value == ListFrom(Many(ms), i).value + Flatten(Make(last).value)
    decreases |ms| - i
  {
    var both := Many(ms + [last]);
    assert both.items[|ms|] == last;
    assert forall j :: i <= j < |ms| ==> both.items[j] == ms[j];
    MakeBuilds(both);
    ListFromSome(both, i);
    ListFromSome(Many(ms), i);
    if i == |ms| {
      assert ListFrom(both, i + 1) == Some([]);
    } else {
      ManyAppend(ms, last, i + 1);
    }
  }

  /** A dict error maps each given field, in order, to the leaves of its
      value. */
  lemma FieldsShape(entries: Dict<string, Message>)
    requires Make(Fields(entries)).Some?
    ensures Keys(Make(Fields(entries)).value.fields) == Keys(entries)
    ensures forall j :: 0 <= j < |entries| ==>
      Make(entries[j].1).Some? && Make(entries[j].1).value.ErrList? &&
      Make(Fields(entries)).value.fields[j] == (entries[j].0, Make(entries[j].1).value.leaves)
  {
    var m := Fields(entries);
    MakeBuilds(m);
    FieldsFromAt(m, 0);
    var fs := Make(m).value.fields;
    assert fs == FieldsFrom(m, 0).value;
    forall j | 0 <= j < |entries| ensures Keys(fs)[j] == Keys(entries)[j] {
      assert fs[j].0 == entries[j].0;
    }
  }

  /** `e.update_error_dict(error_dict, prefix)`: a list error is appended
      under `prefix`, a dict error field by field under `prefix.field`. */
  function UpdateErrorDict(e: ValidationError, d: Dict<string, seq<Leaf>>, prefix: string): (r: Dict<string, seq<Leaf>>)
    ensures forall k :: HasKey(d, k) ==> HasKey(r, k) && Get(d, k).value <= Get(r, k).value
    ensures e.ErrList? ==> Get(r, prefix) == Some(Get(d, prefix).GetOr([]) + e.leaves)
    ensures e.ErrList? ==> forall k :: k != prefix ==> Get(r, k) == Get(d, k)
  {
    match e
    case ErrList(ls) => Extend(d, prefix, ls)
    case ErrDict(fs) => PrefixFields(fs, d, prefix)
  }

  /** `'%s.%s' % (prefix, field)` */
  function FieldKey(prefix: string, field: string): string {
    prefix + "." + field
  }

  /** Distinct fields get distinct keys under one prefix. */
  lemma FieldKeyDistinct(prefix: string, f: string, g: string)
    requires f != g
    ensures FieldKey(prefix, f) != FieldKey(prefix, g)
  {
    assert f == FieldKey(prefix, f)[|prefix| + 1..];
    assert g == FieldKey(prefix, g)[|prefix| + 1..];
  }

  function PrefixFields(fs: Dict<string, seq<Leaf>>, d: Dict<string, seq<Leaf>>, prefix: string): (r: Dict<string, seq<Leaf>>)
    ensures forall k :: HasKey(d, k) ==> HasKey(r, k) && Get(d, k).value <= Get(r, k).value
  {
    if fs == [] then d
    else PrefixFields(fs[1..], Extend(d, FieldKey(prefix, fs[0].0), fs[0].1), prefix)
  }

  /** Keys that are not `prefix.field` for any field are left alone. */
  lemma {:induction false} PrefixFieldsOthers(fs: Dict<string, seq<Leaf>>, d: Dict<string, seq<Leaf>>, prefix: string, k: string)
    requires forall j :: 0 <= j < |fs| ==> k != FieldKey(prefix, fs[j].0)
    ensures Get(PrefixFields(fs, d, prefix), k) == Get(d, k)
  {
    if fs != [] {
      assert k != FieldKey(prefix, fs[0].0);
      assert forall j :: 0 <= j < |fs[1..]| ==> fs[1..][j] == fs[j + 1];
      PrefixFieldsOthers(fs[1..], Extend(d, FieldKey(prefix, fs[0].0), fs[0].1), prefix, k);
    }
  }

  /** Every key `PrefixFields` adds is `prefix.field` for one of the
      fields. */
  lemma {:induction false} PrefixFieldsKeys(fs: Dict<string, seq<Leaf>>, d: Dict<string, seq<Leaf>>, prefix: string, k: string)
    requires HasKey(PrefixFields(fs, d, prefix), k) && !HasKey(d, k)
    ensures exists j :: 0 <= j < |fs| && k == FieldKey(prefix, fs[j].0)
  {
    var k0 := FieldKey(prefix, fs[0].0);
    var d' := Extend(d, k0, fs[0].1);
    if k != k0 {
      PrefixFieldsKeys(fs[1..], d', prefix, k);
      var j :| 0 <= j < |fs[1..]| && k == FieldKey(prefix, fs[1..][j].0);
      assert fs[1..][j] == fs[j + 1];
    }
  }

  /** With distinct fields, each `prefix.field` entry is extended by
      exactly that field's leaves. */
  lemma {:induction false} PrefixFieldsExact(fs: Dict<string, seq<Leaf>>, d: Dict<string, seq<Leaf>>, prefix: string, j: nat)
    requires UniqueKeys(fs) && j < |fs|
    ensures var k := FieldKey(prefix, fs[j].0);
      Get(PrefixFields(fs, d, prefix), k) == Some(Get(d, k).GetOr([]) + fs[j].1)
  {
    var k0 := FieldKey(prefix, fs[0].0);
    var d' := Extend(d, k0, fs[0].1);
    assert UniqueKeys(fs[1..]);
    if j == 0 {
      forall i | 0 <= i < |fs[1..]| ensures k0 != FieldKey(prefix, fs[1..][i].0) {
        assert fs[1..][i] == fs[i + 1];
        FieldKeyDistinct(prefix, fs[0].0, fs[i + 1].0);
      }
      PrefixFieldsOthers(fs[1..], d', prefix, k0);
    } else {
      PrefixFieldsExact(fs[1..], d', prefix, j - 1);
      FieldKeyDistinct(prefix, fs[j].0, fs[0].0);
    }
  }

  /** The number of leaves stored in an error dict. */
  function LeafCount(d: Dict<string, seq<Leaf>>): nat {
    if d == [] then 0 else |d[0].1| + LeafCount(d[1..])
  }

  lemma {:induction false} LeafCountPut(d: Dict<string, seq<Leaf>>, k: string, v: seq<Leaf>)
    ensures LeafCount(Put(d, k, v)) == LeafCount(d) - (if HasKey(d, k) then |Get(d, k).value| else 0) + |v|
  {
    if d != [] && d[0].0 != k {
      LeafCountPut(d[1..], k, v);
      assert Put(d, k, v)[1..] == Put(d[1..], k, v);
      assert Keys(d) == [d[0].0] + Keys(d[1..]);
    } else if d != [] {
      assert Put(d, k, v)[1..] == d[1..];
    }
  }

  /** No leaf is lost or duplicated: the dict gains exactly the error's
      leaves. */
  lemma UpdateErrorDictCount(e: ValidationError, d: Dict<string, seq<Leaf>>, prefix: string)
    ensures LeafCount(UpdateErrorDict(e, d, prefix)) == LeafCount(d) + |Flatten(e)|
  {
    match e
    case ErrList(ls) =>
      LeafCountPut(d, prefix, Get(d, prefix).GetOr([]) + ls);
    case ErrDict(fs) =>
      PrefixFieldsCount(fs, d, prefix);
      ValuesConcat(fs);
  }

  lemma {:induction false} PrefixFieldsCount(fs: Dict<string, seq<Leaf>>, d: Dict<string, seq<Leaf>>, prefix: string)
    ensures LeafCount(PrefixFields(fs, d, prefix)) == LeafCount(d) + LeafCount(fs)
  {
    if fs != [] {
      var k := FieldKey(prefix, fs[0].0);
      LeafCountPut(d, k, Get(d, k).GetOr([]) + fs[0].1);
      PrefixFieldsCount(fs[1..], Extend(d, k, fs[0].1), prefix);
    }
  }

  lemma {:induction false} ValuesConcat(fs: Dict<string, seq<Leaf>>)
    ensures |ConcatLeaves(Values(fs))| == LeafCount(fs)
  {
    if fs != [] {
      ValuesConcat(fs[1..]);
      assert Values(fs)[1..] == Values(fs[1..]);
    }
  }

  // Messages.

  /** `message % params` with a dict: `%(name)s` becomes `str(params[name])`
      and `%%` becomes `%`. `None` stands for the `KeyError` of a missing
      name; any other conversion (`%(name)d`, `%(name)r`, flags, widths) is
      not modelled and also yields `None`. */
  function Format(s: string, params: Dict<string, Value>): Option<string>
    decreases |s|, 1
  {
    if s == [] then Some([])
    else if s[0] != '%' then
      var t := Format(s[1..], params);
      if t.None? then None else Some([s[0]] + t.value)
    else Directive(s, params)
  }

  /** The conversion at the start of `s` and the rest of the text. */
  function Directive(s: string, params: Dict<string, Value>): Option<string>
    requires |s| > 0 && s[0] == '%'
    decreases |s|, 0
  {
    if |s| >= 2 && s[1] == '%' then
      var t := Format(s[2..], params);
      if t.None? then None else Some("%" + t.value)
    else if |s| >= 2 && s[1] == '(' then
      var k := Find(s[2..], ')');
      var rest := s[2 + k..];
      if k == |s[2..]| || |rest| < 2 || rest[1] != 's' then None
      else
        var v := Get(params, s[2..2 + k]);
        var t := Format(rest[2..], params);
        if v.None? || t.None? then None else Some(Render(v.value) + t.value)
    else None
  }

  /** Text without `%` is left as it is. */
  lemma {:induction false} FormatPlain(s: string, params: Dict<string, Value>)
    requires '%' !in s
    ensures Format(s, params) == Some(s)
  {
    if s != [] {
      FormatPlain(s[1..], params);
      assert [s[0]] + s[1..] == s;
    }
  }

  /** A named placeholder between plain texts is replaced by the text of
      its parameter. */
  lemma FormatNamed(pre: string, name: string, post: string, params: Dict<string, Value>)
    requires '%' !in pre && '%' !in post && ')' !in name
    requires HasKey(params, name)
    ensures Format(pre + "%(" + name + ")s" + post, params) == Some(pre + Render(Get(params, name).value) + post)
  {
    var t := "%(" + name + ")s" + post;
    var r := Render(Get(params, name).value);
    FormatPlaceholder(name, post, params);
    FormatPrefix(pre, t, r + post, params);
    Regroup(pre, "%(", name, ")s", post);
    Regroup3(pre, r, post);
  }

  /** Concatenation regrouped around its first operand. */
  lemma Regroup(a: string, b: string, c: string, d: string, e: string)
    ensures a + b + c + d + e == a + (b + c + d + e)
  {
  }

  lemma Regroup3(a: string, b: string, c: string)
    ensures a + (b + c) == a + b + c
  {
  }

  lemma FormatPlaceholder(name: string, post: string, params: Dict<string, Value>)
    requires '%' !in post && ')' !in name
    requires HasKey(params, name)
    ensures Format("%(" + name + ")s" + post, params) == Some(Render(Get(params, name).value) + post)
  {
    var u := ")s" + post;
    var t := "%(" + name + u;
    assert t == "%(" + name + ")s" + post;
    FormatPlain(post, params);
    assert t[2..] == name + u;
    FindPast(name, u, ')');
    var k := |name|;
    assert t[2 + k..] == u && t[2..2 + k] == name;
    assert u[1] == 's' && u[2..] == post;
    assert Directive(t, params) == Some(Render(Get(params, name).value) + post);
  }

  /** Text without `%` in front of a template passes through unchanged. */
  lemma {:induction false} FormatPrefix(pre: string, t: string, f: string, params: Dict<string, Value>)
    requires '%' !in pre
    requires Format(t, params) == Some(f)
    ensures Format(pre + t, params) == Some(pre + f)
  {
    if pre != [] {
      FormatPrefix(pre[1..], t, f, params);
      var s := pre + t;
      assert s[1..] == pre[1..] + t;
      assert s[0] == pre[0];
      assert [pre[0]] + (pre[1..] + f) == pre + f;
    } else {
      assert pre + t == t;
      assert pre + f == f;
    }
  }

  /** The text one leaf yields when iterated: its message, formatted with
      its params when it has any. */
  function LeafText(l: Leaf): Option<string> {
    if |l.params| > 0 then Format(l.message, l.params) else Some(l.message)
  }

  function LeafTexts(ls: seq<Leaf>): (r: Option<seq<string>>)
    ensures r.Some? ==> |r.value| == |ls|
    ensures r.Some? <==> forall i :: 0 <= i < |ls| ==> LeafText(ls[i]).Some?
    ensures r.Some? ==> forall i :: 0 <= i < |ls| ==> r.value[i] == LeafText(ls[i]).value
  {
    MapAll(ls, LeafText)
  }

  /** What iterating a dict error yields: each field with its formatted
      messages. */
  function FieldTexts(fs: Dict<string, seq<Leaf>>): (r: Option<Dict<string, seq<string>>>)
    ensures r.Some? ==> Keys(r.value) == Keys(fs)
  {
    if fs == [] then Some([])
    else
      match (LeafTexts(fs[0].1), FieldTexts(fs[1..]))
      case (Some(t), Some(rest)) => Some([(fs[0].0, t)] + rest)
      case _ => None
  }

  function ConcatTexts(tss: seq<seq<string>>): seq<string> {
    if tss == [] then [] else tss[0] + ConcatTexts(tss[1..])
  }

  /** `e.messages`: for a dict error the concatenated messages of its
      fields, for a list error its own formatted messages. */
  function Messages(e: ValidationError): Option<seq<string>> {
    match e
    case ErrList(ls) => LeafTexts(ls)
    case ErrDict(fs) =>
      (match FieldTexts(fs) case Some(d) => Some(ConcatTexts(Values(d))) case None => None)
  }

  lemma LeafTextsConcat(a: seq<Leaf>, b: seq<Leaf>)
    ensures LeafTexts(a + b).Some? <==> LeafTexts(a).Some? && LeafTexts(b).Some?
    ensures LeafTexts(a + b).Some? ==> LeafTexts(a + b).value == LeafTexts(a).value + LeafTexts(b).value
  {
    MapAllConcat(a, b, LeafText);
  }

  lemma {:induction false} FieldTextsFlatten(fs: Dict<string, seq<Leaf>>)
    ensures FieldTexts(fs).Some? ==>
      LeafTexts(ConcatLeaves(Values(fs))) == Some(ConcatTexts(Values(FieldTexts(fs).value)))
    ensures FieldTexts(fs).None? ==> LeafTexts(ConcatLeaves(Values(fs))).None?
  {
    if fs != [] {
      FieldTextsFlatten(fs[1..]);
      assert Values(fs)[1..] == Values(fs[1..]);
      LeafTextsConcat(fs[0].1, ConcatLeaves(Values(fs[1..])));
      if FieldTexts(fs).Some? {
        assert Values(FieldTexts(fs).value)[1..] == Values(FieldTexts(fs[1..]).value);
      }
    }
  }

  /** `messages` is the formatted text of every leaf, in order, whatever
      the shape of the error. */
  lemma MessagesFlatten(e: ValidationError)
    ensures Messages(e) == LeafTexts(Flatten(e))
  {
    if e.ErrDict? {
      FieldTextsFlatten(e.fields);
    }
  }

  // Scope and response errors.

  /** `ESIScopeRequired(missing_scopes)` */
  datatype ScopeRequired = ScopeRequired(missingScopes: seq<string>, message: string)

  /** A missing or empty list of scopes becomes `[]`; the message is the
      comma-space join of the scopes. */
  function MakeScopeRequired(missing: Option<seq<string>>): (e: ScopeRequired)
    ensures missing.None? ==> e.missingScopes == [] && e.message == ""
    ensures missing.Some? ==> e.missingScopes == missing.value
    ensures |e.message| == JoinedLength(e.missingScopes, 2)
  {
    var scopes := missing.GetOr([]);
    JoinLength(", ", scopes);
    ScopeRequired(scopes, Join(", ", scopes))
  }

  /** The length of the parts joined by a separator of length `w`. */
  function JoinedLength(parts: seq<string>, w: nat): nat {
    if parts == [] then 0
    else if |parts| == 1 then |parts[0]|
    else |parts[0]| + w + JoinedLength(parts[1..], w)
  }

  lemma {:induction false} JoinLength(sep: string, parts: seq<string>)
    ensures |Join(sep, parts)| == JoinedLength(parts, |sep|)
  {
    if |parts| > 1 {
      JoinLength(sep, parts[1..]);
    }
  }

  const RemainHeader: string := "X-Esi-Error-Limit-Remain"
  const ResetHeader: string := "X-Esi-Error-Limit-Reset"

  /** Header names match ignoring ASCII case. */
  predicate SameHeader(a: string, b: string) {
    Lower(a) == Lower(b)
  }

  /** `headers[name]` on the response's case-insensitive header mapping:
      the value of the first header whose name matches. */
  function HeaderValue(headers: Dict<string, string>, name: string): (r: Option<string>)
    ensures r.None? <==> forall i :: 0 <= i < |headers| ==> !SameHeader(headers[i].0, name)
    ensures r.Some? ==> exists i :: 0 <= i < |headers| && SameHeader(headers[i].0, name) && headers[i].1 == r.value &&
                          forall j :: 0 <= j < i ==> !SameHeader(headers[j].0, name)
  {
    if headers == [] then None
    else if SameHeader(headers[0].0, name) then Some(headers[0].1)
    else
      var r := HeaderValue(headers[1..], name);
      assert forall i :: 1 <= i < |headers| ==> headers[i] == headers[1..][i - 1];
      if r.Some? then
        var i :| 0 <= i < |headers[1..]| && SameHeader(headers[1..][i].0, name) && headers[1..][i].1 == r.value &&
                 forall j :: 0 <= j < i ==> !SameHeader(headers[1..][j].0, name);
        assert headers[i + 1] == headers[1..][i];
        r
      else r
  }

  /** `int(headers[name])`, or 1 when the header is missing or is not an
      integer. */
  function HeaderInt(headers: Dict<string, string>, name: string): (n: int)
    ensures HeaderValue(headers, name).None? ==> n == 1
    ensures HeaderValue(headers, name).Some? && ParseInt(HeaderValue(headers, name).value).None? ==> n == 1
    ensures HeaderValue(headers, name).Some? && ParseInt(HeaderValue(headers, name).value).Some? ==>
      n == ParseInt(HeaderValue(headers, name).value).value
  {
    match HeaderValue(headers, name)
    case None => 1
    case Some(s) => ParseInt(s).GetOr(1)
  }

  /** `ESIResponseError.error_limit_remain` */
  function ErrorLimitRemain(headers: Dict<string, string>): int {
    HeaderInt(headers, RemainHeader)
  }

  /** `ESIResponseError.error_limit_reset` */
  function ErrorLimitReset(headers: Dict<string, string>): int {
    HeaderInt(headers, ResetHeader)
  }

  /** A header holding a printed integer, added under any spelling of its
      name to headers that lack it, reads back as that integer. */
  lemma HeaderRoundTrip(headers: Dict<string, string>, name: string, spelled: string, n: int)
    requires SameHeader(spelled, name) && forall i :: 0 <= i < |headers| ==> !SameHeader(headers[i].0, name)
    ensures HeaderInt(headers + [(spelled, IntToString(n))], name) == n
  {
    ParseIntToString(n);
    var h := headers + [(spelled, IntToString(n))];
    var i :| 0 <= i < |h| && SameHeader(h[i].0, name) && h[i].1 == HeaderValue(h, name).value;
    assert i == |headers|;
  }

  /** Only the case-folded name matters: asking under any spelling finds
      the same header. */
  lemma {:induction false} HeaderIgnoresCase(headers: Dict<string, string>, name: string, spelled: string)
    requires SameHeader(spelled, name)
    ensures HeaderValue(headers, spelled) == HeaderValue(headers, name)
    ensures HeaderInt(headers, spelled) == HeaderInt(headers, name)
  {
    if headers != [] {
      HeaderIgnoresCase(headers[1..], name, spelled);
    }
  }
}
