/** Python values and schema nodes (`Describeable` and its roles `Item`,
    `Property`, `Schema` and `Parameter`), as the source manipulates them.

    A node keeps the attributes the engine computes with in typed form
    (kind, format, bounds, flags) and keeps the structural attributes
    (`items`, `properties`, `schema`, `default`, ...) as `Value`s, because
    the source lets them hold either a raw JSON fragment or a built node
    and behaves differently on each. */
module Nodes {
  import opened Wrappers
  import opened Text
  import opened Bytes
  import opened Dicts

  /** A Python value: JSON data, the native values conversion produces
      (bytes, dates), or a node. Dates are opaque stamps; the libraries that
      parse and print them are parameters of the conversion functions. */
  datatype Value =
    | VNone
    | VBool(b: bool)
    | VInt(i: int)
    | VFloat(f: real)
    | VDecimal(d: real)
    | VStr(s: string)
    | VBytes(bytes: seq<byte>)
    | VDate(day: int)
    | VDateTime(instant: int)
    | VList(elems: seq<Value>)
    | VDict(entries: Dict<string, Value>)
    | VNode(node: Node)

  /** The Python class of a node; it decides which attributes it accepts. */
  datatype Role = Plain | ItemRole | PropertyRole | SchemaRole | ParameterRole

  /** `_required`: a flag on a parameter or property, a list of property
      names on an object schema. A list keeps its length, which decides
      its truthiness even when some of its elements are not strings. */
  datatype Required = Flag(b: bool) | Names(names: seq<string>, size: nat)

  datatype Node = Node(
    role: Role,
    title: Value,
    kind: Option<string>,
    format: Option<string>,
    description: Value,
    isGlobal: bool,
    required: Required,
    properties: Value,
    items: Value,
    schema: Value,
    default: Value,
    minItems: Value,
    maxItems: Value,
    uniqueItems: bool,
    minimum: Value,
    maximum: Value,
    enum: Value,
    location: Option<string>,
    name: Option<string>)

  /** A node with every attribute at its class default. */
  function Blank(role: Role): (n: Node)
    ensures n.role == role && n.default == VNone && !n.isGlobal && n.required == Flag(false)
  {
    Node(role, VNone, None, None, VNone, false, Flag(false), VNone, VNone, VNone, VNone,
         VNone, VNone, false, VNone, VNone, VNone, None, None)
  }

  /** Python truthiness (`if v:`). */
  predicate Truthy(v: Value) {
    match v
    case VNone => false
    case VBool(b) => b
    case VInt(i) => i != 0
    case VFloat(f) => f != 0.0
    case VDecimal(d) => d != 0.0
    case VStr(s) => |s| > 0
    case VBytes(b) => |b| > 0
    case VList(l) => |l| > 0
    case VDict(d) => |d| > 0
    case _ => true
  }

  predicate TruthyStr(s: Option<string>) {
    s.Some? && |s.value| > 0
  }

  predicate RequiredTruthy(r: Required) {
    match r
    case Flag(b) => b
    case Names(_, size) => size > 0
  }

  /** The one behaviour of the type registry a node dispatches to. */
  datatype Kind = StringKind | IntegerKind | NumberKind | BooleanKind | ArrayKind | ObjectKind | SchemaKind

  /** The registry's keys, as declared kinds. */
  function KindName(k: Kind): string {
    match k
    case StringKind => "string"
    case IntegerKind => "integer"
    case NumberKind => "number"
    case BooleanKind => "boolean"
    case ArrayKind => "array"
    case ObjectKind => "object"
    case SchemaKind => "schema"
  }

  /** `internal_type`: the registry entry for the declared kind; any other
      or absent kind falls back to the object behaviour. */
  const RegistryNames: seq<string> := ["string", "integer", "number", "boolean", "array", "object", "schema"]

  function KindOf(n: Node): (k: Kind)
    ensures n.kind.Some? && n.kind.value in RegistryNames ==> KindName(k) == n.kind.value
    ensures !(n.kind.Some? && n.kind.value in RegistryNames) ==> k == ObjectKind
  {
    match n.kind
    case Some("string") => StringKind
    case Some("integer") => IntegerKind
    case Some("number") => NumberKind
    case Some("boolean") => BooleanKind
    case Some("array") => ArrayKind
    case Some("schema") => SchemaKind
    case _ => ObjectKind
  }

  /** Text shown for a value whose Python rendering the model does not
      reproduce: a float that is not integral or is too large to print
      positionally, a `Decimal`, a date, a date-time or a node. */
  const Unrendered: string := "<value>"

  /** `repr()` of a float: an integral float below 10^16 in magnitude
      prints positionally with `.0`; larger ones switch to exponent form. */
  function FloatText(f: real): string {
    if f == f.Floor as real && -1.0e16 < f < 1.0e16 then IntToString(f.Floor) + ".0" else Unrendered
  }

  /** `repr()` of a string: single quotes unless the text holds a single
      quote and no double quote; backslash and the chosen quote escaped,
      and so are control characters and the non-printable part of
      Latin-1 (`\n`, `\r`, `\t`, otherwise `\xhh`). */
  function ReprStr(s: string): string {
    var q := if '\'' in s && '"' !in s then '"' else '\'';
    [q] + EscapeFor(s, q) + [q]
  }

  /** A character `repr()` shows as `\xhh`. */
  predicate Unprintable(c: char) {
    c as int < 0x20 || 0x7F <= c as int <= 0xA0 || c as int == 0xAD
  }

  /** `\xhh` with lower-case hex digits. */
  function HexEscape(code: int): string
    requires 0 <= code < 256
  {
    "\\x" + ["0123456789abcdef"[code / 16], "0123456789abcdef"[code % 16]]
  }

  /** The escape of one character inside quotes `q`. */
  function Escape(c: char, q: char): string {
    if c == '\\' then "\\\\"
    else if c == '\n' then "\\n"
    else if c == '\r' then "\\r"
    else if c == '\t' then "\\t"
    else if c == q then ['\\', q]
    else if Unprintable(c) then HexEscape(c as int)
    else [c]
  }

  function EscapeFor(s: string, q: char): string {
    if s == [] then ""
    else Escape(s[0], q) + EscapeFor(s[1..], q)
  }

  /** `repr()` of bytes: `b` and the quoting of text, with every byte
      outside printable ASCII escaped. */
  function ReprBytes(b: seq<byte>): string {
    var q := if 0x27 in b && 0x22 !in b then '"' else '\'';
    "b" + [q] + EscapeBytes(b, q) + [q]
  }

  function EscapeBytes(b: seq<byte>, q: char): string {
    if b == [] then ""
    else (if b[0] >= 0x80 then HexEscape(b[0]) else Escape(b[0] as char, q)) + EscapeBytes(b[1..], q)
  }

  /** A character `repr()` shows as itself inside single quotes. */
  predicate ShownAsIs(c: char) {
    !Unprintable(c) && c != '\\' && c != '\''
  }

  /** Text of plain characters is shown as it is. */
  lemma {:induction false} EscapePlain(s: string)
    requires forall i :: 0 <= i < |s| ==> ShownAsIs(s[i])
    ensures EscapeFor(s, '\'') == s
  {
    if s != [] {
      EscapePlain(s[1..]);
    }
  }

  /** `repr()` of plain text is the text between single quotes, and so is
      `repr()` of the bytes of plain ASCII text, behind a `b`. */
  lemma {:induction false} ReprPlain(s: string, b: seq<byte>)
    requires forall i :: 0 <= i < |s| ==> ShownAsIs(s[i])
    requires forall i :: 0 <= i < |b| ==> b[i] < 0x80 && ShownAsIs(b[i] as char)
    ensures Repr(VStr(s)) == "'" + s + "'"
    ensures Repr(VBytes(b)) == "b'" + seq(|b|, i requires 0 <= i < |b| => b[i] as char) + "'"
  {
    EscapePlain(s);
    EscapeBytesPlain(b);
  }

  lemma {:induction false} EscapeBytesPlain(b: seq<byte>)
    requires forall i :: 0 <= i < |b| ==> b[i] < 0x80 && ShownAsIs(b[i] as char)
    ensures EscapeBytes(b, '\'') == seq(|b|, i requires 0 <= i < |b| => b[i] as char)
  {
    if b != [] {
      EscapeBytesPlain(b[1..]);
    }
  }

  /** A string holding a single quote and no double quote is shown between
      double quotes, unescaped; `str` shows it bare. */
  lemma ReprQuoteExample()
    ensures Repr(VStr("it's")) == "\"it's\""
    ensures Render(VStr("it's")) == "it's"
  {
    assert EscapeFor("s", '"') == "s";
    assert EscapeFor("'s", '"') == "'s";
    assert EscapeFor("t's", '"') == "t's";
  }

  /** Bytes outside printable ASCII are escaped: `b't\n\xff'`. */
  lemma ReprBytesExample()
    ensures Repr(VBytes([0x74, 0x0A, 0xFF])) == "b't\\n\\xff'"
  {
    assert HexEscape(0xFF) == "\\xff";
    assert EscapeBytes([0xFF], '\'') == "\\xff";
    assert EscapeBytes([0x0A, 0xFF], '\'') == "\\n\\xff";
  }

  /** The scalars `repr()` shows: `2.0`, `True`, `None`. */
  lemma ReprScalarExample()
    ensures Repr(VFloat(2.0)) == "2.0" && Repr(VBool(true)) == "True" && Repr(VNone) == "None"
  {
    assert (2.0).Floor == 2;
    assert IntToString(2) == "2";
  }

  /** `str(v)` */
  function Render(v: Value): string {
    match v
    case VStr(s) => s
    case _ => Repr(v)
  }

  /** `repr(v)` */
  function Repr(v: Value): string
    decreases v, 1
  {
    match v
    case VNone => "None"
    case VBool(b) => if b then "True" else "False"
    case VInt(i) => IntToString(i)
    case VFloat(f) => FloatText(f)
    case VDecimal(d) => Unrendered
    case VStr(s) => ReprStr(s)
    case VBytes(b) => ReprBytes(b)
    case VDate(_) => Unrendered
    case VDateTime(_) => Unrendered
    case VList(l) => "[" + ReprItems(v, 0) + "]"
    case VDict(d) => "{" + ReprItems(v, 0) + "}"
    case VNode(_) => Unrendered
  }

  /** The comma-separated elements of a list, or `key: value` pairs of a
      dict, from position `i` on. */
  function ReprItems(v: Value, i: nat): string
    requires v.VList? || v.VDict?
    decreases v, 0, (if v.VList? then |v.elems| else |v.entries|) - i
  {
    var n := if v.VList? then |v.elems| else |v.entries|;
    if i >= n then ""
    else
      var e := if v.VList? then Repr(v.elems[i]) else ReprStr(v.entries[i].0) + ": " + Repr(v.entries[i].1);
      if i + 1 == n then e else e + ", " + ReprItems(v, i + 1)
  }

  /** Nesting depth of raw JSON containers; a built node counts as a leaf,
      since construction never looks inside one. */
  function Depth(v: Value): nat
    decreases v, 1
  {
    match v
    case VList(_) => 1 + PartsDepth(v, 0)
    case VDict(_) => 1 + PartsDepth(v, 0)
    case _ => 0
  }

  function Size(v: Value): nat
    requires v.VList? || v.VDict?
  {
    if v.VList? then |v.elems| else |v.entries|
  }

  /** The deepest part of a container from position `i` on. */
  function PartsDepth(v: Value, i: nat): (r: nat)
    requires v.VList? || v.VDict?
    ensures v.VList? ==> forall j :: i <= j < |v.elems| ==> Depth(v.elems[j]) <= r
    ensures v.VDict? ==> forall j :: i <= j < |v.entries| ==> Depth(v.entries[j].1) <= r
    decreases v, 0, Size(v) - i
  {
    if i >= Size(v) then 0
    else
      var here := if v.VList? then Depth(v.elems[i]) else Depth(v.entries[i].1);
      var rest := PartsDepth(v, i + 1);
      if here < rest then rest else here
  }

  /** A container whose parts are all at most `b` deep has parts depth at
      most `b`. */
  lemma {:induction false} PartsDepthBound(v: Value, i: nat, b: nat)
    requires v.VDict?
    requires forall j :: i <= j < |v.entries| ==> Depth(v.entries[j].1) <= b
    ensures PartsDepth(v, i) <= b
    decreases Size(v) - i
  {
    if i < Size(v) {
      PartsDepthBound(v, i + 1, b);
    }
  }
}
