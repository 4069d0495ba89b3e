# esi-py spec engine in Dafny

This project models the core of esi-py, a Python client for the EVE Swagger
Interface (ESI). The core is the engine that reads a Swagger/OpenAPI 2.0
document and turns its operations into callable, validating functions:

- the type registry, with one `validate` / `to_python` / `from_python`
  behaviour per declared kind (`types.dfy`);
- schema nodes built from JSON fragments, with child nodes promoted to
  `Item`, `Property` and `Schema` nodes (`nodes.dfy`, `describeable.dfy`);
- the `ValidationError` tree that every composite validation accumulates
  into, the scope error and the error-limit headers (`errors.dfy`);
- parameters, their order and call signatures (`parameter.dfy`);
- operations, with their scopes, tags, descriptions, parameters and
  responses (`path.dfy`);
- binding call arguments into the request parts while collecting every
  validation error, and the scope check (`function.dfy`);
- the loaded document: the global tables, the operations keyed by
  operation id, the per-method index, and the left-biased merge of two
  documents (`loader.dfy`);
- the name-case helpers, `try_int` and the preset document names
  (`utils.dfy`);
- `do_indent` and the writer's check on document names (`writer.dfy`);
- the transport-independent half of a session: request preparation, the
  scope gate, default headers and the response decision (`sessions.dfy`).

Supporting modules restate what the Python runtime supplies:

- `wrappers.dfy` has `Option` and a few generic sequence lemmas;
- `text.dfy` has `str` operations: ASCII case mapping, `strip`, `split`,
  `splitlines`, `isdigit` and integer parsing;
- `dicts.dfy` has insertion-ordered dicts;
- `bytes.dfy` has UTF-8 encoding;
- `base64.dfy` has the codec of section 4 of RFC 4648.

Modelling choices:

- A Python `dict` is a sequence of (key, value) entries. Insertion order is
  observable in error reports, query strings and the first body value, so
  it is kept.
- A call that can raise returns `Option` or an `Outcome`. An `Outcome` is
  `Ok`, `Invalid(ValidationError)`, or `Crash` for any other exception:
  `TypeError`, `KeyError`, `AttributeError` and the like.
- JSON and Python values form one datatype, `Value`. Because the source
  mixes raw fragments and built nodes, `Value` includes `VNode`.
- The foreign libraries that conversion calls are fields of a `Natives`
  record passed as a parameter. These are the date parsers, `float()`,
  `datetime.fromtimestamp` and the date formatters.
- `esi/spec/schema.py` is not part of this model. A `Schema` is one more
  role of a node, alongside `Item`, `Property` and `Parameter`.
- The case conversions keep the source's names. `ToCamelCase`, like
  `to_camel_case`, produces snake_case; `ToSnakeCase` produces camelCase.

## Model

| member | source | states |
|---|---|---|
| Utils.SpecUrl | esi/utils.py:17 | the URL of a named spec is `https://esi.evetech.net/`, the name, then `/swagger.json`, and nothing else |
| Utils.IntOf | esi/utils.py:26-29 | `int(x)` keeps an integer, parses a string as a decimal literal (a bad literal is the `ValueError` case), and raises a `TypeError` on every value kind `int` does not accept |
| Utils.Truncate | esi/utils.py:27 | `int` of a float truncates toward zero: the result lies within one of the input, on the side of zero |
| Utils.TryInt | esi/utils.py:22-29 | `try_int` returns an integer unchanged, the parsed value of a numeric string, the default for a non-numeric string, and lets the `TypeError` of other values escape |
| Utils.TryIntToString | esi/utils.py:22-29 | an integer printed in decimal and read back by `try_int` is that integer |
| Utils.FirstCapsErase | esi/utils.py:32 | the `FIRST_CAPS` substitution only inserts underscores: with underscores erased its output equals its input |
| Utils.FirstCapsWord | esi/utils.py:32 | a character followed by a capitalised word gets an underscore between them, and the scan resumes after the word |
| Utils.FirstCapsNoUpper | esi/utils.py:32 | text with no upper-case letter has no match and is returned unchanged |
| Utils.AllCapsErase | esi/utils.py:33 | the `ALL_CAPS` substitution only inserts underscores: with underscores erased its output equals its input |
| Utils.AllCapsNoBoundary | esi/utils.py:33 | text with no lower-case letter or digit before an upper-case letter is returned unchanged |
| Utils.SpacedShape | esi/utils.py:37 | replacing `-` and space by `_` leaves neither behind and changes nothing once the separators are erased |
| Utils.CamelErase | esi/utils.py:36-39 | `to_camel_case` changes only underscores and case: with underscores erased its output is the lower-cased input with its separators erased |
| Utils.CamelAlphabet | esi/utils.py:36-39 | the output of `to_camel_case` holds no upper-case letter, no `-` and no space |
| Utils.CamelIdentity | esi/utils.py:36-39 | a name already in lower snake form, with no double underscore, is returned unchanged |
| Utils.ToCamelCase | esi/utils.py:36-39 | `to_camel_case`: characterised by `Utils.CamelErase` (only underscores and case change), `Utils.CamelAlphabet` (no upper case, `-` or space) and `Utils.CamelIdentity` (lower snake names are fixed) |
| Utils.CamelMinItems | esi/utils.py:36-39 | `minItems` becomes `min_items` |
| Utils.CamelDefault | esi/utils.py:36-39 | `_default` keeps its leading underscore |
| Utils.ToSnakeCaseShape | esi/utils.py:42-45 | `to_snake_case` keeps the input's letters and digits in order, up to case, and leaves no separator behind |
| Utils.ToSnakeCase | esi/utils.py:42-45 | `to_snake_case`: characterised by `Utils.ToSnakeCaseShape`, which keeps the letters and digits in order up to case and leaves no separator |
| Utils.DashedShape | esi/utils.py:48-52 | the dashed text has no space, has no `_` unless double underscores are allowed, and erases to the input under the separators |
| Utils.PascalLower | esi/utils.py:48-53 | lower-cased, `to_pascal_case` is the dashed text with its dashes removed |
| Utils.ToPascalCaseShape | esi/utils.py:48-53 | `to_pascal_case` keeps the input's letters and digits in order, up to case; it never emits `-` or a space, and emits `_` only when double underscores are allowed |
| Utils.PascalDoubleUnder | esi/utils.py:48-53 | with double underscores allowed, `get__x` becomes `Get_X` |
| Utils.ToPascalCase | esi/utils.py:48-53 | `to_pascal_case`: characterised by `Utils.PascalLower` (lower-cased it is the dashed text without dashes) and `Utils.ToPascalCaseShape` |
| Errors.Make | esi/exceptions.py:25-54 | the constructor turns a plain message into a one-leaf list error, takes an existing error over as it is, turns a list into a list error and a dict into a dict error with one field per entry |
| Errors.ListFromSome | esi/exceptions.py:41-49 | a list of messages builds exactly when every item builds |
| Errors.FieldsFromSome | esi/exceptions.py:35-40 | a dict of messages builds exactly when every value builds to a list error; a dict-shaped value has no `error_list` and raises |
| Errors.MakeBuilds | esi/exceptions.py:35-49 | both directions of when the constructor succeeds, for list and for dict messages |
| Errors.FieldsFromAt | esi/exceptions.py:36-40 | each field of a built dict error holds the `error_list` of its value |
| Errors.MakeUnparse | esi/exceptions.py:28-34 | wrapping an existing error rebuilds the same error |
| Errors.ManyAppend | esi/exceptions.py:43-49 | a list error holds, in order, the leaves of each item; a dict item contributes all of its values |
| Errors.FieldsShape | esi/exceptions.py:35-40 | a dict error keeps the given fields, in order, each mapped to the leaves of its value |
| Errors.UpdateErrorDict | esi/exceptions.py:62-68 | existing entries are kept and only extended; a list error is appended under the prefix and nothing else changes |
| Errors.FieldKeyDistinct | esi/exceptions.py:65 | distinct fields get distinct `prefix.field` keys |
| Errors.PrefixFieldsOthers | esi/exceptions.py:63-65 | keys that are not `prefix.field` for any field are left alone |
| Errors.PrefixFieldsKeys | esi/exceptions.py:63-65 | every key added is `prefix.field` for one of the fields |
| Errors.PrefixFieldsExact | esi/exceptions.py:63-65 | with distinct fields, each `prefix.field` entry is extended by exactly that field's leaves |
| Errors.UpdateErrorDictCount | esi/exceptions.py:62-68 | no leaf is lost or duplicated: the dict gains exactly the error's leaves |
| Errors.ValuesConcat | esi/exceptions.py:47 | the concatenated values of a dict error hold as many leaves as the dict |
| Errors.FormatPlain | esi/exceptions.py:77-78 | `%`-formatting text without `%` leaves it as it is |
| Errors.FormatNamed | esi/exceptions.py:77-78 | a `%(name)s` placeholder between plain texts is replaced by the text of that parameter |
| Errors.FormatPrefix | esi/exceptions.py:77-78 | text without `%` in front of a template passes through unchanged |
| Errors.Format | esi/exceptions.py:77-78 | `message %= params`: characterised by `Errors.FormatPlain`, `Errors.FormatNamed` and `Errors.FormatPrefix` |
| Errors.LeafTexts | esi/exceptions.py:75-79 | iterating a list error yields one text per leaf, in order, and fails exactly when one leaf's formatting fails |
| Errors.FieldTexts | esi/exceptions.py:71-73 | iterating a dict error yields the same fields, in order |
| Errors.LeafTextsConcat | esi/exceptions.py:75-79 | the texts of two leaf lists joined are the two lists of texts joined |
| Errors.FieldTextsFlatten | esi/exceptions.py:56-60 | formatting the fields one by one and concatenating equals formatting all the leaves at once |
| Errors.MessagesFlatten | esi/exceptions.py:56-60 | `messages` is the formatted text of every leaf, in order, whatever the shape of the error |
| Errors.Messages | esi/exceptions.py:56-60 | `messages`: characterised by `Errors.MessagesFlatten`, the formatted text of every leaf in order whatever the shape |
| Errors.MakeScopeRequired | esi/exceptions.py:94-96 | a missing scope list becomes empty, a given one is kept, and the message is the scopes joined by `, ` |
| Errors.JoinLength | esi/exceptions.py:96 | a joined text is as long as its parts plus one separator between each pair |
| Errors.HeaderInt | esi/exceptions.py:105-117 | an error-limit header is looked up ignoring the case of its name and read as an integer; a missing header or one that is not an integer reads as 1 |
| Errors.HeaderRoundTrip | esi/exceptions.py:105-117 | a printed integer added under any spelling of the header name, to headers that lack it, reads back as that integer |
| Errors.HeaderValue | esi/exceptions.py:108 | `headers[name]` on a case-insensitive mapping finds nothing exactly when no header name matches ignoring case, and otherwise the value of the first one that does |
| Errors.HeaderIgnoresCase | esi/exceptions.py:105-117 | asking under any spelling of a header name finds the same header and reads the same integer |
| Base64.SymValueOfSym | esi/spec/types.py:81 | every 6-bit value's alphabet character decodes back to that value |
| Base64.Encode | esi/spec/types.py:116 | `b64encode` yields four ASCII characters for every started group of three bytes |
| Base64.FirstGroup | esi/spec/types.py:81 | the first full group of an encoding decodes to the first three bytes, and the rest is the encoding of the remaining bytes |
| Base64.ShortCases | esi/spec/types.py:81 | one or two bytes, encoded with padding, decode back to themselves |
| Base64.DecodeEncode | esi/spec/types.py:81 | `b64decode(b64encode(b)) == b` for every byte string |
| Base64.Decode | esi/spec/types.py:81 | `b64decode`: characterised by `Base64.DecodeEncode`, which inverts `b64encode` on every byte string |
| Base64.EncodeTest | esi/spec/types.py:116 | `b'test'` encodes to `dGVzdA==` |
| Nodes.KindOf | esi/spec/describeable.py:90-93 | a declared kind among `string`, `integer`, `number`, `boolean`, `array`, `object` and `schema` selects its own behaviour; any other or absent kind falls back to `object` |
| Nodes.ReprPlain | esi/spec/parameter.py:64 | `repr` of text without quotes, backslashes or unprintable characters is the text between single quotes, and `repr` of such ASCII bytes is the same behind a `b` |
| Nodes.ReprQuoteExample | esi/spec/parameter.py:64 | text holding a single quote and no double quote is shown between double quotes, unescaped; `str` shows it bare |
| Nodes.ReprBytesExample | esi/spec/parameter.py:64 | bytes outside printable ASCII are escaped: `b't\\n\\xff'` |
| Nodes.ReprScalarExample | esi/spec/parameter.py:64 | `2.0`, `True` and `None` are shown as Python shows them |
| Nodes.Repr | esi/spec/parameter.py:64 | `repr`: characterised by `Nodes.ReprPlain` and the three `Nodes.Repr…Example` lemmas |
| Nodes.Render | esi/sessions/base.py:48-50 | `str`: a string is itself and anything else its `repr`, as `Nodes.ReprQuoteExample` shows |
| Types.CheckType | esi/spec/types.py:43-55 | the type check passes exactly for instances of the kind's valid Python types, a boolean counting as an `int`; otherwise it fails with a `typeerror` leaf, and it never raises anything else |
| Types.EffectiveMin | esi/spec/types.py:143-152 | without a format the lower bound is `minimum` as given; under `int32`/`int64` it is `minimum` or the negated boundary, whichever is larger, a number no smaller than either, and `max` raises exactly when a truthy `minimum` is not a number |
| Types.EffectiveMax | esi/spec/types.py:143-152 | without a format the upper bound is `maximum` as given; under `int32`/`int64` it is `maximum` or the boundary, whichever is smaller, a number no larger than either, and `min` raises exactly when a truthy `maximum` is not a number |
| Types.CheckRange | esi/spec/types.py:140-164 | a value of the wrong type fails the type check; a number raises exactly when a bound cannot be computed or compared, and otherwise passes exactly when it lies within the truthy bounds, failing with the range error that names both bounds as they are |
| Types.CheckBoolean | esi/spec/types.py:179-184 | a boolean check passes exactly for values equal to `True` or `False`, which includes 0 and 1 of every numeric type, and fails with the options error otherwise |
| Types.PyEq | esi/spec/function.py:29 | Python's `==` on values: `Types.PyEqReflexive` shows every value equal to itself and `Types.PyEqExamples` that `1 == 1.0 == True`, `0 == False` and equality inside lists and dicts hold while `'1' != 1` and `None != 0` |
| Types.PyEqReflexive | esi/spec/types.py:217 | every value equals itself under Python's `==`, so `[x, x]` is never distinct |
| Types.PyEqDict | esi/spec/types.py:217 | a dict whose values equal themselves equals itself: each key finds its own entry |
| Types.PyEqExamples | esi/spec/function.py:29 | `1 == 1.0`, `True == 1`, `0 == False`, `[1] == [True]` and `{'a': 1} == {'a': 1.0}` hold; `'1' == 1` and `None == 0` do not |
| Types.Distinct | esi/spec/types.py:217 | `len(set(value)) == len(value)`: no two elements are equal under Python's `==`; `Types.DuplicatesBeforeItems` shows `[1, 1]` fails it |
| Types.BoolLikeIsPyEq | esi/spec/types.py:180 | `value not in (True, False)` rejects exactly the values equal under `==` to neither boolean, which is what `Types.CheckBoolean` tests |
| Types.BooleanEquality | esi/spec/types.py:179-184 | `value not in (True, False)` lets 0, 1, 0.0, 1.0 and `Decimal(1)` through and stops 2 and `'True'` |
| Types.Validate | esi/spec/types.py:43-55 | every kind with a type check rejects a value that is not an instance of its valid types with the type error before looking further |
| Types.ValidateArray | esi/spec/types.py:199-230 | an array is checked for type, then raises when `min_items or minimum` or `max_items` cannot be compared with a length, then fails the length check, then uniqueness, and only then checks its items, whose errors are all collected under `[]` |
| Types.ItemErrors | esi/spec/types.py:222-228 | the item loop raises exactly when one item raises something other than a validation error; otherwise every invalid item's error is collected, and none are collected exactly when every item passes (the exact list is stated by `Types.ItemErrorsExact`) |
| Types.InvalidErrors | esi/spec/types.py:222-228 | the errors of the invalid outcomes from a position on: there are positions, increasing, covering exactly the invalid outcomes, whose errors they are in that order |
| Types.ErrorsAtCons | esi/spec/types.py:222-228 | one more outcome in front: an invalid one puts its position and error in front of the collected ones, any other leaves them as they are |
| Types.ErrorsAtFront | esi/spec/types.py:222-228 | an invalid outcome in front of the collected ones keeps the positions increasing, matched with their errors and covering every invalid outcome |
| Types.ItemErrorsStep | esi/spec/types.py:222-228 | one pass of the item loop puts the item's error, if it is invalid, in front of the errors collected after it |
| Types.ItemErrorsAreInvalidErrors | esi/spec/types.py:222-228 | the item loop collects the same list as `Types.InvalidErrors` over the items' outcomes |
| Types.ItemErrorsExact | esi/spec/types.py:222-228 | the item loop collects exactly the invalid items' errors: one per invalid item, none for a passing one, in item order |
| Types.Contains | esi/spec/types.py:260 | `name in value` works on dicts, lists and strings only, and on a dict tests for the key |
| Types.ProbeKey | esi/spec/types.py:260-261 | a property is absent exactly when `in` says no, and present exactly when the value is a dict holding the key, whose entry is then read |
| Types.ValidateObject | esi/spec/types.py:256-272 | an object check raises when the properties are not a dict or one property raises; otherwise it passes when nothing was filed and raises one dict error holding everything filed |
| Types.ObjectErrorsKeeps | esi/spec/types.py:259-270 | errors already filed stay filed: the loop only adds keys and only appends to their lists |
| Types.FileProperty | esi/spec/types.py:260-270 | one turn of the property loop raises exactly when the value cannot be probed, the property is not a node, its check raises, or it is missing while `required` is a flag |
| Types.FilePropertyKeeps | esi/spec/types.py:265-270 | one turn of the loop keeps every entry filed before and only extends it |
| Types.ObjectErrorsRaise | esi/spec/types.py:259-270 | the property loop raises exactly when one of the remaining properties raises |
| Types.ObjectErrors | esi/spec/types.py:259-270 | the property loop: characterised by `Types.ObjectErrorsRaise`, `Types.ObjectErrorsKeeps` and `Types.ObjectLeafCount` |
| Types.Cast | esi/spec/types.py:27-29 | a value already of the kind's Python type (a boolean counting as an `int`) is kept, and any converted value has that type; a string is `str` of the value, an integer is `int` of it, a number is `float` of a number, and a boolean is its truthiness |
| Types.Iterate | esi/spec/types.py:193 | iterating a list yields its elements; strings, dicts and bytes iterate too; anything else raises |
| Types.ConvertString | esi/spec/types.py:65-122 | a `byte` string is base64-encoded on the way out and decoded on the way in, raising on bad base64; under `date` and `date-time` a string is parsed on the way in and anything else raises; on the way out a datetime, a date, or an `int` (a boolean counting as one, read as a POSIX timestamp) becomes ISO date or RFC 3339 text, and any other value is left as it is; outside those formats the value goes through `str` |
| Types.Convert | esi/spec/types.py:279-285 | a schema reference delegates to its schema node and raises when it is not a node; integers, numbers and booleans go through their type's constructor |
| Types.ConvertItems | esi/spec/types.py:191-197 | a converted list has one element per input element, each the converted input at the same position, and converts whenever every element does |
| Types.ConvertObject | esi/spec/types.py:240-254 | an object converts only when its properties are a dict, into a dict with no more entries than declared properties |
| Types.ConvertEntries | esi/spec/types.py:240-254 | the comprehension from a position on adds at most one entry per remaining declared property |
| Types.EntryValue | esi/spec/types.py:243-253 | one declared property raises exactly when `name in value` raises, a loaded property is not a node, or it is emitted and its entry does not convert; an emitted property converts its entry, or, loading a missing one, its default; one that is not emitted gives nothing |
| Types.TypingName | esi/spec/types.py:57-58 | a typing annotation is never empty; an array's exists exactly when its item node's does; a schema reference takes its schema's |
| Types.Int32Range | esi/spec/types.py:146-164 | under `int32` with falsy bounds, 2^31-1 and -(2^31-1) pass while 2^31 and -2^31 fail with the range error naming the clipped bounds |
| Types.ZeroBoundsIgnored | esi/spec/types.py:150-156 | without a format, bounds that are absent or 0 are never checked |
| Types.FractionalMinimum | esi/spec/types.py:150-164 | a fractional `minimum` of 0.5 is compared as it is: a `number` of 0.2 fails naming 0.5 as its minimum, and 0.5 passes |
| Types.TextBoundRaises | esi/spec/types.py:150-156 | a truthy `maximum` that is not a number makes the comparison raise |
| Types.BoolIsInteger | esi/spec/types.py:140-164 | `True` is an `int`: an unbounded integer check accepts it, and a `minimum` of 2 rejects it as 1 |
| Types.NumberRejectsInt | esi/spec/types.py:167-172 | a `number` rejects a plain `int` on its type check |
| Types.DuplicatesBeforeItems | esi/spec/types.py:217-221 | with `uniqueItems`, `[1, 1]` fails on uniqueness before any item is looked at |
| Types.ArrayCollectsAll | esi/spec/types.py:222-230 | an array whose length fits and whose items do not raise passes exactly when every item passes, and otherwise raises one error holding the failing items' errors, exactly one per failing item, in item order |
| Types.ObjectLeafCount | esi/spec/types.py:259-270 | nothing short-circuits: the leaves filed are exactly those of every invalid property plus one per missing required one |
| Types.ObjectIgnoresExtra | esi/spec/types.py:259-270 | a key the object does not declare makes no difference to its check |
| Types.ObjectErrorsAgree | esi/spec/types.py:259-270 | two values that every property files alike get the same errors |
| Types.SchemaReference | esi/spec/types.py:279-291 | a node of kind `schema` validates, converts both ways and annotates exactly like the node it refers to |
| Types.ByteRoundTrip | esi/spec/types.py:78-116 | a `byte` string dumped to base64 text loads back to the same bytes |
| Types.ByteExample | esi/spec/types.py:78-116 | `b'test'` is sent as `dGVzdA==` and read back |
| Types.BoolTimestamp | esi/spec/types.py:100-112 | `True` passes the `date-time` type check as an `int` and is sent as the instant of timestamp 1; `False` under `date` is sent as the date of timestamp 0 |
| Types.DateTimeRoundTrip | esi/spec/types.py:107-109 | a datetime is sent as its RFC 3339 text and read back from it whenever the parser inverts the formatter |
| Types.ItemsRoundTrip | esi/spec/types.py:191-197 | items that round-trip one by one make the list round-trip |
| Types.ArrayRoundTrip | esi/spec/types.py:191-197 | when the item node round-trips every element, the whole list round-trips, length and order kept |
| Types.ObjectExample | esi/spec/types.py:240-254 | a declared integer property converts both ways unchanged |
| Types.BackFillOnlyOnLoad | esi/spec/types.py:240-254 | loading fills a missing property from its truthy default; dumping does not, and both drop undeclared keys |
| Dicts.GatherRaises | esi/spec/types.py:240-254 | a comprehension whose steps may raise raises exactly when one step does |
| Dicts.GatherKeeps | esi/spec/types.py:240-254 | over distinct keys, the comprehension appends the kept keys in order, each mapped to its own step's value, and keeps what it had |
| Dicts.SameDict | esi/spec/types.py:240-254 | two dicts with unique keys, the same keys in the same order and the same lookups are equal |
| Types.ConvertEntriesGather | esi/spec/types.py:240-254 | the object comprehension is the fold of its per-property steps over the declared properties |
| Types.KeptEmitted | esi/spec/types.py:240-254 | when no step raises, the properties the comprehension keeps are the emitted ones: present in the value, or, loading, with a truthy default |
| Types.ObjectGather | esi/spec/types.py:240-254 | an object converts to the fold of its steps over the declared properties |
| Types.ObjectRaises | esi/spec/types.py:240-254 | converting an object raises exactly when handling one declared property raises |
| Types.ObjectKeys | esi/spec/types.py:240-254 | the converted object's keys are the emitted property names, in declaration order |
| Types.ObjectValues | esi/spec/types.py:240-254 | each emitted property maps to the conversion of its entry, or, loading a missing one, of its default |
| Types.EmittedNamesIn | esi/spec/types.py:244-253 | an emitted name is a declared property whose entry is present, or, loading, whose default is truthy |
| Types.EmittedNamesAgree | esi/spec/types.py:244-253 | properties emitted alike give the same emitted names |
| Types.ObjectRoundTrip | esi/spec/types.py:240-254 | an object holding only declared properties and its wire form convert into each other: dumping gives the wire form and loading it gives the object back, when each entry round-trips and absent properties have no truthy default |
| Types.ObjectDumps | esi/spec/types.py:248-254 | dumping such an object gives its wire form |
| Types.ObjectLoads | esi/spec/types.py:240-246 | loading such a wire form gives the object back |
| Describeable.AttrOf | esi/spec/describeable.py:41-57 | only `_is_global` names the global flag |
| Describeable.AsRequired | esi/spec/describeable.py:73-75 | the stored `required` is truthy exactly when the value given is, and a list's names are exactly its string elements |
| Describeable.Strings | esi/spec/types.py:266 | a name is among a list's strings exactly when the list holds it as a string |
| Describeable.SetAttr | esi/spec/describeable.py:73-75 | `setattr` changes only the attribute it names and keeps the role; bounds, title, description, default, enum and the structural attributes are stored exactly as given |
| Describeable.Clear | esi/spec/describeable.py:41-58 | resetting one attribute to its class default: the frame `Describeable.SetAttr` is stated with |
| Describeable.SetAttrs | esi/spec/describeable.py:73-75 | storing the keywords keeps the role, takes every structural attribute from the keywords or the class default, and touches the global flag only when `_is_global` is passed |
| Describeable.SetAttrsKnown | esi/spec/describeable.py:73-75 | keywords the class has no attribute for have no effect at all |
| Describeable.KnownPut | esi/spec/describeable.py:74 | adding or overwriting an unknown keyword leaves the known keywords as they were |
| Describeable.Renamed | esi/spec/describeable.py:66-69 | renaming keys to `_snake` keywords keeps only values of the fragment |
| Describeable.RenamedLast | esi/spec/describeable.py:66-69 | when two keys rename to the same keyword, the last one decides its value |
| Describeable.SetAttrsDepth | esi/spec/describeable.py:73-75 | storing keywords never makes a node deeper than its keywords |
| Describeable.FromJsonDepth | esi/spec/describeable.py:65-69 | the keywords `from_json` passes are no deeper than the fragment |
| Describeable.FromJson | esi/spec/describeable.py:65-69 | `from_json` raises on a non-dict and on a key that renames to `_is_global` (a keyword given twice); a node it builds has the class's role and the given global flag |
| Describeable.GlobalFirst | esi/spec/describeable.py:66 | the `_is_global` keyword passed first sets the global flag when no later key renames to it |
| Describeable.Init | esi/spec/describeable.py:71-88 | the constructor keeps the class's role and the global flag the keywords set |
| Describeable.Promote | esi/spec/describeable.py:77-88 | promotion changes only `items`, `properties`, `schema` and the type; raw `items` become an `Item` and leave `properties` alone; otherwise truthy `properties` become a `PropDict` of `Property` nodes; a typeless node with a schema gets a `Schema` node and the type `schema`; each raises on a non-dict fragment |
| Describeable.PromoteItems | esi/spec/describeable.py:77-79 | only a truthy `items` that is not a node is built, into an `Item`; a non-dict fragment raises |
| Describeable.PromoteProperties | esi/spec/describeable.py:80-84 | the `elif` skips `properties` when `items` was promoted or when they are falsy; otherwise each raw entry is promoted and nodes are kept |
| Describeable.PromoteSchema | esi/spec/describeable.py:85-88 | only a node without a type promotes its schema, and a schema that already is a node is kept |
| Describeable.PromoteEntries | esi/spec/describeable.py:81-84 | the `PropDict` keeps the keys in order, keeps built nodes and promotes every raw value to a `Property` |
| Describeable.PromoteSettles | esi/spec/describeable.py:77-88 | building again from a built node changes nothing, unless raw `items` and raw `properties` were given together |
| Describeable.PromoteEntriesNodes | esi/spec/describeable.py:81-84 | entries that are already nodes come back unchanged |
| Describeable.PromoteTwice | esi/spec/describeable.py:77-84 | a node given raw `items` and raw `properties` keeps the properties raw, and a second construction changes it |
| Describeable.FirstPass | esi/spec/describeable.py:77-80 | with raw `items` and raw `properties`, the first pass builds only the `Item` |
| Describeable.SecondPass | esi/spec/describeable.py:80-84 | the second pass promotes the properties the first pass left raw |
| Describeable.FromJsonSingle | esi/spec/describeable.py:65-69 | a one-key fragment builds what the global flag and its one renamed keyword build |
| Describeable.TitleItem | esi/spec/describeable.py:65-75 | a fragment holding only a title builds a node with only that title |
| Describeable.FromJsonDropsUnknown | esi/spec/describeable.py:65-75 | adding a key the class has no attribute for builds the same node |
| Describeable.RenamedSnoc | esi/spec/describeable.py:66-69 | one more key in the fragment puts its renamed keyword |
| Describeable.FromJsonMinItems | esi/spec/describeable.py:65-75 | `minItems` is stored as `_min_items` |
| Describeable.SchemasAgree | esi/spec/describeable.py:65-88 | a prebuilt `Item`, a partial dict and a whole JSON fragment give the same schema tree |
| Describeable.PartialSchema | esi/spec/describeable.py:77-79 | a raw `items` fragment passed to a schema is built into the same `Item` `from_json` builds |
| Describeable.PromoteRawItems | esi/spec/describeable.py:77-79 | a blank node given a raw `items` fragment holds the built `Item` |
| Describeable.JsonSchema | esi/spec/describeable.py:65-69 | `from_json` with an `items` key builds what the constructor builds from `_items` |
| Describeable.InitOne | esi/spec/describeable.py:71-88 | a single known keyword is stored on an otherwise blank node, which is then promoted |
| Parameters.SafeName | esi/spec/parameter.py:19-21 | a named parameter's safe name holds no upper-case letter, `-` or space; an unnamed one raises |
| Parameters.SameEquivalence | esi/spec/parameter.py:43-44 | `__eq__` is reflexive, symmetric and transitive, and ignores the default, the kind and `required` |
| Parameters.Less | esi/spec/parameter.py:46-51 | a parameter without a default sorts before one with a default, and any two orderable parameters compare without raising |
| Parameters.LessOrder | esi/spec/parameter.py:46-51 | the order is: no default first, then required first, then names ascending |
| Parameters.LessIrreflexive | esi/spec/parameter.py:46-51 | no parameter sorts before itself |
| Parameters.LessTransitive | esi/spec/parameter.py:46-51 | the order is transitive |
| Parameters.LessTotal | esi/spec/parameter.py:46-51 | orderable parameters that neither sort before the other agree on default, `required` and name |
| Parameters.LessAsymmetric | esi/spec/parameter.py:46-51 | no two parameters sort before each other |
| Parameters.NamelessPair | esi/spec/path.py:56-58 | a nameless parameter with a default sorts after one without a default, in either starting order, since the comparison is decided before names are read |
| Parameters.Insert | esi/spec/parameter.py:46-51 | inserting adds exactly the new element |
| Parameters.InsertSorted | esi/spec/parameter.py:46-51 | inserting into a sorted sequence keeps it sorted |
| Parameters.Sort | esi/spec/parameter.py:46-51 | sorting returns a sorted permutation of its input |
| Parameters.OrderedParameters | esi/spec/path.py:56-58 | `sorted(parameters)` succeeds when every parameter is orderable and is then a sorted permutation of them; for two parameters it raises exactly when comparing the second with the first raises, and swaps them exactly when the second sorts first |
| Parameters.CallSignature | esi/spec/parameter.py:53-66 | the signature starts with the safe name; with no type and no default, and required, it is just the name; it exists exactly when the safe name and the typing name do |
| Parameters.SignatureParts | esi/spec/parameter.py:53-66 | a typed signature is the name, `: ` and the typing name, then ` = ` and the default's repr (or `None`) when there is a default or the parameter is not required |
| Parameters.SignatureReadsBack | esi/spec/parameter.py:53-66 | cutting a signature at its first `=` and its first `:` gives back the safe name, the typing name exactly when a type is declared, and the default's `repr` (or `None`) exactly when there is a default or the parameter is optional |
| Parameters.ReadParts | esi/spec/parameter.py:63-66 | a name, an optional annotation and an optional default joined by `: ` and ` = ` read back into those parts |
| Parameters.PlainName | esi/spec/parameter.py:19-21 | a lower-case name is its own safe name |
| Parameters.SignatureObject | esi/spec/parameter.py:53-66 | an optional `object` parameter named `object` without default signs as `object: typing.Dict[str, typing.Any] = None` |
| Parameters.SignatureDefault | esi/spec/parameter.py:53-66 | an optional integer `_default` with default 1 signs as `_default: int = 1` |
| Parameters.SignatureRequiredList | esi/spec/parameter.py:53-66 | an integer `_default` without a default whose `required` is the list `[1]` counts as required and signs as `_default: int` |
| Paths.NewPath | esi/spec/path.py:7-15 | a path is built exactly when its parameters and its responses load, and keeps the URL, method and data it was given |
| Paths.GetOr | esi/spec/path.py:23 | `data.get(key, default)` reads a present key and falls back to the default otherwise |
| Paths.Tags | esi/spec/path.py:21-23 | `tags` is the declared value, or `[]` when there is none |
| Paths.Scopes | esi/spec/path.py:25-30 | with no truthy `security` the scopes are `[]`; otherwise they are the `evesso` list of the first requirement, `[]` without one; a `security` that is not a list, or a first requirement that is not an object, raises |
| Paths.ScopesFirstOnly | esi/spec/path.py:25-30 | only the first security requirement is consulted |
| Paths.FunctionName | esi/spec/path.py:36-38 | the function name exists exactly for a string operation id; it holds no `-` or space, and, ignoring case and `_`, it is the id with its separators removed |
| Paths.Description | esi/spec/path.py:44-46 | the description exists when the text is a string (empty when absent); it is a prefix of the text, does not end in whitespace, and only whitespace and dashes were removed |
| Paths.DescriptionExample | esi/spec/path.py:44-46 | the strips run once each: `a - -` loses only its final dash |
| Paths.AsParameter | esi/spec/path.py:66-67 | a built `Parameter` is kept as it is; anything else is built into a `Parameter` |
| Paths.LoadParameters | esi/spec/path.py:64-68 | one parameter per element of `parameters`, in document order, and loading succeeds whenever every element does |
| Paths.AsSchema | esi/spec/path.py:76-78 | a built schema node is kept; anything else is built into one |
| Paths.LoadResponses | esi/spec/path.py:70-79 | the response codes are exactly the keys that parse as integers, each once; `Paths.ResponsesRaise` and `Paths.ResponsesLoaded` state when it raises and what each code maps to |
| Paths.ResponseSchema | esi/spec/path.py:76-78 | a response's schema is its `schema` entry, built unless already a schema node, or an empty schema when the entry is absent; data that is not a dict raises |
| Paths.ResponsesRaise | esi/spec/path.py:70-79 | loading raises exactly when `responses` is not a dict or some response whose code parses as an integer has no buildable schema |
| Paths.ResponsesLoaded | esi/spec/path.py:70-79 | each integer code maps to the schema of the last response with that code |
| Paths.ResponseWithoutSchema | esi/spec/path.py:76-79 | a response given without a schema is loaded as an empty schema node under its code |
| Dicts.Tabulate | esi/spec/path.py:71-79 | the loop keeps the codes it had and adds exactly the integer-parsable ones, each once |
| Dicts.TabulateRaises | esi/spec/path.py:71-79 | the loop raises exactly when building one coded entry's value does |
| Dicts.TabulateKeeps | esi/spec/path.py:79 | a code no later entry carries keeps its value |
| Dicts.TabulateValues | esi/spec/path.py:71-79 | every code ends up with the value of the last entry carrying it |
| Paths.EmptySchema | esi/spec/path.py:76-78 | a response without a schema gets an empty schema node |
| Paths.OrderedResponses | esi/spec/path.py:60-62 | `ordered_responses` is a permutation of the responses sorted by status code |
| Paths.InsertCode | esi/spec/path.py:60-62 | inserting a response adds exactly that response |
| Paths.InsertCodeSorted | esi/spec/path.py:60-62 | inserting into sorted responses keeps them sorted |
| Paths.OrderedResponsesStrict | esi/spec/path.py:60-62 | sorting keeps the status codes distinct |
| Functions.Slot | esi/spec/function.py:18-24 | exactly the locations `body`, `header`, `headers`, `path` and `query` have a dict, and `header` shares the dict of `headers` |
| Functions.Bucket | esi/spec/function.py:18-24 | `data[part]` exists exactly for a location that has a dict |
| Functions.HeaderAlias | esi/spec/function.py:24 | storing under `header` and under `headers` gives the same dicts, and the value shows up under `headers` |
| Functions.Store | esi/spec/function.py:35 | `data[part][name] = value` fails exactly for a location without a dict, writes the name into that location's dict and leaves the other dicts alone |
| Functions.Bind | esi/spec/function.py:28-35 | one loop turn raises on an unnamed parameter, a missing keyword, or, for an argument that differs from the default under Python's `==`, a location without a dict or an exception other than `ValidationError`; otherwise it pops the keyword, skips an argument equal to the default (so `1` for a default `1.0` or `0` for `False`), and else stores the argument and files its validation errors under the safe name |
| Functions.Call | esi/spec/function.py:17-37 | a `ValidationError` is raised only when validation was not skipped, and it carries a non-empty error dict; `Functions.CallOutcome` states exactly when it is raised and what is stored |
| Functions.UpdateNonEmpty | esi/spec/function.py:33-36 | after `update_error_dict` the error dict is non-empty exactly when it was before or the error leaves an entry |
| Functions.BindErrors | esi/spec/function.py:28-35 | one turn ends with errors exactly when it started with some or rejects its argument, an argument equal to the default under Python's `==` never being rejected |
| Functions.BindStep | esi/spec/function.py:27-35 | in a well-formed call every turn succeeds and leaves the later arguments in place |
| Functions.BindFromErrors | esi/spec/function.py:27-36 | a well-formed loop finishes, and ends with errors exactly when it started with some or some remaining argument, differing from its default under Python's `==`, is rejected |
| Functions.BindKeeps | esi/spec/function.py:35 | one turn keeps what was stored under another name |
| Functions.BindFromKeeps | esi/spec/function.py:27-35 | the loop keeps what was stored under a name none of its remaining parameters has |
| Functions.BindFromStores | esi/spec/function.py:27-35 | the loop stores every argument that differs from its default under Python's `==` under the parameter's name in its part, even when it is invalid |
| Functions.CallOutcome | esi/spec/function.py:17-37 | a well-formed call raises nothing but a `ValidationError`; it raises one exactly when validation is not skipped and some argument that differs from its default under Python's `==` is rejected; otherwise every such argument is stored in its part |
| Functions.DefaultSkipped | esi/spec/function.py:28-30 | an argument equal to its parameter's default under Python's `==` is neither validated nor stored, so the call succeeds with empty parts |
| Functions.DefaultComparedByValue | esi/spec/function.py:29 | `1` given for a default `1.0`, and `0` given for a default `False`, count as the default |
| Functions.ValidateScopes | esi/spec/function.py:49-55 | an operation without scopes is always allowed; otherwise all its scopes must be active, and no active list allows nothing |
| Functions.AllActive | esi/spec/function.py:55 | `all(x in active for x in scopes)` holds exactly when every remaining scope is active |
| Functions.ScopesMonotone | esi/spec/function.py:49-55 | granting more scopes never withdraws access |
| Loader.Index | esi/spec/loader.py:73 | `paths_per_method.setdefault(m, {})[k] = p` makes `(m, k)` find `p` and leaves every other pair as it was |
| Loader.AddPath | esi/spec/loader.py:72-73 | storing an operation sets its id and no other, and leaves the document and the global tables alone |
| Loader.AddPathConsistent | esi/spec/loader.py:72-73 | storing an operation keeps every operation indexed under its own method |
| Loader.AddPathIndexed | esi/spec/loader.py:72-73 | the per-method index stays exact when the id is new or was used under the same method |
| Loader.AddPathStale | esi/spec/loader.py:72-73 | reusing an id under another method leaves a stale entry under the old method |
| Loader.MethodOps | esi/spec/loader.py:70-71 | one operation per method of a URL, in document order, carrying that URL, method and data |
| Loader.Operations | esi/spec/loader.py:69-71 | every `(url, method, data)` of `paths`, in document order: characterised by `Loader.MethodOps` per URL |
| Loader.OpId | esi/spec/loader.py:72 | `path.operation_id`: the string `operationId`; `Loader.Built` requires it |
| Loader.Built | esi/spec/loader.py:71-72 | an operation builds exactly when it has a string operation id and its `Path` loads |
| Loader.BuildAll | esi/spec/loader.py:69-72 | all operations build, in order, exactly when each one does |
| Loader.AddAll | esi/spec/loader.py:69-73 | storing the operations leaves the document and the global tables alone |
| Loader.AddAllKeys | esi/spec/loader.py:69-73 | after storing, the ids known are those known before plus the ids met |
| Loader.AddAllConsistent | esi/spec/loader.py:69-73 | storing the operations keeps every operation indexed under its own method |
| Loader.AddAllIndexed | esi/spec/loader.py:69-73 | with distinct new ids the per-method index stays exact |
| Loader.AddAllLast | esi/spec/loader.py:69-73 | an id ends up with the last operation stored under it |
| Loader.StaleIndex | esi/spec/loader.py:69-73 | an id that two operations share under different methods leaves the index inexact |
| Loader.GlobalTable | esi/spec/loader.py:57-66 | a global table builds exactly when each entry does, keeps the keys and their order, and every node is global and of the table's role |
| Loader.WrittenBack | esi/spec/loader.py:61 | the raw table afterwards holds the very nodes of the global table under the same keys |
| Loader.LoadGlobals | esi/spec/loader.py:57-66 | both global tables are built from `definitions` and `parameters` (empty when absent) as global nodes, the document's tables are rewritten to those nodes, and every other key is untouched |
| Loader.NewSpec | esi/spec/loader.py:16-28 | a loaded document has its globals loaded first and every operation indexed under its own method |
| Loader.NewSpecIndexed | esi/spec/loader.py:16-28 | with distinct operation ids the per-method index of a loaded document is exact |
| Loader.NewSpecBuilt | esi/spec/loader.py:16-28 | a loaded document is its globals with every built operation stored in document order |
| Loader.AddMissing | esi/spec/loader.py:31-40 | the merge keeps every entry of the left table and knows exactly the keys of either table |
| Loader.AddMissingValues | esi/spec/loader.py:31-40 | a key the left table lacks takes the right table's value |
| Loader.AddMissingPresent | esi/spec/loader.py:31-40 | merging only keys already present changes nothing |
| Loader.CombineDefs | esi/spec/loader.py:30-40 | `combine_defs` merges both global tables and touches nothing else |
| Loader.NewEntries | esi/spec/loader.py:43-47 | the right document's operations whose ids the left lacks: all of them and nothing else |
| Loader.CombineFunctions | esi/spec/loader.py:42-50 | `combine_functions` stores the new operations and keeps every operation already known |
| Loader.AddAllKeeps | esi/spec/loader.py:48-50 | storing operations with new ids keeps the operations already known |
| Loader.IAdd | esi/spec/loader.py:52-55 | `+=` keeps the left document, its operations and its global entries |
| Loader.IAddPaths | esi/spec/loader.py:52-55 | after `+=` every id of the right document is known |
| Loader.IAddTakes | esi/spec/loader.py:42-55 | with distinct ids on the right, an id the left document lacks takes the right document's operation |
| Loader.IAddIndexed | esi/spec/loader.py:52-55 | `+=` keeps the per-method index exact |
| Loader.IAddIdempotent | esi/spec/loader.py:52-55 | adding the same document twice is adding it once |
| Loader.IAddShape | esi/spec/loader.py:52-55 | `+=` is `combine_defs` followed by `combine_functions` |
| Loader.Host | esi/spec/loader.py:75-77 | `host` is the document's value, `None` when absent |
| Loader.InfoGet | esi/spec/loader.py:79-89 | a field of `info` is its value there, or the given default when absent; it raises when `info` is not an object, and a missing `info` counts as `{}` |
| Loader.BasePath | esi/spec/loader.py:95-97 | `base_path` is the document's value, `/` when absent |
| Loader.Schemes | esi/spec/loader.py:99-101 | `schemes` is the document's value, `["https"]` when absent |
| Loader.Sso | esi/spec/loader.py:103-105 | `sso` is the `evesso` definition, `{}` when it or the security definitions are absent, and raises when the security definitions are not an object |
| Loader.EmptyDocumentDefaults | esi/spec/loader.py:75-105 | a document with no top-level keys has host `None`, base path `/`, schemes `["https"]`, description `''`, title `EVE Swagger Interface` and `sso` `{}` |
| Loader.FromSpec | esi/spec/loader.py:113-117 | only a preset name is fetched, from that preset's URL; any other name raises `InvalidSpecError` naming it |
| Loader.SpecUrlInjective | esi/spec/loader.py:117 | different preset names fetch different documents |
| Writer.Spaces | esi/spec/writer.py:36 | the indentation is `width` spaces, and nothing for a negative width |
| Writer.IndentAll | esi/spec/writer.py:39 | every line is put behind the indentation, in order |
| Writer.Marked | esi/spec/writer.py:44-47 | without `blank`, a later line is indented exactly when it is not empty |
| Writer.Expected | esi/spec/writer.py:38-50 | the intended output lines: one per input line, each behind its prefix |
| Writer.JoinIndented | esi/spec/writer.py:39 | joining with a line break plus indentation is the same as indenting every later line and joining with line breaks |
| Writer.ReassembleJoin | esi/spec/writer.py:38-50 | the joining step yields the input's lines, each behind its prefix, joined by line breaks |
| Writer.ReassembleBlank | esi/spec/writer.py:38-39 | with `blank`, every later line is indented |
| Writer.ReassembleMarked | esi/spec/writer.py:40-47 | without `blank`, the first line is popped and the non-empty later lines are indented |
| Writer.MarkedExpected | esi/spec/writer.py:41-47 | the popped first line followed by the marked later lines are the expected lines |
| Writer.DoIndentSplit | esi/spec/writer.py:17-52 | cutting the output at its line breaks gives the input's lines, each behind its prefix |
| Writer.DoIndentLines | esi/spec/writer.py:17-52 | one output line per input line; the first is indented exactly when `first` (or `indentfirst`, which wins) asks for it, a later one when it is non-empty or `blank` is set |
| Writer.LinesJoin | esi/spec/writer.py:35 | for text whose only line boundary is `\n`, the added line break makes `splitlines` give lines that join back to the text |
| Writer.SplitLinesNewline | esi/spec/writer.py:35 | `splitlines` cuts at the first `\n` and goes on with the rest |
| Writer.Unprefixed | esi/spec/writer.py:38-50 | taking the prefixes off keeps the number of lines |
| Writer.UnprefixedExpected | esi/spec/writer.py:38-50 | taking the prefixes off the expected lines gives the input lines back |
| Writer.DoIndentRecover | esi/spec/writer.py:17-52 | for text whose only line boundary is `\n`, removing each output line's prefix and joining again recovers the input |
| Writer.SingleLine | esi/spec/writer.py:35 | a one-line text ending in a line break is that one line |
| Writer.ReassembleDefaultExample | esi/spec/writer.py:40-47 | by default the first line and empty lines are left alone |
| Writer.ReassembleBlankExample | esi/spec/writer.py:38-39 | `blank` indents the empty line too |
| Writer.DoIndentFirstExample | esi/spec/writer.py:29-33 | `indentfirst` overrides `first` in both directions |
| Writer.DoIndent | esi/spec/writer.py:17-52 | `do_indent`: characterised by `Writer.DoIndentLines` (which lines get the indentation) and `Writer.DoIndentRecover` (taking it off recovers the input) |
| Writer.FromSpecChecked | esi/spec/writer.py:195-198 | the writer fetches exactly when the check is skipped, the name is a preset, or it is `v` followed by digits; it fetches from the preset URL pattern, and otherwise raises `InvalidSpecError` naming the spec |
| Writer.WriterAcceptsMore | esi/spec/writer.py:195-198 | every name the document loader accepts, the writer accepts and fetches from the same place |
| Writer.PresetExamples | esi/spec/writer.py:196-197 | `_latest`, `v3` and `v12` are accepted; `v`, `vx` and `beta` are refused unless the check is skipped |
| Sessions.DefaultHeaders | esi/sessions/base.py:18-29 | the headers always carry the user agent (the configured one when non-empty, else the library's); they carry `Bearer <token>` exactly when the token, after calling a callable one, is truthy; nothing else |
| Sessions.TokenSourceAsToken | esi/sessions/base.py:23-28 | a callable token acts as the token it returns, and as no token when that is falsy |
| Sessions.Rendered | esi/sessions/base.py:48 | `map(str, v)` renders every element, in order |
| Sessions.QueryPairs | esi/sessions/base.py:45-51 | one pair per query argument, in order, under the same name; lists are comma-joined and anything else is its `str` |
| Sessions.PrepareQuery | esi/sessions/base.py:41-51 | no query bucket gives `None`; otherwise the pairs carry exactly the argument names, in order |
| Sessions.QueryListRoundTrip | esi/sessions/base.py:47-48 | a list of strings without commas is recovered by splitting what is sent at its commas |
| Sessions.PrepareBody | esi/sessions/base.py:53-57 | the first body argument when there is one; an empty or missing bucket is passed on as it is |
| Sessions.PrepareBodyStored | esi/sessions/base.py:53-57 | the body sent is the value bound to the body parameter |
| Sessions.FormatPlain | esi/sessions/base.py:65 | a template without braces formats to itself |
| Sessions.FieldHead | esi/sessions/base.py:65 | a leading field is replaced by its argument's `str`, and raises when the argument is missing |
| Sessions.FormatChar | esi/sessions/base.py:65 | a plain character is copied |
| Sessions.FormatField | esi/sessions/base.py:65 | a field naming an argument is replaced by that argument's `str`; the text before it is kept and the rest is formatted on |
| Sessions.FieldAfter | esi/sessions/base.py:65 | plain text in front of a field is kept in front of the field's value |
| Sessions.FormatMissing | esi/sessions/base.py:65 | a field naming no argument makes the whole format raise |
| Sessions.Format | esi/sessions/base.py:65 | `str.format(**path)`: characterised by `Sessions.FormatPlain`, `Sessions.FormatField` and `Sessions.FormatMissing` |
| Sessions.PreparePath | esi/sessions/base.py:62-66 | the URL path exists exactly when the template (without leading slashes) formats, and starts with the base path without trailing slashes followed by one slash |
| Sessions.PreparePathSeam | esi/sessions/base.py:62-66 | exactly one slash joins base and template, unless the template's first field fills in a slash itself |
| Sessions.PrepareCall | esi/sessions/base.py:31-39 | the scope check refuses a call, with the operation's scopes, exactly when scopes are enabled, not ignored and not all granted; a template that does not format raises next; otherwise the call goes ahead with the bound headers, the path the template formats to, the query and body prepared from the bound ones, and it does go ahead whenever the gate is open and the path formats |
| Sessions.ScopeGate | esi/sessions/base.py:31-34 | with scopes enabled and not ignored a call is refused exactly when one of its scopes is not enabled; otherwise it is never refused |
| Sessions.ProcessResponse | esi/sessions/base.py:69-81 | without a schema for the status the data is returned untouched; otherwise truthy data is replaced by its conversion, falsy data kept, the conversion's failure is raised exactly when there is a schema, the data is truthy and it does not convert, and an error status raises `ESIResponseError` only when the effective flag is set |
| Sessions.ResponseRoundTrip | esi/sessions/base.py:69-81 | data dumped under the status's schema comes back from the response as the value it was dumped from, with the status kept |
| Sessions.ResponseRaises | esi/sessions/base.py:74-80 | with a schema and data that converts, the call raises exactly for a status outside [200, 400) with the effective flag set, and the flag passed to the call overrides the session's |

## Left out

- Fetching and reading documents (`from_url`, `from_file`, `from_document`, `meta_spec`, `esi/spec/loader.py:119-141`) is I/O. `Loader.FromSpec` and `Writer.FromSpecChecked` stop at the URL they would fetch.
- Reference resolution through `jsonref` (`esi/spec/loader.py:26`) is a foreign library. Documents are taken with every reference replaced by a copy of the raw fragment it points to; the `Loader.NewSpec` line says what that loses. Node trees are finite datatypes, so a cyclic reference cannot be expressed.
- The `version` property (`esi/spec/loader.py:91-93`) relies on `StrictVersion` from distutils. `iter_valid_urls` and `urlunparse` only assemble URLs. `Sessions.PreparePath` models the path that is handed to `urlunparse`.
- Date and date-time parsing and formatting, `float()` and `datetime.fromtimestamp` are foreign calls. They are fields of the `Natives` parameter. Numbers are reals, and `Decimal` is a separate constructor with the same carrier.
- Python's `bool` is a subclass of `int`, and `1 == 1.0 == True`. `Types.PyEq` models `==` on values: numbers compare by value across `bool`, `int`, `float` and `Decimal`, lists element by element, and dicts key by key in any order. The default test of a call (`Functions.Bind`), the uniqueness check (`Types.Distinct`) and the boolean check use it. The type checks, `int()`, the range checks and the date and date-time conversions treat a boolean as an `int`. Built nodes inside values are still compared structurally: Python compares two `Parameter`s by name and location and other nodes by identity. Since numbers are reals, a `Decimal` equals a `float` with the same real value, while Python compares the float's exact binary value.
- Hashability, which `set()` needs in the uniqueness check, is not modelled. Uniqueness is "no two equal elements" (`Types.Distinct`).
- `Base64.Decode` is strict: the length must be a multiple of four and padding may only end the text. Python's `b64decode` also discards characters outside the alphabet, which is not modelled.
- Case mapping, `isdigit` and the whitespace used by `strip` are restated over ASCII and the characters Python's `str.isspace` accepts. Unicode case mapping and Unicode digits are left out.
- Template rendering, the jinja environment, `exec`, `describe` and the generated code (`esi/spec/writer.py:59-184`) are code generation and foreign calls.
- Reflection-based rendering (`data`, `__do_repr__`, `PropDict`, `esi/spec/describeable.py:6-33` and `119-169`) is not modelled. Neither are `docstring_line` and the `typing` objects. Typing annotations exist only as the names `Types.TypingName` returns.
- `cached_property` memoisation is not modelled. Each cached property is a plain function.
- `Function.decorate`, `indent_size` and `function_indent_size` only copy attributes or take lengths.
- The HTTP clients, the sync and async sessions, `esi/core.py`, the command line and `PathType` are transport, concurrency, I/O or argument parsing.
- `esi/version.py` is not part of this model. The library's user agent is the `libraryAgent` parameter of `Sessions.DefaultHeaders`.
- Parameters.Less: two different `required` name lists compare lexicographically in Python. The model treats that comparison as raising, and only a `True`/`False` flag takes part in the order.
- Sessions.Format: conversions (`!r`), format specs (`:>4`) and attribute or index fields are not parsed. The whole text between braces is the argument's name.
- Nodes.Repr: `repr` of a float that is not integral or is at least 10^16 in magnitude, of a `Decimal`, a date, a date-time and a node is the placeholder `<value>`; non-printable characters above U+00FF are shown as they are rather than as `\u` escapes.
- Nodes.Render: `str` inherits the placeholder of `Nodes.Repr` for the same values.
- Types.Cast: `str` of a value that `Nodes.Repr` renders as a placeholder gives that placeholder.
- Types.ConvertString: outside the date, date-time and byte formats, the text it produces inherits the placeholder of `Nodes.Repr`.
- Types.ConvertObject: its own contract gives only that the result is a dict with at most one entry per declared property. The keys and their order are stated by `Types.ObjectKeys`, the values by `Types.ObjectValues`, when it raises by `Types.ObjectRaises`, and the round trip by `Types.ObjectRoundTrip`.
- Types.ConvertEntries: its own contract gives only the entry bound; `Types.ConvertEntriesGather` relates it to the fold that `Dicts.GatherKeeps` and `Dicts.GatherRaises` characterise.
- Parameters.CallSignature: the default's `repr` inherits the placeholder of `Nodes.Repr`, so a non-integral float default such as 0.5 is not rendered as Python renders it.
- Parameters.SignatureParts: the default's text is `Nodes.Repr`, with its placeholder.
- Sessions.Rendered: `str` of each element inherits the placeholder of `Nodes.Repr`.
- Sessions.QueryPairs: the query values inherit the placeholder of `Nodes.Repr`.
- Sessions.FieldHead: the text put in place of a field inherits the placeholder of `Nodes.Repr`.
- Sessions.FormatField: the text put in place of a field inherits the placeholder of `Nodes.Repr`.
- Loader.NewSpec: Python resolves `$ref`s to `#/parameters` and `#/definitions` after `load_globals`, so an operation's parameters and schemas can be the shared global nodes, with the global flag set, which `Path` keeps as they are. The model takes documents with references already resolved into fresh fragments, so operation nodes are never global and never shared with the global tables.
- Parameters.OrderedParameters: for three or more parameters the model fails when any parameter is not orderable, while Python's sort raises only when a comparison it actually makes raises; for two parameters it is exact.
- Parameters.Sort: stability is not stated; the contract gives a sorted permutation, and equal-ranked parameters may appear in any order.
- Describeable.AsRequired: a `required` value that is neither a boolean nor a list is stored as its truthiness, while Python keeps it as it is (a string then makes `name in required` a substring test); a list keeps only its string elements and its length, which is all that its truthiness and `name in required` depend on.
- Describeable.AsStr: a `type`, `format`, `in` or `name` that is not a string is stored as absent, while Python keeps it as it is.
- Errors.Format: only `%(name)s` and `%%` are interpreted. Every other conversion (`%(name)d`, `%(name)r`, a bare `%s`, flags, widths and precisions) yields `None`, where Python would format it or raise.
- Errors.HeaderInt: among several headers whose names match ignoring case, the first is read; the model does not decide which one a particular HTTP client keeps.
- Loader.Built: an operation whose `operationId` is not a string, such as a number, is treated as failing to build. Python would key the table with it.
- Loader.Sso: a `securityDefinitions` value that is not an object is modelled as raising, as `.get` on it does. A non-object `evesso` entry is returned as it is.
- Errors.Make: its contract gives each shape's result. When the list and dict shapes build, and what they then hold, is stated by `Errors.MakeBuilds`, `Errors.ListFromSome` and `Errors.FieldsFromSome`.
