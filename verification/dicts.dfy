/** Python's `dict` as an insertion-ordered list of entries. The order is
    observable in the source (error reports, query strings, the first body
    value), so it is kept; lookups return the first entry with the key. */
module Dicts {
  import opened Wrappers

  type Dict<K(==), V> = seq<(K, V)>

  function Keys<K(==), V>(d: Dict<K, V>): (ks: seq<K>)
    ensures |ks| == |d|
    ensures forall i :: 0 <= i < |d| ==> ks[i] == d[i].0
  {
    if d == [] then [] else [d[0].0] + Keys(d[1..])
  }

  function Values<K(==), V>(d: Dict<K, V>): (vs: seq<V>)
    ensures |vs| == |d|
    ensures forall i :: 0 <= i < |d| ==> vs[i] == d[i].1
  {
    if d == [] then [] else [d[0].1] + Values(d[1..])
  }

  /** `k in d` */
  predicate HasKey<K(==), V>(d: Dict<K, V>, k: K) {
    k in Keys(d)
  }

  /** Every Python dict has this: no key occurs twice. */
  predicate UniqueKeys<K(==), V>(d: Dict<K, V>) {
    forall i, j :: 0 <= i < j < |d| ==> d[i].0 != d[j].0
  }

  /** `d.get(k)`, with `None` for a missing key. */
  function Get<K(==), V>(d: Dict<K, V>, k: K): (r: Option<V>)
    ensures r.Some? <==> HasKey(d, k)
  {
    if |d| == 0 then None
    else if d[0].0 == k then Some(d[0].1)
    else Get(d[1..], k)
  }

  /** With unique keys, the entry at position `i` is what `Get` finds. */
  lemma {:induction false} GetAt<K, V>(d: Dict<K, V>, i: nat)
    requires UniqueKeys(d) && i < |d|
    ensures Get(d, d[i].0) == Some(d[i].1)
  {
    if i > 0 {
      GetAt(d[1..], i - 1);
    }
  }

  /** `d[k] = v`: an existing key keeps its position, a new key goes last. */
  function Put<K(==, !new), V>(d: Dict<K, V>, k: K, v: V): (r: Dict<K, V>)
    ensures Get(r, k) == Some(v)
    ensures forall k' :: k' != k ==> Get(r, k') == Get(d, k')
    ensures Keys(r) == if HasKey(d, k) then Keys(d) else Keys(d) + [k]
  {
    PutGet(d, k, v);
    PutKeys(d, k, v);
    Assign(d, k, v)
  }

  function Assign<K(==), V>(d: Dict<K, V>, k: K, v: V): Dict<K, V> {
    if |d| == 0 then [(k, v)]
    else if d[0].0 == k then [(k, v)] + d[1..]
    else [d[0]] + Assign(d[1..], k, v)
  }

  lemma {:induction false} PutGet<K(!new), V>(d: Dict<K, V>, k: K, v: V)
    ensures Get(Assign(d, k, v), k) == Some(v)
    ensures forall k' :: k' != k ==> Get(Assign(d, k, v), k') == Get(d, k')
  {
    var r := Assign(d, k, v);
    if |d| > 0 {
      if d[0].0 == k {
        assert r[0] == (k, v) && r[1..] == d[1..];
      } else {
        PutGet(d[1..], k, v);
        assert r[0] == d[0] && r[1..] == Assign(d[1..], k, v);
      }
    }
  }

  lemma {:induction false} PutKeys<K, V>(d: Dict<K, V>, k: K, v: V)
    ensures Keys(Assign(d, k, v)) == if HasKey(d, k) then Keys(d) else Keys(d) + [k]
  {
    var r := Assign(d, k, v);
    if |d| > 0 {
      assert Keys(d) == [d[0].0] + Keys(d[1..]);
      if d[0].0 == k {
        assert Keys(r) == Keys(d);
      } else {
        PutKeys(d[1..], k, v);
        assert Keys(r) == [d[0].0] + Keys(Assign(d[1..], k, v));
      }
    }
  }

  /** Keys stay unique under `Put`. */
  lemma PutUnique<K(!new), V>(d: Dict<K, V>, k: K, v: V)
    requires UniqueKeys(d)
    ensures UniqueKeys(Put(d, k, v))
  {
    var r := Put(d, k, v);
    forall i, j | 0 <= i < j < |r| ensures r[i].0 != r[j].0 {
      assert Keys(r)[i] == r[i].0 && Keys(r)[j] == r[j].0;
      if HasKey(d, k) {
        assert Keys(d)[i] == d[i].0 && Keys(d)[j] == d[j].0;
      } else if j < |d| {
        assert Keys(d)[i] == d[i].0 && Keys(d)[j] == d[j].0;
      } else {
        assert Keys(d)[i] == d[i].0;
      }
    }
  }

  /** `del d[k]`: the key is absent afterwards; other keys are untouched. */
  function Remove<K(==, !new), V>(d: Dict<K, V>, k: K): (r: Dict<K, V>)
    ensures !HasKey(r, k)
    ensures forall k' :: k' != k ==> Get(r, k') == Get(d, k')
  {
    if |d| == 0 then []
    else if d[0].0 == k then Remove(d[1..], k)
    else [d[0]] + Remove(d[1..], k)
  }

  /** `d.setdefault(k, []).extend(es)`: the list under `k` grows by `es`;
      every other entry is untouched. */
  function Extend<K(==, !new), E>(d: Dict<K, seq<E>>, k: K, es: seq<E>): (r: Dict<K, seq<E>>)
    ensures Get(r, k) == Some(Get(d, k).GetOr([]) + es)
    ensures forall k' :: k' != k ==> Get(r, k') == Get(d, k')
    ensures Keys(r) == if HasKey(d, k) then Keys(d) else Keys(d) + [k]
  {
    Put(d, k, Get(d, k).GetOr([]) + es)
  }

  /** `{k: f(v) for k, v in d.items()}` for an `f` that may fail: the same
      keys in the same order, `None` as soon as one value fails. */
  function MapValues<K(==), A, B>(d: Dict<K, A>, f: A -> Option<B>): (r: Option<Dict<K, B>>)
    ensures r.Some? <==> forall i :: 0 <= i < |d| ==> f(d[i].1).Some?
    ensures r.Some? ==> Keys(r.value) == Keys(d)
    ensures r.Some? ==> forall i :: 0 <= i < |d| ==> f(d[i].1) == Some(r.value[i].1)
  {
    match MapAll(Values(d), f)
    case None => None
    case Some(vs) =>
      var t := seq(|d|, i requires 0 <= i < |d| => (d[i].0, vs[i]));
      assert Keys(t) == Keys(d);
      Some(t)
  }

  /** Appending an entry for a new key leaves every other lookup alone. */
  lemma {:induction false} GetAppend<K, V>(d: Dict<K, V>, k: K, v: V, k': K)
    requires k' != k
    ensures Get(d + [(k, v)], k') == Get(d, k')
  {
    if d != [] {
      assert (d + [(k, v)])[1..] == d[1..] + [(k, v)];
      GetAppend(d[1..], k, v, k');
    } else {
      assert Get([(k, v)][1..], k') == None;
    }
  }

  /** Keys stay unique in a dict with the same key sequence. */
  lemma SameKeysUnique<K, V, W>(a: Dict<K, V>, b: Dict<K, W>)
    requires UniqueKeys(a) && Keys(a) == Keys(b)
    ensures UniqueKeys(b)
  {
    forall i, j | 0 <= i < j < |b| ensures b[i].0 != b[j].0 {
      assert Keys(a)[i] == b[i].0 && Keys(a)[j] == b[j].0;
    }
  }

  /** Two dicts with unique keys, the same keys in the same order and the
      same lookups are the same dict. */
  lemma SameDict<K, V>(a: Dict<K, V>, b: Dict<K, V>)
    requires UniqueKeys(a) && Keys(a) == Keys(b)
    requires forall k :: HasKey(a, k) ==> Get(a, k) == Get(b, k)
    ensures a == b
  {
    SameKeysUnique(a, b);
    forall i | 0 <= i < |a| ensures a[i] == b[i] {
      assert Keys(a)[i] == a[i].0 == b[i].0;
      GetAt(a, i);
      GetAt(b, i);
    }
  }

  /** A table keyed by integer codes, built from the entries from position
      `i` on whose key `code` reads as some `c`: each such entry's `f` value
      is put under `c` in `acc`, so a later entry replaces an earlier one.
      `None` as soon as `f` fails on such an entry. */
  function Tabulate<V, W>(es: Dict<string, V>, code: string -> Option<int>, f: V -> Option<W>, i: nat, acc: Dict<int, W>): (r: Option<Dict<int, W>>)
    requires i <= |es| && UniqueKeys(acc)
    ensures r.Some? ==> UniqueKeys(r.value)
    ensures r.Some? ==> forall c :: HasKey(r.value, c) <==>
              HasKey(acc, c) || exists j :: i <= j < |es| && code(es[j].0) == Some(c)
    decreases |es| - i
  {
    if i == |es| then Some(acc)
    else
      match code(es[i].0)
      case None => Tabulate(es, code, f, i + 1, acc)
      case Some(c) =>
        match f(es[i].1)
        case None => None
        case Some(y) =>
          PutUnique(acc, c, y);
          Tabulate(es, code, f, i + 1, Put(acc, c, y))
  }

  /** Entry `j` holds the last key that reads as its code. */
  predicate LastOfCode<V>(es: Dict<string, V>, code: string -> Option<int>, j: nat)
    requires j < |es|
  {
    forall k :: j < k < |es| ==> code(es[k].0) != code(es[j].0)
  }

  /** Tabulating raises exactly when `f` fails on some entry with a code. */
  lemma {:induction false} TabulateRaises<V, W>(es: Dict<string, V>, code: string -> Option<int>, f: V -> Option<W>, i: nat, acc: Dict<int, W>)
    requires i <= |es| && UniqueKeys(acc)
    ensures Tabulate(es, code, f, i, acc).None? <==>
              exists j :: i <= j < |es| && code(es[j].0).Some? && f(es[j].1).None?
    decreases |es| - i
  {
    if i < |es| {
      FailsFrom(es, code, f, i);
      match code(es[i].0)
      case None =>
        TabulateRaises(es, code, f, i + 1, acc);
      case Some(c) =>
        match f(es[i].1)
        case None =>
        case Some(y) =>
          PutUnique(acc, c, y);
          TabulateRaises(es, code, f, i + 1, Put(acc, c, y));
    }
  }

  lemma FailsFrom<V, W>(es: Dict<string, V>, code: string -> Option<int>, f: V -> Option<W>, i: nat)
    requires i < |es|
    ensures (exists j :: i <= j < |es| && code(es[j].0).Some? && f(es[j].1).None?) <==>
            (code(es[i].0).Some? && f(es[i].1).None?) || exists j :: i + 1 <= j < |es| && code(es[j].0).Some? && f(es[j].1).None?
  {
    if exists j :: i <= j < |es| && code(es[j].0).Some? && f(es[j].1).None? {
      var j :| i <= j < |es| && code(es[j].0).Some? && f(es[j].1).None?;
      assert j == i || i + 1 <= j;
    }
  }

  /** Codes that no entry from position `i` on has keep what `acc` holds
      for them. */
  lemma {:induction false} TabulateKeeps<V, W>(es: Dict<string, V>, code: string -> Option<int>, f: V -> Option<W>, i: nat, acc: Dict<int, W>, c: int)
    requires i <= |es| && UniqueKeys(acc) && Tabulate(es, code, f, i, acc).Some?
    requires forall k :: i <= k < |es| ==> code(es[k].0) != Some(c)
    ensures Get(Tabulate(es, code, f, i, acc).value, c) == Get(acc, c)
    decreases |es| - i
  {
    if i < |es| {
      match code(es[i].0)
      case None =>
        TabulateKeeps(es, code, f, i + 1, acc, c);
      case Some(c') =>
        var y := f(es[i].1).value;
        PutUnique(acc, c', y);
        TabulateKeeps(es, code, f, i + 1, Put(acc, c', y), c);
    }
  }

  /** Every code maps to the `f` value of the last entry with that code. */
  lemma {:induction false} TabulateValues<V, W>(es: Dict<string, V>, code: string -> Option<int>, f: V -> Option<W>, i: nat, acc: Dict<int, W>, j: nat)
    requires i <= j < |es| && UniqueKeys(acc) && Tabulate(es, code, f, i, acc).Some?
    requires code(es[j].0).Some? && LastOfCode(es, code, j)
    ensures Get(Tabulate(es, code, f, i, acc).value, code(es[j].0).value) == f(es[j].1)
    decreases |es| - i
  {
    match code(es[i].0)
    case None =>
      TabulateValues(es, code, f, i + 1, acc, j);
    case Some(c') =>
      var y := f(es[i].1).value;
      PutUnique(acc, c', y);
      if i < j {
        TabulateValues(es, code, f, i + 1, Put(acc, c', y), j);
      } else {
        TabulateKeeps(es, code, f, i + 1, Put(acc, c', y), c');
      }
  }

  /** `{k: y for k, x in es if kept(k, x)}` where each step may raise
      (`None`), skip the key (`Some(None)`) or keep it with a value,
      added to `acc`. */
  function Gather<V, W>(es: Dict<string, V>, f: (string, V) -> Option<Option<W>>, acc: Dict<string, W>): Option<Dict<string, W>> {
    if es == [] then Some(acc)
    else
      match f(es[0].0, es[0].1)
      case None => None
      case Some(None) => Gather(es[1..], f, acc)
      case Some(Some(y)) => Gather(es[1..], f, Put(acc, es[0].0, y))
  }

  /** The keys whose step keeps them, in order. */
  function KeptKeys<V, W>(es: Dict<string, V>, f: (string, V) -> Option<Option<W>>): seq<string> {
    if es == [] then []
    else (if f(es[0].0, es[0].1).Some? && f(es[0].0, es[0].1).value.Some? then [es[0].0] else []) + KeptKeys(es[1..], f)
  }

  /** Gathering raises exactly when one step does. */
  lemma {:induction false} GatherRaises<V, W>(es: Dict<string, V>, f: (string, V) -> Option<Option<W>>, acc: Dict<string, W>)
    ensures Gather(es, f, acc).None? <==> exists j :: 0 <= j < |es| && f(es[j].0, es[j].1).None?
  {
    if es != [] {
      assert forall j :: 1 <= j < |es| ==> es[j] == es[1..][j - 1];
      match f(es[0].0, es[0].1)
      case None =>
      case Some(None) => GatherRaises(es[1..], f, acc);
      case Some(Some(y)) => GatherRaises(es[1..], f, Put(acc, es[0].0, y));
    }
  }

  /** Over distinct keys none of which `acc` holds, gathering appends the
      kept keys in order, each mapped to its step's value. */
  lemma {:induction false} GatherKeeps<V, W>(es: Dict<string, V>, f: (string, V) -> Option<Option<W>>, acc: Dict<string, W>)
    requires UniqueKeys(es) && forall j :: 0 <= j < |es| ==> !HasKey(acc, es[j].0)
    requires Gather(es, f, acc).Some?
    ensures Keys(Gather(es, f, acc).value) == Keys(acc) + KeptKeys(es, f)
    ensures forall j :: 0 <= j < |es| ==> f(es[j].0, es[j].1).Some?
    ensures forall j :: 0 <= j < |es| && f(es[j].0, es[j].1).value.Some? ==>
              Get(Gather(es, f, acc).value, es[j].0) == f(es[j].0, es[j].1).value
    ensures forall k :: HasKey(acc, k) ==> Get(Gather(es, f, acc).value, k) == Get(acc, k)
  {
    if es != [] {
      var (k, x) := es[0];
      var rest := es[1..];
      assert forall j :: 1 <= j < |es| ==> es[j] == rest[j - 1];
      assert UniqueKeys(rest);
      var acc' := if f(k, x).value.None? then acc else Put(acc, k, f(k, x).value.value);
      forall j | 0 <= j < |rest| ensures !HasKey(acc', rest[j].0) {
        assert rest[j].0 == es[j + 1].0 != k;
      }
      GatherKeeps(rest, f, acc');
    }
  }
}
