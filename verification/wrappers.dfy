/** The conventional optional-value datatype, used for the many Python
    attributes that may hold `None`. */
module Wrappers {

  datatype Option<+T> = None | Some(value: T) {

    /** The wrapped value, or `default` when there is none. */
    function GetOr(default: T): T {
      match this
      case Some(v) => v
      case None => default
    }
  }

  /** `[f(x) for x in xs]` for an `f` that may fail: every result, in
      order, or `None` as soon as one fails. */
  function MapAll<A, B>(xs: seq<A>, f: A -> Option<B>): (r: Option<seq<B>>)
    ensures r.Some? <==> forall i :: 0 <= i < |xs| ==> f(xs[i]).Some?
    ensures r.Some? ==> |r.value| == |xs| && forall i :: 0 <= i < |xs| ==> f(xs[i]) == Some(r.value[i])
  {
    if xs == [] then Some([])
    else
      var rest := MapAll(xs[1..], f);
      if f(xs[0]).Some? && rest.Some? then
        assert forall i :: 1 <= i < |xs| ==> xs[i] == xs[1..][i - 1];
        Some([f(xs[0]).value] + rest.value)
      else None
  }

  /** Mapping a concatenation maps each part. */
  lemma MapAllConcat<A, B>(a: seq<A>, b: seq<A>, f: A -> Option<B>)
    ensures MapAll(a + b, f).Some? <==> MapAll(a, f).Some? && MapAll(b, f).Some?
    ensures MapAll(a + b, f).Some? ==> MapAll(a + b, f).value == MapAll(a, f).value + MapAll(b, f).value
  {
    var ab := a + b;
    assert forall i :: 0 <= i < |a| ==> ab[i] == a[i];
    assert forall i :: 0 <= i < |b| ==> ab[|a| + i] == b[i];
    if MapAll(a, f).Some? && MapAll(b, f).Some? {
      forall i | 0 <= i < |ab| ensures f(ab[i]).Some? {
        if i >= |a| {
          assert ab[i] == b[i - |a|];
        }
      }
    }
  }

  /** A suffix is its first element followed by the next suffix. */
  lemma SuffixCons<T>(s: seq<T>, i: nat)
    requires i < |s|
    ensures s[i..] == [s[i]] + s[i + 1..]
  {
  }

  /** Slicing before the end of `s` is unaffected by what follows it. */
  lemma AppendSlices<T>(s: seq<T>, x: seq<T>, k: nat)
    requires k < |s|
    ensures (s + x)[k] == s[k]
    ensures (s + x)[..k] == s[..k]
    ensures (s + x)[k + 1..] == s[k + 1..] + x
  {
  }
}
