/**
 * The three sequence operations the weave derivation is built from: the `zip`
 * helper and the `findIndex` and `some` array methods, modelled on values.
 */
module Sequences {
  import opened Options

  /** `b[k]`, or `None` when `k` is past the end of `b` (JavaScript reads `undefined` there). */
  function Lookup<B>(b: seq<B>, k: nat): Option<B> {
    if k < |b| then Some(b[k]) else None
  }

  /**
   * `zip(a, b)`: pairs every element of `a` with the element of `b` at the same
   * index; the result has exactly as many pairs as `a` has elements, and `b`'s
   * extra elements are dropped while its missing ones read as absent.
   */
  function Zip<A, B>(a: seq<A>, b: seq<B>): (r: seq<(A, Option<B>)>)
    ensures |r| == |a|
    ensures forall k :: 0 <= k < |a| ==> r[k] == (a[k], Lookup(b, k))
  {
    if a == [] then []
    else [(a[0], Lookup(b, 0))] + Zip(a[1..], if b == [] then [] else b[1..])
  }

  /** `xs.some(p)`: whether some element satisfies `p`. */
  function Any<T>(xs: seq<T>, p: T -> bool): (r: bool)
    ensures r <==> exists k :: 0 <= k < |xs| && p(xs[k])
  {
    if xs == [] then false
    else p(xs[0]) || Any(xs[1..], p)
  }

  /**
   * `xs.findIndex(p)`: the lowest index whose element satisfies `p`, or -1 when
   * no element does.
   */
  function FindIndex<T>(xs: seq<T>, p: T -> bool): (r: int)
    ensures -1 <= r < |xs|
    ensures r == -1 <==> forall k :: 0 <= k < |xs| ==> !p(xs[k])
    ensures 0 <= r ==> p(xs[r]) && forall k :: 0 <= k < r ==> !p(xs[k])
  {
    if xs == [] then -1
    else if p(xs[0]) then 0
    else
      var r := FindIndex(xs[1..], p);
      if r == -1 then -1 else r + 1
  }

  /** `findIndex` is determined by its contract: any index that is the first to satisfy `p` is the one returned. */
  lemma FindIndexIsFirst<T>(xs: seq<T>, p: T -> bool, s: nat)
    requires s < |xs| && p(xs[s])
    requires forall k :: 0 <= k < s ==> !p(xs[k])
    ensures FindIndex(xs, p) == s
  {
  }
}
