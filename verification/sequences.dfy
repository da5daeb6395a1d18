/** The two loop shapes the visual uses, independent of what the loop
    body tests: a `for ... of` loop that `continue`s past some elements
    and `push`es one result for each of the others (a filter-map), and an
    indexed loop that returns the first element passing a test. */
module Sequences {
  import opened Wrappers

  /** The results `f` gives, in the order of `xs`, skipping `None`s. */
  function FilterMap<A, B>(f: A -> Option<B>, xs: seq<A>): (ys: seq<B>)
    ensures |ys| <= |xs|
  {
    if xs == [] then []
    else
      var head := match f(xs[0])
        case Some(y) => [y]
        case None => [];
      head + FilterMap(f, xs[1..])
  }

  /** Every result satisfies `p` when every `Some` of `f` does. */
  lemma {:induction false} FilterMapAll<A, B>(f: A -> Option<B>, xs: seq<A>, p: B -> bool)
    requires forall x :: f(x).Some? ==> p(f(x).value)
    ensures forall k :: 0 <= k < |FilterMap(f, xs)| ==> p(FilterMap(f, xs)[k])
  {
    if xs != [] { FilterMapAll(f, xs[1..], p); }
  }

  lemma {:induction false} FilterMapAppend<A, B>(f: A -> Option<B>, xs: seq<A>, zs: seq<A>)
    ensures FilterMap(f, xs + zs) == FilterMap(f, xs) + FilterMap(f, zs)
  {
    if xs == [] {
      assert xs + zs == zs;
    } else {
      assert (xs + zs)[1..] == xs[1..] + zs;
      FilterMapAppend(f, xs[1..], zs);
    }
  }

  lemma FilterMapSingle<A, B>(f: A -> Option<B>, x: A)
    ensures FilterMap(f, [x]) == if f(x).Some? then [f(x).value] else []
  {
    assert [x][1..] == [];
  }

  /** Cutting the sequence at `i` cuts the results at the same place. */
  lemma FilterMapCut<A, B>(f: A -> Option<B>, xs: seq<A>, i: nat)
    requires i <= |xs|
    ensures FilterMap(f, xs) == FilterMap(f, xs[..i]) + FilterMap(f, xs[i..])
  {
    assert xs == xs[..i] + xs[i..];
    FilterMapAppend(f, xs[..i], xs[i..]);
  }

  /** From element `i` on, the results start with that of element `i`. */
  lemma FilterMapFrom<A, B>(f: A -> Option<B>, xs: seq<A>, i: nat)
    requires i < |xs|
    ensures FilterMap(f, xs[i..]) ==
      (if f(xs[i]).Some? then [f(xs[i]).value] else []) + FilterMap(f, xs[i + 1..])
  {
    assert xs[i..][0] == xs[i];
    assert xs[i..][1..] == xs[i + 1..];
  }

  /** An element `f` maps to `None` can be dropped. */
  lemma FilterMapSkip<A, B>(f: A -> Option<B>, xs: seq<A>, i: nat)
    requires i < |xs| && f(xs[i]).None?
    ensures FilterMap(f, xs) == FilterMap(f, xs[..i] + xs[i + 1..])
  {
    FilterMapCut(f, xs, i);
    FilterMapFrom(f, xs, i);
    var after := FilterMap(f, xs[i + 1..]);
    assert [] + after == after;
    FilterMapAppend(f, xs[..i], xs[i + 1..]);
  }

  /** The result of element `i`, if any, sits at the position given by the
      number of results of the elements before it. */
  lemma FilterMapPosition<A, B>(f: A -> Option<B>, xs: seq<A>, i: nat)
    requires i < |xs| && f(xs[i]).Some?
    ensures |FilterMap(f, xs[..i])| < |FilterMap(f, xs)|
    ensures FilterMap(f, xs)[|FilterMap(f, xs[..i])|] == f(xs[i]).value
  {
    FilterMapCut(f, xs, i);
    FilterMapFrom(f, xs, i);
  }

  /** Results keep the order of their elements: for `i < j` that both
      give a result, `i`'s comes first. */
  lemma FilterMapOrder<A, B>(f: A -> Option<B>, xs: seq<A>, i: nat, j: nat)
    requires i < j < |xs| && f(xs[i]).Some? && f(xs[j]).Some?
    ensures |FilterMap(f, xs[..i])| < |FilterMap(f, xs[..j])|
  {
    FilterMapPosition(f, xs[..j], i);
    assert xs[..j][..i] == xs[..i];
  }

  /** Nothing comes out when every element gives `None`. */
  lemma {:induction false} FilterMapNone<A, B>(f: A -> Option<B>, xs: seq<A>)
    requires forall k :: 0 <= k < |xs| ==> f(xs[k]).None?
    ensures FilterMap(f, xs) == []
  {
    if xs != [] { FilterMapNone(f, xs[1..]); }
  }

  /** The index of the first element at or after `from` that satisfies `p`. */
  function FirstIndex<A>(p: A -> bool, xs: seq<A>, from: nat): (r: Option<nat>)
    requires from <= |xs|
    ensures r.Some? ==> from <= r.value < |xs| && p(xs[r.value])
    ensures r.Some? ==> forall k :: from <= k < r.value ==> !p(xs[k])
    ensures r.None? ==> forall k :: from <= k < |xs| ==> !p(xs[k])
    decreases |xs| - from
  {
    if from == |xs| then None
    else if p(xs[from]) then Some(from)
    else FirstIndex(p, xs, from + 1)
  }
}
