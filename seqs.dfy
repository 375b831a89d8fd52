/**
  Sequence vocabulary shared by the cleaning steps: order-preserving
  filtering (the list comprehension of preprocessor.py line 32 and the
  character deletion of line 22), subsequences and flattening.
*/
module Seqs {

  /** `a` is obtained from `b` by deleting elements, keeping the order. */
  predicate IsSubsequence<T(==)>(a: seq<T>, b: seq<T>)
    decreases |b|
  {
    a == [] || (b != [] && ((a[0] == b[0] && IsSubsequence(a[1..], b[1..])) || IsSubsequence(a, b[1..])))
  }

  lemma {:induction false} SubsequenceOfSuffix<T>(a: seq<T>, b: seq<T>, k: nat)
    requires k <= |b| && IsSubsequence(a, b[k..])
    ensures IsSubsequence(a, b)
    decreases k
  {
    if k > 0 {
      assert b[k..] == b[1..][k - 1..];
      SubsequenceOfSuffix(a, b[1..], k - 1);
    }
  }

  /** `[x for x in xs if keep(x)]`: exactly the elements that pass, in order. */
  function Filter<T(==,!new)>(xs: seq<T>, keep: T -> bool): (r: seq<T>)
    ensures IsSubsequence(r, xs)
    ensures forall x <- r :: keep(x)
    decreases |xs|
  {
    if xs == [] then []
    else if keep(xs[0]) then [xs[0]] + Filter(xs[1..], keep) else Filter(xs[1..], keep)
  }

  /** Every element that passes is kept as often as it occurs; no other is. */
  lemma {:induction false} FilterCounts<T(!new)>(xs: seq<T>, keep: T -> bool)
    ensures forall x :: multiset(Filter(xs, keep))[x] == if keep(x) then multiset(xs)[x] else 0
    decreases |xs|
  {
    if xs != [] {
      assert xs == [xs[0]] + xs[1..];
      FilterCounts(xs[1..], keep);
    }
  }

  lemma FilterCons<T(!new)>(x: T, xs: seq<T>, keep: T -> bool)
    ensures Filter([x] + xs, keep) == (if keep(x) then [x] else []) + Filter(xs, keep)
  {
    assert ([x] + xs)[0] == x && ([x] + xs)[1..] == xs;
  }

  /** Membership in a filtered sequence, both directions. */
  lemma InFilter<T(!new)>(xs: seq<T>, keep: T -> bool)
    ensures forall x :: x in Filter(xs, keep) <==> x in xs && keep(x)
  {
    var r := Filter(xs, keep);
    FilterCounts(xs, keep);
    forall x ensures x in r <==> x in xs && keep(x) {
      assert x in r <==> multiset(r)[x] > 0;
      assert x in xs <==> multiset(xs)[x] > 0;
    }
  }

  lemma {:induction false} FilterAppend<T(!new)>(xs: seq<T>, ys: seq<T>, keep: T -> bool)
    ensures Filter(xs + ys, keep) == Filter(xs, keep) + Filter(ys, keep)
    decreases |xs|
  {
    if xs == [] {
      assert xs + ys == ys;
    } else {
      assert (xs + ys)[0] == xs[0] && (xs + ys)[1..] == xs[1..] + ys;
      FilterAppend(xs[1..], ys, keep);
    }
  }

  /** A filter that rejects nothing is the identity. */
  lemma {:induction false} FilterKeepsAll<T(!new)>(xs: seq<T>, keep: T -> bool)
    requires forall x <- xs :: keep(x)
    ensures Filter(xs, keep) == xs
    decreases |xs|
  {
    if xs != [] {
      FilterKeepsAll(xs[1..], keep);
    }
  }

  /** A filter that rejects everything yields nothing. */
  lemma {:induction false} FilterKeepsNone<T(!new)>(xs: seq<T>, keep: T -> bool)
    requires forall x <- xs :: !keep(x)
    ensures Filter(xs, keep) == []
    decreases |xs|
  {
    if xs != [] {
      FilterKeepsNone(xs[1..], keep);
    }
  }

  /** Filtering deletes a rejected run between two kept parts. */
  lemma FilterGap<T(!new)>(w: seq<T>, p: seq<T>, v: seq<T>, keep: T -> bool)
    requires forall x <- w :: keep(x)
    requires forall x <- p :: !keep(x)
    requires forall x <- v :: keep(x)
    ensures Filter(w + p + v, keep) == w + v
  {
    FilterKeepsAll(w, keep);
    FilterKeepsNone(p, keep);
    FilterAppend(w, p, keep);
    assert Filter(w + p, keep) == w;
    FilterKeepsAll(v, keep);
    FilterAppend(w + p, v, keep);
  }

  /** Filtering first by a weaker test does not change a later, stronger filter. */
  lemma {:induction false} FilterOfFilter<T(!new)>(xs: seq<T>, weak: T -> bool, strong: T -> bool)
    requires forall x <- xs :: strong(x) ==> weak(x)
    ensures Filter(Filter(xs, weak), strong) == Filter(xs, strong)
    decreases |xs|
  {
    if xs != [] {
      FilterOfFilter(xs[1..], weak, strong);
      if weak(xs[0]) {
        var r := Filter(xs, weak);
        assert r[0] == xs[0] && r[1..] == Filter(xs[1..], weak);
      }
    }
  }

  /** `''.join(tokens)`: the tokens one after the other. */
  function Concat<T>(tss: seq<seq<T>>): (r: seq<T>)
    decreases |tss|
  {
    if tss == [] then [] else tss[0] + Concat(tss[1..])
  }

  lemma {:induction false} InConcat<T>(tss: seq<seq<T>>, i: nat, x: T)
    requires i < |tss| && x in tss[i]
    ensures x in Concat(tss)
    decreases |tss|
  {
    if i > 0 {
      InConcat(tss[1..], i - 1, x);
    }
  }

  lemma DropFromAround<T>(a: seq<T>, c: T, b: seq<T>, m: nat)
    requires m <= |a|
    ensures (a + [c] + b)[m..] == a[m..] + [c] + b
  {
  }

  lemma ConsAround<T>(x: T, y: seq<T>, c: T, z: seq<T>)
    ensures [x] + (y + [c] + z) == ([x] + y) + [c] + z
  {
  }
}
