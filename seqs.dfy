/** Boolean-mask selection over sequences and the subsequence relation it produces. */
module Seqs {

  /** The elements of `xs` that satisfy `p`, in their original order: what indexing a data
      frame with a boolean mask returns. */
  function Filter<T>(p: T -> bool, xs: seq<T>): (r: seq<T>)
    ensures |r| <= |xs|
    ensures forall i :: 0 <= i < |r| ==> r[i] in xs && p(r[i])
    ensures forall i :: 0 <= i < |xs| && p(xs[i]) ==> xs[i] in r
  {
    if xs == [] then []
    else if p(xs[0]) then [xs[0]] + Filter(p, xs[1..])
    else Filter(p, xs[1..])
  }

  /** `sub` is obtained from `xs` by deleting elements, keeping the order of the rest. */
  ghost predicate IsSubseq<T>(sub: seq<T>, xs: seq<T>) {
    if sub == [] then true
    else if xs == [] then false
    else (sub[0] == xs[0] && IsSubseq(sub[1..], xs[1..])) || IsSubseq(sub, xs[1..])
  }

  lemma SubseqCons<T>(sub: seq<T>, xs: seq<T>)
    requires sub != [] && xs != [] && sub[0] == xs[0] && IsSubseq(sub[1..], xs[1..])
    ensures IsSubseq(sub, xs)
  {
  }

  /** Selection keeps everything when every element qualifies. */
  lemma {:induction false} FilterAll<T>(p: T -> bool, xs: seq<T>)
    requires forall i :: 0 <= i < |xs| ==> p(xs[i])
    ensures Filter(p, xs) == xs
  {
    if xs != [] {
      assert p(xs[0]);
      FilterAll(p, xs[1..]);
      assert [xs[0]] + xs[1..] == xs;
    }
  }

  /** Selection keeps the surviving elements in their original order. */
  lemma {:induction false} FilterIsSubseq<T>(p: T -> bool, xs: seq<T>)
    ensures IsSubseq(Filter(p, xs), xs)
  {
    if xs != [] {
      FilterIsSubseq(p, xs[1..]);
      var r := Filter(p, xs);
      if p(xs[0]) {
        assert r[0] == xs[0] && r[1..] == Filter(p, xs[1..]);
      } else if r != [] {
        assert IsSubseq(r, xs[1..]);
      }
    }
  }

  /** Selecting from a concatenation selects from each part. */
  lemma {:induction false} FilterAppend<T>(p: T -> bool, a: seq<T>, b: seq<T>)
    ensures Filter(p, a + b) == Filter(p, a) + Filter(p, b)
  {
    if a == [] {
      assert a + b == b;
    } else {
      assert (a + b)[0] == a[0] && (a + b)[1..] == a[1..] + b;
      FilterAppend(p, a[1..], b);
    }
  }

  /** Every element of a subsequence is an element of the sequence. */
  lemma {:induction false} SubseqMembers<T>(sub: seq<T>, xs: seq<T>, x: T)
    requires IsSubseq(sub, xs) && x in sub
    ensures x in xs
  {
    if sub[0] == xs[0] && IsSubseq(sub[1..], xs[1..]) {
      if x != sub[0] {
        SubseqMembers(sub[1..], xs[1..], x);
      }
    } else {
      SubseqMembers(sub, xs[1..], x);
    }
  }

  /** A position at which `x` occurs in `xs`. */
  lemma {:induction false} IndexOf<T>(xs: seq<T>, x: T) returns (i: nat)
    requires x in xs
    ensures i < |xs| && xs[i] == x
  {
    if xs[0] == x {
      i := 0;
    } else {
      assert xs == [xs[0]] + xs[1..];
      var j := IndexOf(xs[1..], x);
      i := j + 1;
    }
  }

  /** Selection keeps every copy of a qualifying element and no copy of the others. */
  lemma {:induction false} FilterCounts<T>(p: T -> bool, xs: seq<T>, x: T)
    ensures multiset(Filter(p, xs))[x] == if p(x) then multiset(xs)[x] else 0
  {
    if xs != [] {
      FilterCounts(p, xs[1..], x);
      assert xs == [xs[0]] + xs[1..];
    }
  }

  /** `f` applied to the elements of `xs` that satisfy `p`, built element by element from the
      front as a loop over `xs` would. */
  function Project<T(!new), U>(p: T -> bool, f: T --> U, xs: seq<T>): seq<U>
    requires forall x :: p(x) ==> f.requires(x)
  {
    if xs == [] then []
    else
      var last := xs[|xs| - 1];
      Project(p, f, xs[..|xs| - 1]) + (if p(last) then [f(last)] else [])
  }

  /** The projection is `f` of the selection, element for element. */
  lemma {:induction false} ProjectOfFilter<T(!new), U>(p: T -> bool, f: T --> U, xs: seq<T>)
    requires forall x :: p(x) ==> f.requires(x)
    ensures var sel := Filter(p, xs);
            |Project(p, f, xs)| == |sel|
            && forall k :: 0 <= k < |sel| ==> Project(p, f, xs)[k] == f(sel[k])
  {
    if xs != [] {
      var prefix := xs[..|xs| - 1];
      var last := xs[|xs| - 1];
      ProjectOfFilter(p, f, prefix);
      assert xs == prefix + [last];
      FilterAppend(p, prefix, [last]);
      assert Filter(p, [last]) == if p(last) then [last] else [] by {
        assert [last][1..] == [];
      }
    }
  }
}
