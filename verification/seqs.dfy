/** The one sequence shape both command-output parsers share: walk the
    lines in order and push a record for the lines that yield one. */
module Seqs {
  import opened Wrappers

  /** The values `f` produces, in the order of the elements producing them. */
  function FilterMap<A, B>(xs: seq<A>, f: A -> Option<B>): (ys: seq<B>)
    ensures |ys| <= |xs|
    decreases |xs|
  {
    if |xs| == 0 then []
    else
      var n := |xs| - 1;
      FilterMap(xs[..n], f) + (match f(xs[n]) case Some(y) => [y] case None => [])
  }

  /** The positions of `xs` at which `f` produces a value, ascending. */
  function Hits<A, B>(xs: seq<A>, f: A -> Option<B>): (idx: seq<nat>)
    ensures forall m :: 0 <= m < |idx| ==> idx[m] < |xs| && f(xs[idx[m]]).Some?
    ensures forall m, m' :: 0 <= m < m' < |idx| ==> idx[m] < idx[m']
    ensures forall j :: 0 <= j < |xs| && f(xs[j]).Some? ==> j in idx
    decreases |xs|
  {
    if |xs| == 0 then []
    else
      var n := |xs| - 1;
      var earlier := Hits(xs[..n], f);
      assert forall j :: 0 <= j < n ==> xs[..n][j] == xs[j];
      earlier + (if f(xs[n]).Some? then [n] else [])
  }

  /** FilterMap keeps exactly the values produced at the Hits positions:
      the i-th output comes from the i-th producing element. */
  lemma {:induction false} FilterMapHits<A, B>(xs: seq<A>, f: A -> Option<B>)
    ensures |FilterMap(xs, f)| == |Hits(xs, f)|
    ensures forall m :: 0 <= m < |Hits(xs, f)| ==> f(xs[Hits(xs, f)[m]]) == Some(FilterMap(xs, f)[m])
    decreases |xs|
  {
    if |xs| > 0 {
      var n := |xs| - 1;
      var init := xs[..n];
      FilterMapHits(init, f);
      var ys, hs := FilterMap(init, f), Hits(init, f);
      assert FilterMap(xs, f) == ys + (match f(xs[n]) case Some(y) => [y] case None => []);
      assert Hits(xs, f) == hs + (if f(xs[n]).Some? then [n] else []);
      forall m | 0 <= m < |Hits(xs, f)|
        ensures f(xs[Hits(xs, f)[m]]) == Some(FilterMap(xs, f)[m])
      {
        if m < |hs| {
          assert init[hs[m]] == xs[hs[m]];
        }
      }
    }
  }

  /** Records of earlier elements come before records of later ones. */
  lemma {:induction false} FilterMapAppend<A, B>(xs: seq<A>, ys: seq<A>, f: A -> Option<B>)
    ensures FilterMap(xs + ys, f) == FilterMap(xs, f) + FilterMap(ys, f)
    decreases |ys|
  {
    if |ys| == 0 {
      assert xs + ys == xs;
    } else {
      var n := |ys| - 1;
      var last := match f(ys[n]) case Some(y) => [y] case None => [];
      var a, b := FilterMap(xs, f), FilterMap(ys[..n], f);
      assert FilterMap(xs + ys, f) == (a + b) + last by {
        FilterMapAppend(xs, ys[..n], f);
        assert (xs + ys)[..|xs| + n] == xs + ys[..n];
        assert (xs + ys)[|xs| + n] == ys[n];
      }
      assert FilterMap(ys, f) == b + last;
      assert a + (b + last) == (a + b) + last;
    }
  }

  /** When `f` produces a value for every element, the result lists those
      values in order. */
  lemma {:induction false} FilterMapEvery<A, B>(xs: seq<A>, f: A -> Option<B>, ys: seq<B>)
    requires |xs| == |ys|
    requires forall m :: 0 <= m < |xs| ==> f(xs[m]) == Some(ys[m])
    ensures FilterMap(xs, f) == ys
    decreases |xs|
  {
    if |xs| > 0 {
      var n := |xs| - 1;
      FilterMapEvery(xs[..n], f, ys[..n]);
      assert ys == ys[..n] + [ys[n]];
    }
  }

  /** Dropping elements that `f` ignores anyway changes nothing. */
  lemma {:induction false} FilterMapAfterFilter<A, B>(xs: seq<A>, keep: A -> Option<A>, f: A -> Option<B>)
    requires forall x :: keep(x) == Some(x) || (keep(x).None? && f(x).None?)
    ensures FilterMap(FilterMap(xs, keep), f) == FilterMap(xs, f)
    decreases |xs|
  {
    if |xs| > 0 {
      var n := |xs| - 1;
      FilterMapAfterFilter(xs[..n], keep, f);
      var tail := match keep(xs[n]) case Some(y) => [y] case None => [];
      FilterMapAppend(FilterMap(xs[..n], keep), tail, f);
      if keep(xs[n]).Some? {
        assert FilterMap(tail, f) == FilterMap([] + tail, f);
        assert tail[..0] == [];
      }
    }
  }

  /** The last value FilterMap keeps comes from an element after which
      `f` produces nothing; it keeps nothing only when `f` never produces. */
  lemma {:induction false} FilterMapLast<A, B>(xs: seq<A>, f: A -> Option<B>)
    ensures FilterMap(xs, f) == [] <==> forall j :: 0 <= j < |xs| ==> f(xs[j]).None?
    ensures FilterMap(xs, f) != [] ==>
      exists j :: 0 <= j < |xs| && f(xs[j]) == Some(FilterMap(xs, f)[|FilterMap(xs, f)| - 1])
        && forall k :: j < k < |xs| ==> f(xs[k]).None?
    decreases |xs|
  {
    if |xs| > 0 {
      var n := |xs| - 1;
      FilterMapLast(xs[..n], f);
      assert forall j :: 0 <= j < n ==> xs[..n][j] == xs[j];
      if f(xs[n]).None? && FilterMap(xs[..n], f) != [] {
        var j :| 0 <= j < n && f(xs[..n][j]) == Some(FilterMap(xs[..n], f)[|FilterMap(xs[..n], f)| - 1])
          && forall k :: j < k < n ==> f(xs[..n][k]).None?;
        assert f(xs[j]) == Some(FilterMap(xs, f)[|FilterMap(xs, f)| - 1]);
      }
    }
  }

  /** The position the last kept value comes from. */
  lemma FilterMapLastAt<A, B>(xs: seq<A>, f: A -> Option<B>) returns (j: nat)
    requires FilterMap(xs, f) != []
    ensures j < |xs| && f(xs[j]) == Some(FilterMap(xs, f)[|FilterMap(xs, f)| - 1])
    ensures forall k :: j < k < |xs| ==> f(xs[k]).None?
  {
    FilterMapLast(xs, f);
    j :| 0 <= j < |xs| && f(xs[j]) == Some(FilterMap(xs, f)[|FilterMap(xs, f)| - 1])
      && forall k :: j < k < |xs| ==> f(xs[k]).None?;
  }
}
