/** Keeping, in order, the results of the elements a partial function accepts:
    the shape of a loop whose body either appends one item or is skipped. */
module Filtering {
  import opened Wrappers

  /** The `Some` results of `f` over `xs`, in the order of `xs`. */
  function FilterMap<A, B>(f: A -> Option<B>, xs: seq<A>): (ys: seq<B>)
    ensures |ys| <= |xs|
  {
    if |xs| == 0 then []
    else
      var rest := FilterMap(f, xs[1..]);
      if f(xs[0]).Some? then [f(xs[0]).value] + rest else rest
  }

  /** Filtering distributes over concatenation. */
  lemma {:induction false} FilterMapAppend<A, B>(f: A -> Option<B>, front: seq<A>, back: seq<A>)
    ensures FilterMap(f, front + back) == FilterMap(f, front) + FilterMap(f, back)
  {
    if |front| == 0 {
      assert front + back == back;
    } else {
      assert (front + back)[0] == front[0];
      assert (front + back)[1..] == front[1..] + back;
      FilterMapAppend(f, front[1..], back);
    }
  }

  /** The filter of a single element is its result, if any. */
  lemma FilterMapSingle<A, B>(f: A -> Option<B>, x: A)
    ensures FilterMap(f, [x]) == if f(x).Some? then [f(x).value] else []
  {
    assert [x][1..] == [];
  }

  /** The filter of two elements is the filter of each, in order. */
  lemma FilterMapPair<A, B>(f: A -> Option<B>, x: A, y: A)
    ensures FilterMap(f, [x, y]) == FilterMap(f, [x]) + FilterMap(f, [y])
  {
    FilterMapAppend(f, [x], [y]);
    assert [x] + [y] == [x, y];
  }

  /** Filtering one more element appends its result, if any. */
  lemma FilterMapStep<A, B>(f: A -> Option<B>, xs: seq<A>, i: nat)
    requires i < |xs|
    ensures FilterMap(f, xs[..i + 1]) == FilterMap(f, xs[..i]) + (if f(xs[i]).Some? then [f(xs[i]).value] else [])
  {
    FilterMapAppend(f, xs[..i], [xs[i]]);
    FilterMapSingle(f, xs[i]);
    assert xs[..i + 1] == xs[..i] + [xs[i]];
  }

  /** The positions at or after `i` of the elements `f` accepts, in increasing order. */
  ghost function KeptFrom<A, B>(f: A -> Option<B>, xs: seq<A>, i: nat): seq<nat>
    decreases |xs| - i
  {
    if i >= |xs| then []
    else (if f(xs[i]).Some? then [i] else []) + KeptFrom(f, xs, i + 1)
  }

  /** Kept positions lie in `[i, |xs|)`. */
  lemma {:induction false} KeptFromBounds<A, B>(f: A -> Option<B>, xs: seq<A>, i: nat)
    ensures forall k :: 0 <= k < |KeptFrom(f, xs, i)| ==> i <= KeptFrom(f, xs, i)[k] < |xs|
    decreases |xs| - i
  {
    if i < |xs| {
      KeptFromBounds(f, xs, i + 1);
    }
  }

  /** Kept positions strictly increase. */
  lemma {:induction false} KeptFromIncreasing<A, B>(f: A -> Option<B>, xs: seq<A>, i: nat)
    ensures forall k, l :: 0 <= k < l < |KeptFrom(f, xs, i)| ==> KeptFrom(f, xs, i)[k] < KeptFrom(f, xs, i)[l]
    decreases |xs| - i
  {
    if i < |xs| {
      KeptFromIncreasing(f, xs, i + 1);
      KeptFromBounds(f, xs, i + 1);
      var kept := KeptFrom(f, xs, i + 1);
      if f(xs[i]).Some? {
        var all := [i] + kept;
        assert KeptFrom(f, xs, i) == all;
        forall k, l | 0 <= k < l < |all| ensures all[k] < all[l] {
          assert all[l] == kept[l - 1] >= i + 1;
          if k > 0 {
            assert all[k] == kept[k - 1];
          }
        }
      }
    }
  }

  /** A position at or after `i` is kept exactly when `f` accepts its element. */
  lemma {:induction false} KeptFromMembers<A, B>(f: A -> Option<B>, xs: seq<A>, i: nat)
    ensures forall j :: i <= j < |xs| ==> (j in KeptFrom(f, xs, i) <==> f(xs[j]).Some?)
    decreases |xs| - i
  {
    if i < |xs| {
      KeptFromMembers(f, xs, i + 1);
      KeptFromBounds(f, xs, i + 1);
      var kept := KeptFrom(f, xs, i + 1);
      assert i !in kept;
      if f(xs[i]).Some? {
        assert KeptFrom(f, xs, i) == [i] + kept;
      } else {
        assert KeptFrom(f, xs, i) == kept;
      }
    }
  }

  /** The k-th kept position holds the k-th output of the filter over the suffix. */
  lemma {:induction false} KeptFromResults<A, B>(f: A -> Option<B>, xs: seq<A>, i: nat)
    requires i <= |xs|
    ensures var kept := KeptFrom(f, xs, i);
            var out := FilterMap(f, xs[i..]);
            && |kept| == |out|
            && (forall k :: 0 <= k < |kept| ==> 0 <= kept[k] < |xs| && f(xs[kept[k]]) == Some(out[k]))
    decreases |xs| - i
  {
    if i < |xs| {
      KeptFromResults(f, xs, i + 1);
      FilterMapFrom(f, xs, i);
      var kept, out := KeptFrom(f, xs, i + 1), FilterMap(f, xs[i + 1..]);
      if f(xs[i]).Some? {
        assert KeptFrom(f, xs, i) == [i] + kept;
        assert FilterMap(f, xs[i..]) == [f(xs[i]).value] + out;
      } else {
        assert KeptFrom(f, xs, i) == kept;
        assert FilterMap(f, xs[i..]) == out;
      }
    }
  }

  /** The filter over a suffix starting at `i`: the result at `i`, if any, then the rest. */
  lemma FilterMapFrom<A, B>(f: A -> Option<B>, xs: seq<A>, i: nat)
    requires i < |xs|
    ensures FilterMap(f, xs[i..]) == (if f(xs[i]).Some? then [f(xs[i]).value] else []) + FilterMap(f, xs[i + 1..])
  {
    assert xs[i..][0] == xs[i];
    assert xs[i..][1..] == xs[i + 1..];
  }

  /** The output is the subsequence of results at the accepted positions, in
      increasing position order, and a position is kept exactly when `f` accepts it. */
  lemma FilterMapIsOrderedSubsequence<A, B>(f: A -> Option<B>, xs: seq<A>)
    ensures var kept := KeptFrom(f, xs, 0);
            && |kept| == |FilterMap(f, xs)|
            && (forall k :: 0 <= k < |kept| ==> kept[k] < |xs| && f(xs[kept[k]]) == Some(FilterMap(f, xs)[k]))
            && (forall k, l :: 0 <= k < l < |kept| ==> kept[k] < kept[l])
            && (forall j :: 0 <= j < |xs| ==> (j in kept <==> f(xs[j]).Some?))
  {
    KeptFromBounds(f, xs, 0);
    KeptFromIncreasing(f, xs, 0);
    KeptFromMembers(f, xs, 0);
    KeptFromResults(f, xs, 0);
    assert xs[0..] == xs;
  }
}
