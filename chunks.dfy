/**
 Sequences of chunks: the samples they hold in order, and the chunks that
 survive a series of drop-or-keep decisions.
 */
module Chunks {

  /** The samples of `chunks`, chunk after chunk: what extending a buffer with
      each chunk in turn appends to it. */
  function Flatten<T>(chunks: seq<seq<T>>): seq<T>
    decreases |chunks|
  {
    if chunks == [] then [] else chunks[0] + Flatten(chunks[1..])
  }

  lemma {:induction false} FlattenAppend<T>(a: seq<seq<T>>, b: seq<seq<T>>)
    ensures Flatten(a + b) == Flatten(a) + Flatten(b)
    decreases |a|
  {
    if a == [] {
      assert a + b == b;
    } else {
      assert (a + b)[0] == a[0];
      assert (a + b)[1..] == a[1..] + b;
      FlattenAppend(a[1..], b);
    }
  }

  /** Pulling one more chunk off the front extends the flattened prefix by that chunk. */
  lemma FlattenPrefixStep<T>(q: seq<seq<T>>, k: nat)
    requires k < |q|
    ensures Flatten(q[..k + 1]) == Flatten(q[..k]) + q[k]
  {
    assert q[..k + 1] == q[..k] + [q[k]];
    FlattenAppend(q[..k], [q[k]]);
    assert Flatten([q[k]]) == q[k] + Flatten([]);
  }

  /** A non-empty prefix of `q` flattens to its first chunk followed by the rest. */
  lemma FlattenPrefixHead<T>(q: seq<seq<T>>, j: nat)
    requires 0 < j <= |q|
    ensures Flatten(q[..j]) == q[0] + Flatten(q[1..][..j - 1])
  {
    assert q[..j][0] == q[0];
    assert q[..j][1..] == q[1..][..j - 1];
  }

  /** The elements of `xs` whose flag in `keep` is set, in their original order. */
  function Select<T>(xs: seq<T>, keep: seq<bool>): (r: seq<T>)
    requires |keep| == |xs|
    ensures |r| <= |xs|
    decreases |xs|
  {
    if xs == [] then []
    else
      var n := |xs| - 1;
      Select(xs[..n], keep[..n]) + (if keep[n] then [xs[n]] else [])
  }

  /** Selection neither invents nor duplicates: every selected element
      occurs in `xs` at least as often as in the selection. */
  lemma {:induction false} SelectFromSource<T>(xs: seq<T>, keep: seq<bool>)
    requires |keep| == |xs|
    ensures multiset(Select(xs, keep)) <= multiset(xs)
    decreases |xs|
  {
    if xs != [] {
      var n := |xs| - 1;
      SelectFromSource(xs[..n], keep[..n]);
      assert xs == xs[..n] + [xs[n]];
    }
  }

  /** Recording one more decision extends the selection at the back only. */
  lemma SelectSnoc<T>(xs: seq<T>, keep: seq<bool>, x: T, k: bool)
    requires |keep| == |xs|
    ensures Select(xs + [x], keep + [k]) == Select(xs, keep) + (if k then [x] else [])
  {
  }

  /** When nothing is dropped, the selection is the whole sequence. */
  lemma {:induction false} SelectAll<T>(xs: seq<T>, keep: seq<bool>)
    requires |keep| == |xs|
    requires forall i :: 0 <= i < |keep| ==> keep[i]
    ensures Select(xs, keep) == xs
    decreases |xs|
  {
    if xs != [] {
      var n := |xs| - 1;
      SelectAll(xs[..n], keep[..n]);
      assert xs[..n] + [xs[n]] == xs;
    }
  }
}
