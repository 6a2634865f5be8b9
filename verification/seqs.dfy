/** Sequence transformations shared by the attachment and dispatch models. */
module Seqs {
  import opened Wrappers

  /** Applies `f` to every element and keeps the `Some` results, in order. */
  function FilterMap<A, B>(f: A -> Option<B>, xs: seq<A>): (ys: seq<B>)
    ensures |ys| <= |xs|
  {
    if |xs| == 0 then []
    else
      match f(xs[0])
      case Some(y) => [y] + FilterMap(f, xs[1..])
      case None => FilterMap(f, xs[1..])
  }

  /** Concatenation is associative. */
  lemma AppendAssoc<T>(a: seq<T>, b: seq<T>, c: seq<T>)
    ensures a + (b + c) == (a + b) + c
  {
  }

  /** One step of `FilterMap`: the first element contributes its `Some` value, if any. */
  lemma FilterMapStep<A, B>(f: A -> Option<B>, xs: seq<A>)
    requires |xs| > 0
    ensures FilterMap(f, xs) == (if f(xs[0]).Some? then [f(xs[0]).value] else []) + FilterMap(f, xs[1..])
  {
  }

  /** The step of a loop that computes `FilterMap` front to back, keeping the result so far in `out`. */
  lemma FilterMapLoopStep<A, B>(f: A -> Option<B>, xs: seq<A>, i: nat, out: seq<B>)
    requires i < |xs|
    requires out + FilterMap(f, xs[i..]) == FilterMap(f, xs)
    ensures (out + (if f(xs[i]).Some? then [f(xs[i]).value] else [])) + FilterMap(f, xs[i + 1..]) == FilterMap(f, xs)
  {
    FilterMapStep(f, xs[i..]);
    assert xs[i..][1..] == xs[i + 1..];
    AppendAssoc(out, if f(xs[i]).Some? then [f(xs[i]).value] else [], FilterMap(f, xs[i + 1..]));
  }

  /** A loop over `xs` that pushes the `Some` value of each element, if any, onto `out`. */
  method FilterMapLoop<A, B>(f: A -> Option<B>, xs: seq<A>) returns (out: seq<B>)
    ensures out == FilterMap(f, xs)
  {
    out := [];
    var i := 0;
    while i < |xs|
      invariant 0 <= i <= |xs|
      invariant out + FilterMap(f, xs[i..]) == FilterMap(f, xs)
    {
      var entry := f(xs[i]);
      FilterMapLoopStep(f, xs, i, out);
      if entry.Some? {
        out := out + [entry.value];
      } else {
        assert out + [] == out;
      }
      i := i + 1;
    }
    assert xs[i..] == [];
  }

  /** The positions `i` with `from <= i < |xs|` where `f` gives `Some`, in increasing order. */
  function Hits<A, B>(f: A -> Option<B>, xs: seq<A>, from: nat): (idx: seq<nat>)
    requires from <= |xs|
    ensures forall k :: 0 <= k < |idx| ==> from <= idx[k] < |xs|
    ensures forall k, m :: 0 <= k < m < |idx| ==> idx[k] < idx[m]
    ensures forall i :: from <= i < |xs| ==> (i in idx <==> f(xs[i]).Some?)
    decreases |xs| - from
  {
    if from == |xs| then []
    else if f(xs[from]).Some? then [from] + Hits(f, xs, from + 1)
    else Hits(f, xs, from + 1)
  }

  /** The `k`-th output of `FilterMap` on `xs[from..]` is the value at the `k`-th hit. */
  lemma {:induction false} HitsMatchOutput<A, B>(f: A -> Option<B>, xs: seq<A>, from: nat)
    requires from <= |xs|
    ensures var idx, ys := Hits(f, xs, from), FilterMap(f, xs[from..]);
            && |idx| == |ys|
            && forall k :: 0 <= k < |idx| ==> f(xs[idx[k]]) == Some(ys[k])
    decreases |xs| - from
  {
    if from < |xs| {
      HitsMatchOutput(f, xs, from + 1);
      FilterMapStep(f, xs[from..]);
      assert xs[from..][1..] == xs[from + 1..];
      var idx, ys := Hits(f, xs, from + 1), FilterMap(f, xs[from + 1..]);
      if f(xs[from]).Some? {
        ConsMatch(f, xs, from, idx, ys);
      }
    }
  }

  lemma ConsMatch<A, B>(f: A -> Option<B>, xs: seq<A>, from: nat, idx: seq<nat>, ys: seq<B>)
    requires from < |xs| && f(xs[from]).Some?
    requires |idx| == |ys| && forall k :: 0 <= k < |idx| ==> idx[k] < |xs| && f(xs[idx[k]]) == Some(ys[k])
    ensures var idx', ys' := [from] + idx, [f(xs[from]).value] + ys;
            forall k :: 0 <= k < |idx'| ==> idx'[k] < |xs| && f(xs[idx'[k]]) == Some(ys'[k])
  {
    var idx', ys' := [from] + idx, [f(xs[from]).value] + ys;
    forall k | 0 <= k < |idx'| ensures idx'[k] < |xs| && f(xs[idx'[k]]) == Some(ys'[k]) {
      if k > 0 {
        assert idx'[k] == idx[k - 1] && ys'[k] == ys[k - 1];
      }
    }
  }

  /**
   `FilterMap` keeps order and drops nothing it should keep: its output embeds
   into its input by a strictly increasing index map whose image is exactly
   the positions where `f` gives `Some`.
   */
  lemma FilterMapEmbedding<A, B>(f: A -> Option<B>, xs: seq<A>) returns (idx: seq<nat>)
    ensures var ys := FilterMap(f, xs);
            && |idx| == |ys|
            && (forall k :: 0 <= k < |idx| ==> idx[k] < |xs| && f(xs[idx[k]]) == Some(ys[k]))
            && (forall k, m :: 0 <= k < m < |idx| ==> idx[k] < idx[m])
            && (forall i :: 0 <= i < |xs| ==> (i in idx <==> f(xs[i]).Some?))
  {
    idx := Hits(f, xs, 0);
    HitsMatchOutput(f, xs, 0);
    assert xs[0..] == xs;
  }
}
