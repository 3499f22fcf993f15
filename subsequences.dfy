/**
 * Order-preserving subsequences, shared by the scripts and the handler: a list built by
 * walking an input once and appending some of its elements is a subsequence of it.
 */
module Subsequences {
  /** `a` is `b` with some elements left out, the rest in their order. */
  ghost predicate IsSubsequence<T>(a: seq<T>, b: seq<T>)
    decreases |b|
  {
    if a == [] then true
    else if b == [] then false
    else if a[|a| - 1] == b[|b| - 1] then IsSubsequence(a[..|a| - 1], b[..|b| - 1])
    else IsSubsequence(a, b[..|b| - 1])
  }

  lemma {:induction false} SubsequenceExtend<T>(a: seq<T>, b: seq<T>, x: T)
    requires IsSubsequence(a, b)
    ensures IsSubsequence(a, b + [x])
    decreases |b|, 2
  {
    if a != [] {
      assert (b + [x])[..|b|] == b;
      if a[|a| - 1] == x {
        SubsequenceInit(a, b);
      }
    }
  }

  lemma {:induction false} SubsequenceInit<T>(a: seq<T>, b: seq<T>)
    requires a != [] && IsSubsequence(a, b)
    ensures IsSubsequence(a[..|a| - 1], b)
    decreases |b|, 1
  {
    var b', y := b[..|b| - 1], b[|b| - 1];
    assert b' + [y] == b;
    if a[|a| - 1] != y {
      SubsequenceInit(a, b');
    }
    SubsequenceExtend(a[..|a| - 1], b', y);
  }

  /** Keeping or dropping one more element keeps the kept elements a subsequence. */
  lemma SubsequenceStep<T>(kept: seq<T>, init: seq<T>, x: T, out: seq<T>)
    requires IsSubsequence(kept, init)
    requires out == kept || out == kept + [x]
    ensures IsSubsequence(out, init + [x])
  {
    if out == kept {
      SubsequenceExtend(kept, init, x);
    } else {
      assert (kept + [x])[..|kept|] == kept;
      assert (init + [x])[..|init|] == init;
    }
  }
}
