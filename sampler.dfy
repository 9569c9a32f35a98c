/** Weighted random draws (rwg.py, and its copy `RandomWeightedGenerator`
    in neutral-model.py).

    The random numbers are parameters: `generate` receives the multinomial
    draw `samples` (how many times each index came up) and the indices
    `picks` that the Fisher–Yates shuffle chose; `old_generate` receives
    the uniform number `u` in [0, 1). */
module Sampler {
  import opened Collections

  /** `k` copies of `x`. */
  function Repeat(x: int, k: nat): (r: seq<int>)
    ensures |r| == k
    ensures forall j :: 0 <= j < k ==> r[j] == x
  {
    seq(k, _ => x)
  }

  /** The list `generate` builds before shuffling: index 0 `samples[0]` times,
      then index 1 `samples[1]` times, and so on. */
  function Expanded(samples: seq<nat>): seq<int>
  {
    if samples == [] then []
    else Expanded(samples[..|samples| - 1]) + Repeat(|samples| - 1, samples[|samples| - 1])
  }

  lemma {:induction false} RepeatCount(x: int, k: nat)
    ensures forall y :: multiset(Repeat(x, k))[y] == if y == x then k else 0
  {
    if k > 0 {
      assert Repeat(x, k) == Repeat(x, k - 1) + [x];
      RepeatCount(x, k - 1);
    } else {
      assert Repeat(x, k) == [];
    }
  }

  /** Index `i` occurs exactly `samples[i]` times in the expansion, and nothing
      else occurs in it. */
  lemma {:induction false} ExpandedCount(samples: seq<nat>)
    ensures forall y :: multiset(Expanded(samples))[y] ==
                        (if 0 <= y < |samples| then samples[y] else 0)
  {
    if samples != [] {
      var m := |samples| - 1;
      var init := samples[..m];
      ExpandedCount(init);
      RepeatCount(m, samples[m]);
      assert multiset(Expanded(samples)) == multiset(Expanded(init)) + multiset(Repeat(m, samples[m]));
      forall y
        ensures multiset(Expanded(samples))[y] == if 0 <= y < |samples| then samples[y] else 0
      {
        if 0 <= y < m {
          assert init[y] == samples[y];
        }
      }
    }
  }

  /** The expansion is `sum(samples)` long. */
  lemma {:induction false} ExpandedLength(samples: seq<nat>)
    ensures |Expanded(samples)| == Sum(samples)
  {
    if samples != [] {
      var m := |samples| - 1;
      ExpandedLength(samples[..m]);
      assert samples == samples[..m] + [samples[m]];
      SumAppend(samples[..m], samples[m]);
    }
  }

  /** `s` with the entries at `i` and `j` exchanged. */
  function Swap(s: seq<int>, i: nat, j: nat): (r: seq<int>)
    requires i < |s| && j < |s|
    ensures |r| == |s|
  {
    s[i := s[j]][j := s[i]]
  }

  /** Python's `shuffle`: for `i` from the last position down to 1, exchange
      position `i` with position `picks[i]`, where `0 <= picks[i] <= i`.
      `ShuffledFrom(s, picks, i)` performs the steps for `i`, `i - 1`, ..., 1. */
  function ShuffledFrom(s: seq<int>, picks: seq<nat>, i: int): (r: seq<int>)
    requires i < |s| && |picks| == |s|
    requires forall k :: 0 <= k < |picks| ==> picks[k] <= k
    ensures |r| == |s|
    decreases i
  {
    if i < 1 then s else ShuffledFrom(Swap(s, i, picks[i]), picks, i - 1)
  }

  /** Shuffling only reorders: every value keeps its number of occurrences. */
  lemma {:induction false} ShuffledFromPermutes(s: seq<int>, picks: seq<nat>, i: int)
    requires i < |s| && |picks| == |s|
    requires forall k :: 0 <= k < |picks| ==> picks[k] <= k
    ensures multiset(ShuffledFrom(s, picks, i)) == multiset(s)
    decreases i
  {
    if i >= 1 {
      SwapPermutes(s, i, picks[i]);
      ShuffledFromPermutes(Swap(s, i, picks[i]), picks, i - 1);
    }
  }

  lemma SwapPermutes(s: seq<int>, i: nat, j: nat)
    requires i < |s| && j < |s|
    ensures multiset(Swap(s, i, j)) == multiset(s)
  {
    var t := s[i := s[j]];
    assert multiset(t) == multiset(s) - multiset{s[i]} + multiset{s[j]};
    assert multiset(t[j := s[i]]) == multiset(t) - multiset{t[j]} + multiset{s[i]};
  }

  /** `shuffle(a)`, in place. */
  method Shuffle(a: array<int>, picks: seq<nat>)
    requires |picks| == a.Length
    requires forall k :: 0 <= k < |picks| ==> picks[k] <= k
    modifies a
    ensures a[..] == ShuffledFrom(old(a[..]), picks, a.Length - 1)
  {
    var i := a.Length - 1;
    while i >= 1
      invariant -1 <= i < a.Length
      invariant ShuffledFrom(a[..], picks, i) == ShuffledFrom(old(a[..]), picks, a.Length - 1)
      decreases i
    {
      var j := picks[i];
      assert a[..][i := a[j]][j := a[i]] == Swap(a[..], i, j);
      a[i], a[j] := a[j], a[i];
      i := i - 1;
    }
  }

  /** `generate(n, probs)`: a pool of `n` indices into `probs`, index `i`
      occurring exactly `samples[i]` times, where `samples` is the multinomial
      draw of `n` trials over `probs` (so an index of probability 0 never
      occurs), in the order the shuffle `picks` leaves them. */
  method Generate(n: nat, probs: seq<real>, samples: seq<nat>, picks: seq<nat>)
    returns (pool: seq<int>)
    requires |samples| == |probs| && Sum(samples) == n
    requires forall i :: 0 <= i < |probs| && probs[i] == 0.0 ==> samples[i] == 0
    requires |picks| == n && forall k :: 0 <= k < n ==> picks[k] <= k
    ensures |pool| == n
    ensures forall i :: 0 <= i < |probs| ==> multiset(pool)[i] == samples[i]
    ensures forall k :: 0 <= k < n ==> 0 <= pool[k] < |probs| && probs[pool[k]] != 0.0
  {
    var instances := Instances(samples);
    ExpandedLength(samples);
    ExpandedCount(samples);
    var a := new int[n](j requires 0 <= j < n => instances[j]);
    assert a[..] == instances;
    Shuffle(a, picks);
    ShuffledFromPermutes(instances, picks, n - 1);
    pool := a[..];
    forall k | 0 <= k < n
      ensures 0 <= pool[k] < |probs| && probs[pool[k]] != 0.0
    {
      assert pool[k] in multiset(pool);
    }
  }

  /** The first loop of `generate`: index `i` appended `samples[i]` times,
      for each `i` in turn. */
  method Instances(samples: seq<nat>) returns (instances: seq<int>)
    ensures instances == Expanded(samples)
  {
    instances := [];
    var i := 0;
    while i < |samples|
      invariant 0 <= i <= |samples|
      invariant instances == Expanded(samples[..i])
    {
      var k := 0;
      while k < samples[i]
        invariant 0 <= k <= samples[i]
        invariant instances == Expanded(samples[..i]) + Repeat(i, k)
      {
        assert Repeat(i, k + 1) == Repeat(i, k) + [i];
        instances := instances + [i];
        k := k + 1;
      }
      assert samples[..i + 1][..i] == samples[..i];
      i := i + 1;
    }
    assert samples[..|samples|] == samples;
  }

  /** Total of the first `i` weights. */
  function PrefixSum(w: seq<real>, i: nat): real
    requires i <= |w|
  {
    if i == 0 then 0.0 else PrefixSum(w, i - 1) + w[i - 1]
  }

  /** `r` is what `old_generate` answers for the threshold `x`: the first index
      whose running total of weights exceeds `x`, or `None` (Python's implicit
      `return None`) when no running total does. */
  ghost predicate IsFirstAbove(w: seq<real>, x: real, r: Option<nat>)
  {
    match r
    case Some(i) =>
      i < |w| && x < PrefixSum(w, i + 1) && forall j :: 1 <= j <= i ==> PrefixSum(w, j) <= x
    case None =>
      forall j :: 1 <= j <= |w| ==> PrefixSum(w, j) <= x
  }

  /** `old_generate(weights, sum)` with `random()` returning `u`. */
  method OldGenerate(weights: seq<real>, total: real, u: real) returns (r: Option<nat>)
    requires 0.0 <= u < 1.0
    ensures IsFirstAbove(weights, u * total, r)
  {
    var rnd := u * total;
    var i := 0;
    while i < |weights|
      invariant 0 <= i <= |weights|
      invariant rnd == u * total - PrefixSum(weights, i)
      invariant forall j :: 1 <= j <= i ==> PrefixSum(weights, j) <= u * total
    {
      rnd := rnd - weights[i];
      if rnd < 0.0 {
        return Some(i);
      }
      i := i + 1;
    }
    return None;
  }

  ghost predicate NonNegative(w: seq<real>)
  {
    forall i :: 0 <= i < |w| ==> 0.0 <= w[i]
  }

  lemma {:induction false} PrefixSumMonotone(w: seq<real>, i: nat, j: nat)
    requires NonNegative(w) && i <= j <= |w|
    ensures PrefixSum(w, i) <= PrefixSum(w, j)
    decreases j - i
  {
    if i < j {
      PrefixSumMonotone(w, i, j - 1);
    }
  }

  /** With non-negative weights `old_generate` inverts the cumulative
      distribution: it returns `i` exactly when the threshold falls in
      `[total of weights before i, total of weights up to i)`. */
  lemma {:induction false} FirstAboveInterval(w: seq<real>, x: real, i: nat)
    requires NonNegative(w) && 0.0 <= x
    ensures IsFirstAbove(w, x, Some(i)) <==>
      i < |w| && PrefixSum(w, i) <= x < PrefixSum(w, i + 1)
  {
    if i < |w| && PrefixSum(w, i) <= x < PrefixSum(w, i + 1) {
      forall j | 1 <= j <= i
        ensures PrefixSum(w, j) <= x
      {
        PrefixSumMonotone(w, j, i);
      }
    }
    if IsFirstAbove(w, x, Some(i)) && i > 0 {
      assert PrefixSum(w, i) <= x;
    }
  }

  /** With non-negative weights the fall-through `None` happens exactly when
      the threshold reaches the total weight; so with `sum` equal to the total
      of positive weights, and `u < 1`, `old_generate` always returns an index. */
  lemma {:induction false} FirstAboveNone(w: seq<real>, x: real)
    requires NonNegative(w) && 0.0 <= x
    ensures IsFirstAbove(w, x, None) <==> PrefixSum(w, |w|) <= x
  {
    if PrefixSum(w, |w|) <= x {
      forall j | 1 <= j <= |w|
        ensures PrefixSum(w, j) <= x
      {
        PrefixSumMonotone(w, j, |w|);
      }
    }
    if IsFirstAbove(w, x, None) && |w| > 0 {
      assert PrefixSum(w, |w|) <= x;
    }
  }

  /** With `sum` equal to the positive total weight of non-negative weights
      and `0 <= random() < 1`, `old_generate` always returns an index, and one
      of positive weight: the threshold `random() * sum` lies in `[0, sum)`. */
  lemma OldGenerateFindsIndex(w: seq<real>, u: real, total: real, r: Option<nat>)
    requires NonNegative(w) && 0.0 <= u < 1.0
    requires total == PrefixSum(w, |w|) && 0.0 < total
    requires IsFirstAbove(w, u * total, r)
    ensures r.Some? && r.value < |w| && 0.0 < w[r.value]
  {
    assert total - u * total == (1.0 - u) * total;
    assert 0.0 < (1.0 - u) * total;
    FirstAboveNone(w, u * total);
    var i := r.value;
    FirstAboveInterval(w, u * total, i);
    assert PrefixSum(w, i + 1) == PrefixSum(w, i) + w[i];
  }
}
