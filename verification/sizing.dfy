/** The replica-sizing rule (`required`) and the clamp into the configured
    replica range (`bound`). */
module Sizing {
  import opened GoInt
  import opened Config

  /** How many samples are at least `bar`. */
  function CountAtLeast(samples: seq<int>, bar: int): (n: nat)
    ensures n <= |samples|
  {
    if |samples| == 0 then 0
    else (if samples[0] >= bar then 1 else 0) + CountAtLeast(samples[1..], bar)
  }

  /** How many samples `replicas` replicas of capacity `threshold` each
      cannot absorb: those of at least `replicas * threshold + 1`. */
  function Unabsorbed(samples: seq<int>, threshold: int, replicas: int): nat {
    CountAtLeast(samples, replicas * threshold + 1)
  }

  /** The number of samples that must fit: `len(samples) * coverage`,
      truncated toward zero as Go's float-to-int conversion does. */
  function Needed(n: nat, coverage: Ratio): int {
    Quot(n * coverage.num, coverage.den)
  }

  /** `replicas` is the least non-negative count that leaves fewer than
      `needed` samples unabsorbed. */
  ghost predicate IsLeastSufficient(samples: seq<int>, needed: int, threshold: int, replicas: int) {
    && replicas >= 0
    && Unabsorbed(samples, threshold, replicas) < needed
    && forall k :: 0 <= k < replicas ==> Unabsorbed(samples, threshold, k) >= needed
  }

  /** The largest sample, or 0 for none. */
  function Peak(samples: seq<int>): (m: int)
    ensures forall i :: 0 <= i < |samples| ==> samples[i] <= m
  {
    if |samples| == 0 then 0
    else
      var rest := Peak(samples[1..]);
      if samples[0] > rest then samples[0] else rest
  }

  /** A bar some sample reaches is at most the peak. */
  lemma {:induction false} CountBelowPeak(samples: seq<int>, bar: int)
    requires CountAtLeast(samples, bar) > 0
    ensures bar <= Peak(samples)
  {
    if samples[0] < bar {
      CountBelowPeak(samples[1..], bar);
    }
  }

  /** The search loop of `required`: tries `replicas`, `replicas + 1`, ...
      until one leaves fewer than `needed` samples unabsorbed. */
  function Search(samples: seq<int>, needed: int, threshold: int, replicas: nat): (r: nat)
    requires needed >= 1 && threshold >= 1
    requires forall k :: 0 <= k < replicas ==> Unabsorbed(samples, threshold, k) >= needed
    ensures replicas <= r
    ensures IsLeastSufficient(samples, needed, threshold, r)
    decreases Peak(samples) - replicas
  {
    if Unabsorbed(samples, threshold, replicas) < needed then replicas
    else
      CountBelowPeak(samples, replicas * threshold + 1);
      assert replicas <= replicas * threshold;
      Search(samples, needed, threshold, replicas + 1)
  }

  /** `required`: the sentinel -1 when the number of samples that must fit
      is not in 1..len(samples), and otherwise the least replica count that
      leaves fewer than that many samples above its capacity. */
  function Required(samples: seq<int>, coverage: Ratio, threshold: int): (r: int)
    requires threshold > 0
    ensures r == -1 <==> Needed(|samples|, coverage) <= 0 || Needed(|samples|, coverage) > |samples|
    ensures r != -1 ==> IsLeastSufficient(samples, Needed(|samples|, coverage), threshold, r)
  {
    var needed := Needed(|samples|, coverage);
    if needed <= 0 || needed > |samples| then -1
    else Search(samples, needed, threshold, 0)
  }

  /** `bound`: raise to `min` first, then lower to `max`. */
  function Bound(num: int, min: int, max: int): (r: int)
    ensures min <= max ==> min <= r <= max
    ensures min <= num <= max ==> r == num
    ensures num > max || min > max ==> r == max
    ensures num < min && min <= max ==> r == min
  {
    var n := if num < min then min else num;
    if n > max then max else n
  }

  /** At most one replica count is the least sufficient one. */
  lemma LeastSufficientUnique(samples: seq<int>, needed: int, threshold: int, a: int, b: int)
    requires IsLeastSufficient(samples, needed, threshold, a)
    requires IsLeastSufficient(samples, needed, threshold, b)
    ensures a == b
  {
  }

  lemma {:induction false} CountAppend(a: seq<int>, b: seq<int>, bar: int)
    ensures CountAtLeast(a + b, bar) == CountAtLeast(a, bar) + CountAtLeast(b, bar)
  {
    if |a| > 0 {
      assert (a + b)[0] == a[0];
      assert (a + b)[1..] == a[1..] + b;
      CountAppend(a[1..], b, bar);
    } else {
      assert a + b == b;
    }
  }

  /** Taking one sample out of a window removes it from the window's
      multiset and from every count it was in. */
  lemma RemoveAt(samples: seq<int>, j: int, bar: int)
    requires 0 <= j < |samples|
    ensures multiset(samples[..j] + samples[j + 1..]) == multiset(samples) - multiset{samples[j]}
    ensures CountAtLeast(samples, bar)
         == CountAtLeast(samples[..j] + samples[j + 1..], bar) + (if samples[j] >= bar then 1 else 0)
  {
    var front, back := samples[..j], samples[j + 1..];
    assert samples == front + ([samples[j]] + back);
    CountAppend(front, [samples[j]] + back, bar);
    CountAppend([samples[j]], back, bar);
    CountAppend(front, back, bar);
  }

  /** A value in a window's multiset sits at some index of it. */
  lemma IndexOf(samples: seq<int>, x: int) returns (j: int)
    requires x in multiset(samples)
    ensures 0 <= j < |samples| && samples[j] == x
  {
    assert x in samples;
    j :| 0 <= j < |samples| && samples[j] == x;
  }

  /** Counting ignores the order of the samples. */
  lemma {:induction false} CountPermutation(a: seq<int>, b: seq<int>, bar: int)
    requires multiset(a) == multiset(b)
    ensures CountAtLeast(a, bar) == CountAtLeast(b, bar)
    decreases |a|
  {
    if |a| == 0 {
      assert |b| == |multiset(b)| == 0;
    } else {
      var j := IndexOf(b, a[0]);
      RemoveAt(a, 0, bar);
      RemoveAt(b, j, bar);
      var a', b' := a[..0] + a[1..], b[..j] + b[j + 1..];
      assert multiset(a') == multiset(b');
      assert |a'| < |a|;
      CountPermutation(a', b', bar);
    }
  }

  /** The sizing result depends only on which sample values occur how
      often, not on their order in the window. */
  lemma RequiredPermutation(a: seq<int>, b: seq<int>, coverage: Ratio, threshold: int)
    requires threshold > 0
    requires multiset(a) == multiset(b)
    ensures Required(a, coverage, threshold) == Required(b, coverage, threshold)
  {
    assert |a| == |multiset(a)| == |multiset(b)| == |b|;
    var ra, rb := Required(a, coverage, threshold), Required(b, coverage, threshold);
    if ra != -1 {
      forall k ensures Unabsorbed(a, threshold, k) == Unabsorbed(b, threshold, k) {
        CountPermutation(a, b, k * threshold + 1);
      }
      LeastSufficientUnique(a, Needed(|a|, coverage), threshold, ra, rb);
    }
  }

  lemma {:induction false} CountMonotone(a: seq<int>, b: seq<int>, bar: int)
    requires |a| == |b|
    requires forall i :: 0 <= i < |a| ==> a[i] <= b[i]
    ensures CountAtLeast(a, bar) <= CountAtLeast(b, bar)
  {
    if |a| > 0 {
      CountMonotone(a[1..], b[1..], bar);
    }
  }

  /** A window whose every sample is at least as large never needs fewer
      replicas. */
  lemma RequiredMonotone(a: seq<int>, b: seq<int>, coverage: Ratio, threshold: int)
    requires threshold > 0
    requires |a| == |b|
    requires forall i :: 0 <= i < |a| ==> a[i] <= b[i]
    ensures Required(a, coverage, threshold) <= Required(b, coverage, threshold)
  {
    var ra, rb := Required(a, coverage, threshold), Required(b, coverage, threshold);
    if rb != -1 {
      CountMonotone(a, b, rb * threshold + 1);
      assert Unabsorbed(a, threshold, rb) < Needed(|a|, coverage);
    }
  }

  /** The result never exceeds what the largest sample needs: one replica
      fewer would still be overwhelmed by some sample. */
  lemma RequiredBelowPeak(samples: seq<int>, coverage: Ratio, threshold: int)
    requires threshold > 0
    ensures var r := Required(samples, coverage, threshold);
      r > 0 ==> (r - 1) * threshold < Peak(samples)
  {
    var r := Required(samples, coverage, threshold);
    if r > 0 {
      assert Unabsorbed(samples, threshold, r - 1) >= Needed(|samples|, coverage);
      CountBelowPeak(samples, (r - 1) * threshold + 1);
    }
  }

  /** Raising the bar never counts more samples. */
  lemma {:induction false} CountAntitone(samples: seq<int>, low: int, high: int)
    requires low <= high
    ensures CountAtLeast(samples, high) <= CountAtLeast(samples, low)
  {
    if |samples| > 0 {
      CountAntitone(samples[1..], low, high);
    }
  }

  /** Because more replicas never leave more samples unabsorbed, a count is
      the least sufficient one as soon as it suffices and one fewer does
      not. */
  lemma LeastSufficientAt(samples: seq<int>, needed: int, threshold: int, r: nat)
    requires threshold > 0
    requires Unabsorbed(samples, threshold, r) < needed
    requires r > 0 ==> Unabsorbed(samples, threshold, r - 1) >= needed
    ensures IsLeastSufficient(samples, needed, threshold, r)
  {
    forall k | 0 <= k < r
      ensures Unabsorbed(samples, threshold, k) >= needed
    {
      assert k * threshold <= (r - 1) * threshold;
      CountAntitone(samples, k * threshold + 1, (r - 1) * threshold + 1);
    }
  }

  /** A replica count shown least sufficient by hand is what `Required`
      returns. */
  lemma RequiredIs(samples: seq<int>, coverage: Ratio, threshold: int, r: nat)
    requires threshold > 0
    requires 0 < Needed(|samples|, coverage) <= |samples|
    requires Unabsorbed(samples, threshold, r) < Needed(|samples|, coverage)
    requires r > 0 ==> Unabsorbed(samples, threshold, r - 1) >= Needed(|samples|, coverage)
    ensures Required(samples, coverage, threshold) == r
  {
    LeastSufficientAt(samples, Needed(|samples|, coverage), threshold, r);
    LeastSufficientUnique(samples, Needed(|samples|, coverage), threshold,
                          Required(samples, coverage, threshold), r);
  }

  /** The sizing cases of the program's own unit tests, at coverage 0.7 and
      threshold 10, where no replica is needed: an idle window and one where
      too few samples carry load. */
  lemma RequiredIdleExamples()
    ensures Required([0, 0, 0, 0, 0, 0, 0, 0, 0, 0], Ratio(7, 10), 10) == 0
    ensures Required([0, 0, 0, 0, 0, 0, 0, 1, 1, 1], Ratio(7, 10), 10) == 0
  {
  }

  /** The low-line and spike cases of the program's own unit tests: a
      single replica suffices, as spikes too rare to count are ignored. */
  lemma RequiredOneReplicaExamples()
    ensures Required([0, 0, 0, 1, 1, 1, 1, 1, 1, 1], Ratio(7, 10), 10) == 1
    ensures Required([1, 90, 90, 10, 10, 1, 1, 1, 1, 1], Ratio(7, 10), 10) == 1
  {
  }

  /** The ramp cases of the program's own unit tests: the rising and the
      falling ramp size alike. */
  lemma RequiredRampExamples()
    ensures Required([0, 10, 20, 30, 40, 50, 60, 70, 80, 90], Ratio(7, 10), 10) == 3
    ensures Required([90, 80, 70, 60, 50, 40, 30, 20, 10, 0], Ratio(7, 10), 10) == 3
  {
    var c := Ratio(7, 10);
    assert Needed(10, c) == 7;
    var up := [0, 10, 20, 30, 40, 50, 60, 70, 80, 90];
    var down := [90, 80, 70, 60, 50, 40, 30, 20, 10, 0];
    assert CountAtLeast(up, 21) == 7;
    assert CountAtLeast(up, 31) == 6;
    RequiredIs(up, c, 10, 3);
    assert CountAtLeast(down, 21) == 7;
    assert CountAtLeast(down, 31) == 6;
    RequiredIs(down, c, 10, 3);
  }

  /** The sudden-jump case of the program's own unit tests. */
  lemma RequiredJumpExample()
    ensures Required([0, 0, 0, 60, 80, 90, 90, 90, 90, 90], Ratio(7, 10), 10) == 6
  {
    var c := Ratio(7, 10);
    assert Needed(10, c) == 7;
    var jump := [0, 0, 0, 60, 80, 90, 90, 90, 90, 90];
    assert CountAtLeast(jump, 51) == 7;
    assert CountAtLeast(jump, 61) == 6;
    RequiredIs(jump, c, 10, 6);
  }

  /** The clamp cases of the program's own unit tests, including the one
      where the ceiling wins over a floor above it. */
  lemma BoundExamples()
    ensures Bound(0, 0, 0) == 0
    ensures Bound(2, 0, 5) == 2
    ensures Bound(0, 1, 5) == 1
    ensures Bound(0, 1, 10) == 1
    ensures Bound(14, 1, 10) == 10
    ensures Bound(12, 20, 10) == 10
  {
  }

  /** Clamping an already clamped value changes nothing. */
  lemma BoundIdempotent(num: int, min: int, max: int)
    ensures Bound(Bound(num, min, max), min, max) == Bound(num, min, max)
  {
  }
}
