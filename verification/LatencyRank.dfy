/** Nearest-rank percentiles, and the measurement built from them
    (src/researchctl/benchmarks.py). Durations are real numbers and percentiles exact fractions;
    the final rounding of both is left out. */
module LatencyRank {
  import opened Wrappers

  // ----- Sorting -----

  predicate Ascending(s: seq<real>) {
    forall i, j :: 0 <= i < j < |s| ==> s[i] <= s[j]
  }

  function Insert(s: seq<real>, x: real): (t: seq<real>)
    ensures multiset(t) == multiset(s) + multiset{x}
  {
    if s == [] then [x]
    else if x <= s[0] then [x] + s
    else
      assert s == [s[0]] + s[1..];
      [s[0]] + Insert(s[1..], x)
  }

  function Sorted(s: seq<real>): (t: seq<real>)
    ensures multiset(t) == multiset(s) && |t| == |s|
  {
    if s == [] then []
    else
      assert s == [s[0]] + s[1..];
      assert |multiset(Insert(Sorted(s[1..]), s[0]))| == |multiset(s)|;
      Insert(Sorted(s[1..]), s[0])
  }

  lemma {:induction false} InsertAscends(s: seq<real>, x: real)
    requires Ascending(s)
    ensures Ascending(Insert(s, x))
  {
    if s != [] && x > s[0] {
      InsertAscends(s[1..], x);
      var t := Insert(s[1..], x);
      forall j | 0 <= j < |t| ensures s[0] <= t[j] {
        assert t[j] in multiset(s[1..]) + multiset{x};
      }
    }
  }

  lemma {:induction false} SortedAscends(s: seq<real>)
    ensures Ascending(Sorted(s))
  {
    if s != [] {
      SortedAscends(s[1..]);
      InsertAscends(Sorted(s[1..]), s[0]);
    }
  }

  lemma SameLeast(s: seq<real>, t: seq<real>)
    requires Ascending(s) && Ascending(t) && multiset(s) == multiset(t) && s != []
    ensures t != [] && s[0] == t[0] && multiset(s[1..]) == multiset(t[1..])
  {
    assert s[0] in multiset(t);
    assert t[0] in multiset(s);
    assert s[0] == t[0];
    assert s == [s[0]] + s[1..] && t == [t[0]] + t[1..];
    assert multiset(s[1..]) == multiset(s) - multiset{s[0]} == multiset(t) - multiset{t[0]} == multiset(t[1..]);
  }

  lemma {:induction false} AscendingIsUnique(s: seq<real>, t: seq<real>)
    requires Ascending(s) && Ascending(t) && multiset(s) == multiset(t)
    ensures s == t
  {
    assert |s| == |multiset(s)| == |multiset(t)| == |t|;
    if s != [] {
      SameLeast(s, t);
      AscendingIsUnique(s[1..], t[1..]);
    }
  }

  // ----- Counting -----

  function AtMost(s: seq<real>, v: real): nat {
    if s == [] then 0 else AtMost(s[1..], v) + if s[0] <= v then 1 else 0
  }

  function Below(s: seq<real>, v: real): nat {
    if s == [] then 0 else Below(s[1..], v) + if s[0] < v then 1 else 0
  }

  lemma {:induction false} CountsOfInsert(s: seq<real>, x: real, v: real)
    ensures AtMost(Insert(s, x), v) == AtMost(s, v) + if x <= v then 1 else 0
    ensures Below(Insert(s, x), v) == Below(s, v) + if x < v then 1 else 0
  {
    if s != [] {
      if x <= s[0] {
        assert ([x] + s)[1..] == s;
      } else {
        CountsOfInsert(s[1..], x, v);
        assert Insert(s, x)[1..] == Insert(s[1..], x);
      }
    }
  }

  lemma {:induction false} CountsOfSorted(s: seq<real>, v: real)
    ensures AtMost(Sorted(s), v) == AtMost(s, v) && Below(Sorted(s), v) == Below(s, v)
  {
    if s != [] {
      CountsOfSorted(s[1..], v);
      CountsOfInsert(Sorted(s[1..]), s[0], v);
    }
  }

  /** In an ascending sequence the value at k is reached by the first k + 1 at least, and
      undercut by k at most. */
  lemma {:induction false} CountsAscending(s: seq<real>, k: nat, v: real)
    requires Ascending(s) && k < |s|
    ensures s[k] <= v ==> AtMost(s, v) >= k + 1
    ensures s[k] >= v ==> Below(s, v) <= k
    ensures s[k] > v ==> AtMost(s, v) <= k
    ensures s[k] < v ==> Below(s, v) >= k + 1
  {
    if k == 0 {
      if s[0] >= v {
        NoneBelow(s, v);
      }
    } else {
      CountsAscending(s[1..], k - 1, v);
    }
  }

  lemma {:induction false} NoneBelow(s: seq<real>, v: real)
    requires forall i :: 0 <= i < |s| ==> s[i] >= v
    ensures Below(s, v) == 0
    ensures (forall i :: 0 <= i < |s| ==> s[i] > v) ==> AtMost(s, v) == 0
  {
    if s != [] {
      NoneBelow(s[1..], v);
    }
  }

  // ----- The nearest rank -----

  function CeilingOf(a: nat, b: nat): (q: nat)
    requires b > 0
    ensures q * b >= a && (a > 0 ==> q >= 1 && (q - 1) * b < a)
  {
    (a + b - 1) / b
  }

  function Rank(n: nat, num: nat, den: nat): (rank: nat)
    requires n > 0 && 0 < num <= den
    ensures 1 <= rank <= n
    ensures rank * den >= num * n > (rank - 1) * den
  {
    assert num * n > 0;
    var ceiling := CeilingOf(num * n, den);
    assert ceiling <= n by {
      if ceiling > n {
        Monotone(n, ceiling - 1, den);
        Monotone(num, den, n);
      }
    }
    if 1 >= ceiling then 1 else ceiling
  }

  lemma Monotone(a: nat, b: nat, c: nat)
    requires a <= b
    ensures a * c <= b * c
  {
  }

  /** `_nearest_rank` for the percentile num/den; None when there are no samples. */
  function NearestRank(samples: seq<real>, num: nat, den: nat): Option<real>
    requires 0 < num <= den
  {
    if samples == [] then None
    else Some(Sorted(samples)[Rank(|samples|, num, den) - 1])
  }

  /** v is a sample, at least p of all samples are at most v, and fewer than p are below it. */
  ghost predicate IsPercentile(samples: seq<real>, num: nat, den: nat, v: real) {
    && v in samples
    && AtMost(samples, v) * den >= num * |samples|
    && Below(samples, v) * den < num * |samples|
  }

  /** MAIN: the nearest rank is the one sample that is the percentile. */
  lemma NearestRankIff(samples: seq<real>, num: nat, den: nat, v: real)
    requires samples != [] && 0 < num <= den
    ensures IsPercentile(samples, num, den, v) <==> NearestRank(samples, num, den) == Some(v)
  {
    var t, n := Sorted(samples), |samples|;
    hide Sorted, Ascending, AtMost, Below, Rank;
    var rank := Rank(n, num, den);
    SortedAscends(samples);
    CountsOfSorted(samples, v);
    CountsAscending(t, rank - 1, v);
    if t[rank - 1] == v {
      assert v in multiset(samples);
      Monotone(rank, AtMost(samples, v), den);
      Monotone(Below(samples, v), rank - 1, den);
    } else if t[rank - 1] > v {
      Monotone(AtMost(samples, v), rank - 1, den);
    } else {
      Monotone(rank, Below(samples, v), den);
    }
  }

  /** MAIN: the order of the samples does not matter. */
  lemma NearestRankOfPermutation(a: seq<real>, b: seq<real>, num: nat, den: nat)
    requires multiset(a) == multiset(b) && 0 < num <= den
    ensures NearestRank(a, num, den) == NearestRank(b, num, den)
  {
    hide Sorted, Rank;
    SortedAlike(a, b);
  }

  lemma SortedAlike(a: seq<real>, b: seq<real>)
    requires multiset(a) == multiset(b)
    ensures Sorted(a) == Sorted(b) && |a| == |b|
  {
    hide *;
    SortedAscends(a);
    SortedAscends(b);
    AscendingIsUnique(Sorted(a), Sorted(b));
    assert |a| == |Sorted(a)| == |Sorted(b)| == |b|;
  }

  /** MAIN: a higher percentile is no smaller. */
  lemma NearestRankIsMonotone(samples: seq<real>, num: nat, more: nat, den: nat)
    requires samples != [] && 0 < num <= more <= den
    ensures NearestRank(samples, num, den).value <= NearestRank(samples, more, den).value
  {
    SortedAscends(samples);
    var low, high := Rank(|samples|, num, den), Rank(|samples|, more, den);
    Monotone(num, more, |samples|);
    if low > high {
      Monotone(high, low - 1, den);
    }
  }

  // ----- A measurement -----

  datatype Measurement = Measurement(
    sampleCount: nat, successful: nat, failures: nat, p50: Option<real>, p95: Option<real>, p99: Option<real>)
  {
    /** What `__post_init__` lets through. */
    predicate Valid() {
      && sampleCount >= 1
      && successful + failures == sampleCount
      && (if successful == 0 then p50.None? && p95.None? && p99.None?
          else p50.Some? && p95.Some? && p99.Some? && 0.0 <= p50.value <= p95.value <= p99.value)
    }
  }

  /** One timed call: the two readings of the timer, and whether operation and validator passed. */
  datatype Sample = Sample(startedNs: int, finishedNs: int, operationPassed: bool, validatorPassed: bool)

  predicate Succeeds(s: Sample) {
    s.operationPassed && s.validatorPassed
  }

  function Durations(samples: seq<Sample>): (ds: seq<real>)
    ensures |ds| <= |samples|
  {
    if samples == [] then []
    else
      var last := samples[|samples| - 1];
      Durations(samples[..|samples| - 1])
      + if Succeeds(last) then [Milliseconds(last)] else []
  }

  function Milliseconds(s: Sample): real {
    (s.finishedNs - s.startedNs) as real / 1000000.0
  }

  /** The call counts, and took d milliseconds: operation and validator passed. */
  ghost predicate Took(s: Sample, d: real) {
    s.operationPassed && s.validatorPassed && d * 1000000.0 == (s.finishedNs - s.startedNs) as real
  }

  ghost function Taking(samples: seq<Sample>, d: real): set<int> {
    set i | 0 <= i < |samples| && Took(samples[i], d)
  }

  /** MAIN: a duration is counted as often as a call that passed took it, in milliseconds. */
  lemma {:induction false} DurationsMean(samples: seq<Sample>, d: real)
    ensures multiset(Durations(samples))[d] == |Taking(samples, d)|
  {
    hide *;
    if samples == [] {
      NoDurations(d);
    } else {
      var before, last := samples[..|samples| - 1], samples[|samples| - 1];
      DurationsMean(before, d);
      OneDuration(last, d);
      DurationsStep(samples);
      TakingStep(samples, d);
    }
  }

  lemma NoDurations(d: real)
    ensures Durations([]) == [] && Taking([], d) == {}
  {
  }

  lemma DurationsStep(samples: seq<Sample>)
    requires samples != []
    ensures var last := samples[|samples| - 1];
      multiset(Durations(samples)) ==
        multiset(Durations(samples[..|samples| - 1])) + multiset(if Succeeds(last) then [Milliseconds(last)] else [])
  {
    hide Milliseconds;
  }

  lemma TakingStep(samples: seq<Sample>, d: real)
    requires samples != []
    ensures var n := |samples| - 1;
      |Taking(samples, d)| == |Taking(samples[..n], d)| + if Took(samples[n], d) then 1 else 0
  {
    hide Took;
    var n := |samples| - 1;
    var before := samples[..n];
    assert forall i :: 0 <= i < n ==> before[i] == samples[i];
    assert Taking(samples, d) == Taking(before, d) + if Took(samples[n], d) then {n} else {};
  }

  lemma OneDuration(s: Sample, d: real)
    ensures multiset(if Succeeds(s) then [Milliseconds(s)] else [])[d] == if Took(s, d) then 1 else 0
  {
  }

  /** MAIN: `_measure` fails only when the timer moved backwards or nothing was to be measured;
      otherwise it builds a measurement that passes its own validation. */
  method Measure(samples: seq<Sample>) returns (o: Option<Measurement>)
    ensures o.None? <==> samples == [] || exists s <- samples :: s.finishedNs < s.startedNs
    ensures o.Some? ==> o.value.Valid() && o.value.sampleCount == |samples|
    ensures o.Some? ==> var ds := Durations(samples);
      && o.value.successful == |ds|
      && o.value.p50 == NearestRank(ds, 50, 100) && o.value.p95 == NearestRank(ds, 95, 100) &&
        o.value.p99 == NearestRank(ds, 99, 100)
  {
    hide NearestRank;
    var elapsed: seq<real> := [];
    var failures := 0;
    for i := 0 to |samples|
      invariant elapsed == Durations(samples[..i]) && |elapsed| + failures == i
      invariant forall d <- elapsed :: d >= 0.0
      invariant forall k :: 0 <= k < i ==> samples[k].finishedNs >= samples[k].startedNs
    {
      var s := samples[i];
      assert samples[..i + 1][..i] == samples[..i];
      if !s.operationPassed {
        failures := failures + 1;
      }
      var duration := s.finishedNs - s.startedNs;
      if duration < 0 {
        return None;
      }
      if s.operationPassed {
        if !s.validatorPassed {
          failures := failures + 1;
        } else {
          elapsed := elapsed + [duration as real / 1000000.0];
        }
      }
    }
    assert samples[..|samples|] == samples;
    if |samples| < 1 {
      return None;
    }
    PercentilesAreInOrder(elapsed);
    return Some(Measurement(|samples|, |elapsed|, failures,
                            NearestRank(elapsed, 50, 100), NearestRank(elapsed, 95, 100),
                              NearestRank(elapsed, 99, 100)));
  }

  lemma PercentilesAreInOrder(ds: seq<real>)
    requires forall d <- ds :: d >= 0.0
    ensures var p50, p95, p99 := NearestRank(ds, 50, 100), NearestRank(ds, 95, 100), NearestRank(ds, 99, 100);
      if ds == [] then p50.None? && p95.None? && p99.None?
      else p50.Some? && p95.Some? && p99.Some? && 0.0 <= p50.value <= p95.value <= p99.value
  {
    if ds != [] {
      NearestRankIsMonotone(ds, 50, 95, 100);
      NearestRankIsMonotone(ds, 95, 99, 100);
      NearestRankIff(ds, 50, 100, NearestRank(ds, 50, 100).value);
    }
  }
}
