/**
 * The interpolation engine: given one curve's temperatures and distances,
 * the downwind distance at which a target temperature is reached.
 *
 * The engine is a pure decision procedure: a length guard, a joint sort by
 * temperature (hottest first), a range test, and a dispatch to linear,
 * nearest-neighbour or spline interpolation. Temperatures and distances are
 * exact reals. The spline fits belong to a numerical library and are a
 * parameter (`Fitter`); only the fallback to linear interpolation when too
 * few samples are present is modelled.
 */
module Interpolation {
  import opened Wrappers
  import opened Types

  /** The two kinds of spline fit the engine asks the numerical library for. */
  datatype SplineKind = CubicKind | QuadraticKind

  /**
   * A spline fit through the samples (temperatures hottest first, their
   * distances) evaluated at the target; `None` where the fit yields NaN.
   */
  type Fitter = (SplineKind, seq<real>, seq<real>, real) -> Option<real>

  function Abs(x: real): real
  {
    if x < 0.0 then -x else x
  }

  /** `v` lies on the closed segment between `a` and `b`. */
  predicate Between(v: real, a: real, b: real)
  {
    (a <= v <= b) || (b <= v <= a)
  }

  predicate NonIncreasing(s: seq<real>)
  {
    forall a, b :: 0 <= a < b < |s| ==> s[a] >= s[b]
  }

  predicate NonDecreasing(s: seq<real>)
  {
    forall a, b :: 0 <= a < b < |s| ==> s[a] <= s[b]
  }

  /** No two samples share a temperature. */
  predicate Distinct(s: seq<real>)
  {
    forall a, b :: 0 <= a < b < |s| ==> s[a] != s[b]
  }

  /** The indices `0, 1, ..., n - 1`. */
  function Range(n: nat): (r: seq<nat>)
  {
    seq(n, k requires 0 <= k < n => k as nat)
  }

  function Reverse<T>(s: seq<T>): (r: seq<T>)
  {
    seq(|s|, k requires 0 <= k < |s| => s[|s| - 1 - k])
  }

  predicate IndicesBelow(order: seq<nat>, n: nat)
  {
    forall k :: 0 <= k < |order| ==> order[k] < n
  }

  /** Fancy indexing `xs[order]`. */
  function Gather(xs: seq<real>, order: seq<nat>): (r: seq<real>)
    requires IndicesBelow(order, |xs|)
  {
    seq(|order|, k requires 0 <= k < |order| => xs[order[k]])
  }

  /** The indices in `order`, read through `ts`, are in ascending order of temperature. */
  predicate AscendingBy(ts: seq<real>, order: seq<nat>)
    requires IndicesBelow(order, |ts|)
  {
    forall a, b :: 0 <= a < b < |order| ==> ts[order[a]] <= ts[order[b]]
  }

  /**
   * One step of the insertion sort behind `np.argsort` on short arrays:
   * index `i` goes after every index whose temperature is not greater, so
   * equal temperatures keep their input order.
   */
  function InsertByTemperature(ts: seq<real>, order: seq<nat>, i: nat): (r: seq<nat>)
    requires IndicesBelow(order, |ts|) && i < |ts|
    ensures |r| == |order| + 1 && IndicesBelow(r, |ts|)
  {
    if |order| == 0 then [i]
    else if ts[i] < ts[order[0]] then [i] + order
    else [order[0]] + InsertByTemperature(ts, order[1..], i)
  }

  /** `np.argsort` of the first `n` temperatures. */
  function ArgsortPrefix(ts: seq<real>, n: nat): (r: seq<nat>)
    requires n <= |ts|
    ensures |r| == n && IndicesBelow(r, |ts|)
  {
    if n == 0 then [] else InsertByTemperature(ts, ArgsortPrefix(ts, n - 1), n - 1)
  }

  /** `np.argsort(temperatures)[::-1]`: the sample indices, hottest first. */
  function DescendingOrder(temps: seq<real>): (order: seq<nat>)
    ensures |order| == |temps| && IndicesBelow(order, |temps|)
  {
    Reverse(ArgsortPrefix(temps, |temps|))
  }

  /** Inserting adds exactly the one index. */
  lemma {:induction false} InsertByTemperaturePermutes(ts: seq<real>, order: seq<nat>, i: nat)
    requires IndicesBelow(order, |ts|) && i < |ts|
    ensures multiset(InsertByTemperature(ts, order, i)) == multiset(order) + multiset{i}
    decreases |order|
  {
    if |order| > 0 && !(ts[i] < ts[order[0]]) {
      InsertByTemperaturePermutes(ts, order[1..], i);
      assert order == [order[0]] + order[1..];
    }
  }

  /** Every index after the insertion point was either inserted or already in the order. */
  lemma InsertedFrom(ts: seq<real>, order: seq<nat>, i: nat, x: nat)
    requires IndicesBelow(order, |ts|) && i < |ts|
    requires x in InsertByTemperature(ts, order, i)
    ensures x == i || x in order
  {
    InsertByTemperaturePermutes(ts, order, i);
    assert x in multiset(InsertByTemperature(ts, order, i));
  }

  /** When `i` is not colder than the head of an ascending order, the head stays below everything inserted after it. */
  lemma HeadBelowRest(ts: seq<real>, order: seq<nat>, i: nat)
    requires IndicesBelow(order, |ts|) && i < |ts| && AscendingBy(ts, order)
    requires |order| > 0 && !(ts[i] < ts[order[0]])
    ensures forall x :: x in InsertByTemperature(ts, order[1..], i) ==> ts[order[0]] <= ts[x]
  {
    var tail := order[1..];
    forall x | x in InsertByTemperature(ts, tail, i)
      ensures ts[order[0]] <= ts[x]
    {
      InsertedFrom(ts, tail, i, x);
      if x != i {
        var p :| 0 <= p < |tail| && tail[p] == x;
        assert order[p + 1] == x;
      }
    }
  }

  /** Inserting into an ascending order keeps it ascending. */
  lemma {:induction false} InsertByTemperatureSorts(ts: seq<real>, order: seq<nat>, i: nat)
    requires IndicesBelow(order, |ts|) && i < |ts| && AscendingBy(ts, order)
    ensures AscendingBy(ts, InsertByTemperature(ts, order, i))
    decreases |order|
  {
    if |order| > 0 && !(ts[i] < ts[order[0]]) {
      var head, tail := order[0], order[1..];
      InsertByTemperatureSorts(ts, tail, i);
      HeadBelowRest(ts, order, i);
      var r := InsertByTemperature(ts, order, i);
      var rest := InsertByTemperature(ts, tail, i);
      assert r == [head] + rest;
      forall a, b | 0 <= a < b < |r|
        ensures ts[r[a]] <= ts[r[b]]
      {
        assert r[b] == rest[b - 1] && r[b] in rest;
        if a > 0 {
          assert r[a] == rest[a - 1];
        }
      }
    }
  }

  lemma RangeSnoc(n: nat)
    requires n > 0
    ensures Range(n) == Range(n - 1) + [n - 1]
  {
  }

  /** The argsort is a permutation of the indices that sorts the temperatures ascending. */
  lemma {:induction false} ArgsortPrefixSpec(ts: seq<real>, n: nat)
    requires n <= |ts|
    ensures multiset(ArgsortPrefix(ts, n)) == multiset(Range(n))
    ensures AscendingBy(ts, ArgsortPrefix(ts, n))
  {
    if n > 0 {
      var last: nat := n - 1;
      var prev := ArgsortPrefix(ts, last);
      ArgsortPrefixSpec(ts, last);
      InsertByTemperaturePermutes(ts, prev, last);
      InsertByTemperatureSorts(ts, prev, last);
      RangeSnoc(n);
      assert multiset(Range(n)) == multiset(Range(last)) + multiset{last};
      assert ArgsortPrefix(ts, n) == InsertByTemperature(ts, prev, last);
    }
  }

  lemma {:induction false} ReverseMultiset<T>(s: seq<T>)
    ensures multiset(Reverse(s)) == multiset(s)
    decreases |s|
  {
    if |s| > 0 {
      var init, last := s[..|s| - 1], s[|s| - 1];
      ReverseMultiset(init);
      assert Reverse(s) == [last] + Reverse(init);
      assert multiset(Reverse(s)) == multiset([last]) + multiset(Reverse(init));
      assert s == init + [last];
      assert multiset(s) == multiset(init) + multiset([last]);
    }
  }

  /** Reversing an ascending argsort sorts the temperatures descending. */
  lemma ReversedArgsortDescends(temps: seq<real>, asc: seq<nat>)
    requires IndicesBelow(asc, |temps|) && AscendingBy(temps, asc)
    ensures IndicesBelow(Reverse(asc), |temps|)
    ensures NonIncreasing(Gather(temps, Reverse(asc)))
  {
    var order := Reverse(asc);
    var ts := Gather(temps, order);
    forall a, b | 0 <= a < b < |ts|
      ensures ts[a] >= ts[b]
    {
      var ia, ib := |asc| - 1 - a, |asc| - 1 - b;
      assert order[a] == asc[ia] && order[b] == asc[ib];
    }
  }

  /**
   * The joint sort: every sample index appears in the order, and the
   * temperatures gathered through it are non-increasing. Distances are
   * gathered through the same order, so each pair stays together.
   */
  lemma DescendingOrderSpec(temps: seq<real>)
    ensures multiset(DescendingOrder(temps)) == multiset(Range(|temps|))
    ensures NonIncreasing(Gather(temps, DescendingOrder(temps)))
  {
    var asc := ArgsortPrefix(temps, |temps|);
    ArgsortPrefixSpec(temps, |temps|);
    ReverseMultiset(asc);
    ReversedArgsortDescends(temps, asc);
  }

  /** Every sample index has a position in the descending order. */
  lemma PositionOf(temps: seq<real>, i: nat) returns (p: nat)
    requires i < |temps|
    ensures p < |temps| && DescendingOrder(temps)[p] == i
  {
    DescendingOrderSpec(temps);
    var order := DescendingOrder(temps);
    assert Range(|temps|)[i] == i;
    assert i in multiset(order);
    p :| 0 <= p < |order| && order[p] == i;
  }

  /** After the sort the first temperature is the largest and the last the smallest. */
  lemma SortedExtremes(temps: seq<real>)
    requires |temps| > 0
    ensures var ts := Gather(temps, DescendingOrder(temps));
      forall i :: 0 <= i < |temps| ==> ts[|ts| - 1] <= temps[i] <= ts[0]
  {
    var ts := Gather(temps, DescendingOrder(temps));
    DescendingOrderSpec(temps);
    forall i | 0 <= i < |temps|
      ensures ts[|ts| - 1] <= temps[i] <= ts[0]
    {
      var p := PositionOf(temps, i);
      assert ts[p] == temps[i];
    }
  }

  /**
   * The last index `j` below `|xp| - 1` with `xp[j] <= x`: the segment
   * `np.interp` finds by binary search on ascending sample points.
   */
  function Segment(xp: seq<real>, x: real): (j: nat)
    requires |xp| >= 2 && NonDecreasing(xp) && xp[0] <= x < xp[|xp| - 1]
    ensures j < |xp| - 1 && xp[j] <= x < xp[j + 1]
  {
    if x >= xp[|xp| - 2] then |xp| - 2 else Segment(xp[..|xp| - 1], x)
  }

  /**
   * `np.interp(x, xp, fp)` for `x` within `[xp[0], xp[-1]]`: the right end
   * gives the last value, any other point the straight line through the
   * ends of its segment.
   */
  function NpInterp(x: real, xp: seq<real>, fp: seq<real>): (y: real)
    requires |xp| == |fp| >= 2 && NonDecreasing(xp) && xp[0] <= x <= xp[|xp| - 1]
    ensures x == xp[|xp| - 1] ==> y == fp[|fp| - 1]
    ensures x < xp[|xp| - 1] ==> Between(y, fp[Segment(xp, x)], fp[Segment(xp, x) + 1])
  {
    if x == xp[|xp| - 1] then
      fp[|fp| - 1]
    else
      var j := Segment(xp, x);
      LinePoint(fp[j], fp[j + 1], x - xp[j], xp[j + 1] - xp[j])
  }

  /** The value at `off` along the straight line from `a` to `b` over a run `len`: slope times offset plus start. */
  function LinePoint(a: real, b: real, off: real, len: real): (v: real)
    requires 0.0 <= off <= len && len > 0.0
    ensures Between(v, a, b)
  {
    LineBetween(a, b, off, len);
    (b - a) / len * off + a
  }

  lemma ReverseNonIncreasing(ts: seq<real>)
    requires NonIncreasing(ts)
    ensures NonDecreasing(Reverse(ts))
  {
    var xp := Reverse(ts);
    forall a, b | 0 <= a < b < |xp|
      ensures xp[a] <= xp[b]
    {
      assert xp[a] == ts[|ts| - 1 - a] && xp[b] == ts[|ts| - 1 - b];
    }
  }

  /** `_linear_interpolation`: `np.interp` on the samples reversed to ascending temperature. */
  function LinearInterpolation(ts: seq<real>, ds: seq<real>, x: real): (d: real)
    requires |ts| == |ds| >= 2 && NonIncreasing(ts) && ts[|ts| - 1] <= x <= ts[0]
    ensures exists k :: 0 <= k < |ts| - 1 && ts[k + 1] <= x <= ts[k] && Between(d, ds[k], ds[k + 1])
  {
    ReverseNonIncreasing(ts);
    var xp, fp := Reverse(ts), Reverse(ds);
    var d := NpInterp(x, xp, fp);
    var j := if x == xp[|xp| - 1] then |xp| - 2 else Segment(xp, x);
    ReversedBracket(ts, ds, x, d, j);
    d
  }

  /** A bracket found on the reversed samples is a bracket of the samples themselves. */
  lemma ReversedBracket(ts: seq<real>, ds: seq<real>, x: real, d: real, j: nat)
    requires |ts| == |ds| >= 2 && j < |ts| - 1
    requires Reverse(ts)[j] <= x <= Reverse(ts)[j + 1] && Between(d, Reverse(ds)[j], Reverse(ds)[j + 1])
    ensures exists k :: 0 <= k < |ts| - 1 && ts[k + 1] <= x <= ts[k] && Between(d, ds[k], ds[k + 1])
  {
    var k := |ts| - 2 - j;
    assert Reverse(ts)[j] == ts[k + 1] && Reverse(ts)[j + 1] == ts[k];
    assert Reverse(ds)[j] == ds[k + 1] && Reverse(ds)[j + 1] == ds[k];
  }

  /**
   * `np.argmin(np.abs(temps - x))` over the first `n` samples: the first
   * index whose temperature is closest to `x`.
   */
  function NearestIndex(ts: seq<real>, x: real, n: nat): (j: nat)
    requires 1 <= n <= |ts|
    ensures j < n
    ensures forall k :: 0 <= k < n ==> Abs(ts[j] - x) <= Abs(ts[k] - x)
    ensures forall k :: 0 <= k < j ==> Abs(ts[k] - x) > Abs(ts[j] - x)
  {
    if n == 1 then 0
    else
      var j := NearestIndex(ts, x, n - 1);
      if Abs(ts[n - 1] - x) < Abs(ts[j] - x) then n - 1 else j
  }

  /** `_nearest_interpolation`: the distance of the first closest sample. */
  function NearestInterpolation(ts: seq<real>, ds: seq<real>, x: real): (d: real)
    requires |ts| == |ds| >= 1
    ensures exists j :: 0 <= j < |ts| && d == ds[j] && forall k :: 0 <= k < |ts| ==> Abs(ts[j] - x) <= Abs(ts[k] - x)
  {
    ds[NearestIndex(ts, x, |ts|)]
  }

  /**
   * `_handle_extrapolation`: no distance above the hottest sample (the
   * cloud never gets that hot); below the coldest one, the distance of the
   * last sample in sorted order.
   */
  function HandleExtrapolation(ts: seq<real>, ds: seq<real>, x: real): (r: Option<real>)
    requires |ts| == |ds| >= 1 && NonIncreasing(ts)
    ensures r.None? <==> forall i :: 0 <= i < |ts| ==> x > ts[i]
    ensures r.Some? ==> r.value == ds[|ds| - 1] && forall i :: 0 <= i < |ts| ==> ts[|ts| - 1] <= ts[i]
  {
    if x > ts[0] then None else Some(ds[|ds| - 1])
  }

  /** The part of `interpolate` after the sort: range test, then dispatch on the method. */
  function InterpolateSorted(ts: seq<real>, ds: seq<real>, x: real, m: InterpolationMethod, fit: Fitter): (r: Option<real>)
    requires |ts| == |ds| >= 2 && NonIncreasing(ts)
    ensures x > ts[0] ==> r.None?
    ensures x < ts[|ts| - 1] ==> r == Some(ds[|ds| - 1])
    ensures ts[|ts| - 1] <= x <= ts[0] && (m == Linear || (m == CubicSpline && |ts| < 4) || (m == Quadratic && |ts| < 3)) ==>
      r == Some(LinearInterpolation(ts, ds, x))
    ensures m == NearestNeighbor && x <= ts[0] ==> r.Some? && r.value in ds
  {
    if x > ts[0] || x < ts[|ts| - 1] then HandleExtrapolation(ts, ds, x)
    else
      match m
      case Linear => Some(LinearInterpolation(ts, ds, x))
      case CubicSpline =>
        if |ts| < 4 then Some(LinearInterpolation(ts, ds, x)) else fit(CubicKind, ts, ds, x)
      case Quadratic =>
        if |ts| < 3 then Some(LinearInterpolation(ts, ds, x)) else fit(QuadraticKind, ts, ds, x)
      case NearestNeighbor => Some(NearestInterpolation(ts, ds, x))
  }

  /**
   * `InterpolationEngine.interpolate`. Fewer than two temperatures or
   * distances give `None`; so does a distance list shorter than the
   * temperature list, where indexing it by the sort order raises and the
   * engine's handler returns `None`. Extra distances are never read.
   */
  function Interpolate(temps: seq<real>, dists: seq<real>, x: real, m: InterpolationMethod, fit: Fitter): (r: Option<real>)
    ensures |temps| < 2 || |dists| < 2 ==> r.None?
  {
    if |temps| < 2 || |dists| < 2 then None
    else
      var order := DescendingOrder(temps);
      if !IndicesBelow(order, |dists|) then None
      else
        DescendingOrderSpec(temps);
        InterpolateSorted(Gather(temps, order), Gather(dists, order), x, m, fit)
  }

  /** Indexing the distances by the sort order raises exactly when there are fewer distances than temperatures. */
  lemma IndexingFailsIff(temps: seq<real>, dists: seq<real>)
    ensures IndicesBelow(DescendingOrder(temps), |dists|) <==> |temps| <= |dists|
  {
    if |temps| > |dists| {
      var p := PositionOf(temps, |temps| - 1);
    }
  }

  /** A distance list shorter than the temperature list gives `None`, for every method. */
  lemma ShortDistancesGiveNone(temps: seq<real>, dists: seq<real>, x: real, m: InterpolationMethod, fit: Fitter)
    requires |dists| < |temps|
    ensures Interpolate(temps, dists, x, m, fit).None?
  {
    IndexingFailsIff(temps, dists);
  }

  /** A target hotter than every sample gives `None`, for every method. */
  lemma AboveRangeGivesNone(temps: seq<real>, dists: seq<real>, x: real, m: InterpolationMethod, fit: Fitter)
    requires forall i :: 0 <= i < |temps| ==> temps[i] < x
    ensures Interpolate(temps, dists, x, m, fit).None?
  {
    if |temps| >= 2 && |dists| >= 2 && IndicesBelow(DescendingOrder(temps), |dists|) {
      assert Gather(temps, DescendingOrder(temps))[0] == temps[DescendingOrder(temps)[0]];
    }
  }

  /**
   * With at least as many distances as temperatures, `interpolate` is the
   * sorted procedure applied to the pairs gathered through the sort order.
   */
  lemma InterpolateUnfold(temps: seq<real>, dists: seq<real>, x: real, m: InterpolationMethod, fit: Fitter)
    requires 2 <= |temps| <= |dists|
    ensures IndicesBelow(DescendingOrder(temps), |dists|)
    ensures NonIncreasing(Gather(temps, DescendingOrder(temps)))
    ensures Interpolate(temps, dists, x, m, fit) ==
      InterpolateSorted(Gather(temps, DescendingOrder(temps)), Gather(dists, DescendingOrder(temps)), x, m, fit)
  {
    IndexingFailsIff(temps, dists);
    DescendingOrderSpec(temps);
  }

  /**
   * A target colder than every sample gives, for every method, the
   * distance paired with a coldest sample.
   */
  lemma BelowRangeGivesColdest(temps: seq<real>, dists: seq<real>, x: real, m: InterpolationMethod, fit: Fitter)
    requires 2 <= |temps| <= |dists|
    requires forall i :: 0 <= i < |temps| ==> x < temps[i]
    ensures exists j :: (0 <= j < |temps| && (forall i :: 0 <= i < |temps| ==> temps[j] <= temps[i])
      && Interpolate(temps, dists, x, m, fit) == Some(dists[j]))
  {
    InterpolateUnfold(temps, dists, x, m, fit);
    SortedExtremes(temps);
    var order := DescendingOrder(temps);
    var ts, ds := Gather(temps, order), Gather(dists, order);
    var n := |ts|;
    var j := order[n - 1];
    assert ts[n - 1] == temps[j] && ds[n - 1] == dists[j];
    assert InterpolateSorted(ts, ds, x, m, fit) == Some(ds[n - 1]);
  }

  /** With too few samples for a spline, cubic and quadratic give exactly the linear result. */
  lemma SplineFallback(temps: seq<real>, dists: seq<real>, x: real, fit: Fitter)
    ensures |temps| < 4 ==> Interpolate(temps, dists, x, CubicSpline, fit) == Interpolate(temps, dists, x, Linear, fit)
    ensures |temps| < 3 ==> Interpolate(temps, dists, x, Quadratic, fit) == Interpolate(temps, dists, x, Linear, fit)
  {
  }

  /**
   * The line from `a` to `b` over a run `len`, evaluated at `off` within
   * it, stays between `a` and `b`.
   */
  lemma LineBetween(a: real, b: real, off: real, len: real)
    requires 0.0 <= off <= len && len > 0.0
    ensures Between((b - a) / len * off + a, a, b)
  {
    var w := off / len;
    assert w * len == off;
    assert 0.0 <= w <= 1.0;
    assert (b - a) / len * off == (b - a) * w;
    if a <= b {
      assert 0.0 <= (b - a) * w <= b - a;
    } else {
      assert 0.0 <= (a - b) * w <= a - b;
    }
  }

  /** `np.interp` lies on the segment between the values at the two ends of the segment holding `x`. */
  lemma NpInterpBracketed(x: real, xp: seq<real>, fp: seq<real>) returns (j: nat)
    requires |xp| == |fp| >= 2 && NonDecreasing(xp) && xp[0] <= x <= xp[|xp| - 1]
    ensures j < |xp| - 1 && xp[j] <= x <= xp[j + 1]
    ensures Between(NpInterp(x, xp, fp), fp[j], fp[j + 1])
  {
    if x == xp[|xp| - 1] {
      j := |xp| - 2;
    } else {
      j := Segment(xp, x);
    }
  }

  /**
   * `np.interp` at one of its own sample points gives the value of a
   * sample at exactly that point.
   */
  lemma NpInterpAtSample(x: real, xp: seq<real>, fp: seq<real>, m: nat) returns (q: nat)
    requires |xp| == |fp| >= 2 && NonDecreasing(xp) && m < |xp| && x == xp[m]
    ensures q < |xp| && xp[q] == x && NpInterp(x, xp, fp) == fp[q]
  {
    assert xp[0] <= x <= xp[|xp| - 1];
    if x == xp[|xp| - 1] {
      q := |xp| - 1;
    } else {
      q := Segment(xp, x);
    }
  }

  /** On sorted samples, linear interpolation lies between the distances of two neighbouring samples around the target. */
  lemma LinearSortedBracketed(ts: seq<real>, ds: seq<real>, x: real) returns (k: nat)
    requires |ts| == |ds| >= 2 && NonIncreasing(ts) && ts[|ts| - 1] <= x <= ts[0]
    ensures k < |ts| - 1 && ts[k + 1] <= x <= ts[k]
    ensures Between(LinearInterpolation(ts, ds, x), ds[k], ds[k + 1])
  {
    ReverseNonIncreasing(ts);
    var n := |ts|;
    var xp, fp := Reverse(ts), Reverse(ds);
    var j := NpInterpBracketed(x, xp, fp);
    k := n - 2 - j;
    assert xp[j] == ts[k + 1] && xp[j + 1] == ts[k] && fp[j] == ds[k + 1] && fp[j + 1] == ds[k];
  }

  /**
   * Linear interpolation of a target within range lies between the
   * distances of two bracketing samples: one at or above the target, one
   * at or below it, and no sample strictly between them in temperature.
   */
  lemma LinearBetweenBracketing(temps: seq<real>, dists: seq<real>, x: real, fit: Fitter, lo: nat, hi: nat)
    requires 2 <= |temps| <= |dists|
    requires lo < |temps| && hi < |temps| && temps[lo] <= x <= temps[hi]
    ensures exists a, b ::
      && 0 <= a < |temps| && 0 <= b < |temps| && temps[b] <= x <= temps[a]
      && (forall i :: 0 <= i < |temps| ==> !(temps[b] < temps[i] < temps[a]))
      && Interpolate(temps, dists, x, Linear, fit).Some?
      && Between(Interpolate(temps, dists, x, Linear, fit).value, dists[a], dists[b])
  {
    InterpolateUnfold(temps, dists, x, Linear, fit);
    SortedExtremes(temps);
    var order := DescendingOrder(temps);
    var ts, ds := Gather(temps, order), Gather(dists, order);
    var n := |ts|;
    assert ts[n - 1] <= temps[lo] && temps[hi] <= ts[0];
    var k := LinearSortedBracketed(ts, ds, x);
    NeighboursInOrder(temps, k);
    var a, b := order[k], order[k + 1];
    assert ts[k] == temps[a] && ts[k + 1] == temps[b] && ds[k] == dists[a] && ds[k + 1] == dists[b];
    assert Interpolate(temps, dists, x, Linear, fit) == Some(LinearInterpolation(ts, ds, x));
  }

  /** No sample lies strictly between two neighbours of the descending order. */
  lemma NeighboursInOrder(temps: seq<real>, k: nat)
    requires k + 1 < |temps|
    ensures var ts := Gather(temps, DescendingOrder(temps));
      forall i :: 0 <= i < |temps| ==> !(ts[k + 1] < temps[i] < ts[k])
  {
    var ts := Gather(temps, DescendingOrder(temps));
    DescendingOrderSpec(temps);
    forall i | 0 <= i < |temps|
      ensures !(ts[k + 1] < temps[i] < ts[k])
    {
      var p := PositionOf(temps, i);
      assert ts[p] == temps[i];
    }
  }

  /**
   * With distinct temperatures, linear interpolation at a sample's own
   * temperature returns that sample's distance.
   */
  lemma LinearAtSample(temps: seq<real>, dists: seq<real>, i: nat, fit: Fitter)
    requires 2 <= |temps| <= |dists| && Distinct(temps) && i < |temps|
    ensures Interpolate(temps, dists, temps[i], Linear, fit) == Some(dists[i])
  {
    IndexingFailsIff(temps, dists);
    SortedExtremes(temps);
    DescendingOrderSpec(temps);
    var order := DescendingOrder(temps);
    var ts, ds := Gather(temps, order), Gather(dists, order);
    var n := |ts|;
    var p := PositionOf(temps, i);
    ReverseNonIncreasing(ts);
    var xp, fp := Reverse(ts), Reverse(ds);
    assert xp[n - 1 - p] == temps[i];
    var q := NpInterpAtSample(temps[i], xp, fp, n - 1 - p);
    var s := n - 1 - q;
    assert temps[order[s]] == temps[i];
    assert order[s] == i;
    assert Interpolate(temps, dists, temps[i], Linear, fit) == Some(NpInterp(temps[i], xp, fp));
  }

  lemma HalfwayOnLine(a: real, b: real, len: real)
    requires len > 0.0
    ensures LinePoint(a, b, len / 2.0, len) == (a + b) / 2.0
  {
    assert (b - a) / len * len == b - a;
  }

  /** Two sorted samples and a target halfway between their temperatures give the distance halfway between theirs. */
  lemma LinearSortedMidpoint(ts: seq<real>, ds: seq<real>, x: real)
    requires |ts| == |ds| == 2 && ts[0] > ts[1] && x == (ts[0] + ts[1]) / 2.0
    ensures NonIncreasing(ts) && ts[1] <= x <= ts[0]
    ensures LinearInterpolation(ts, ds, x) == (ds[0] + ds[1]) / 2.0
  {
    ReverseNonIncreasing(ts);
    var xp, fp := Reverse(ts), Reverse(ds);
    assert Segment(xp, x) == 0;
    assert x - xp[0] == (xp[1] - xp[0]) / 2.0;
    HalfwayOnLine(fp[0], fp[1], xp[1] - xp[0]);
  }

  /** With two distinct temperatures, the hotter sample comes first. */
  lemma TwoSampleOrder(temps: seq<real>)
    requires |temps| == 2 && temps[0] != temps[1]
    ensures DescendingOrder(temps) == if temps[0] > temps[1] then [0, 1] else [1, 0]
  {
    SortedExtremes(temps);
    var order := DescendingOrder(temps);
    var p0 := PositionOf(temps, 0);
    var p1 := PositionOf(temps, 1);
    assert p0 != p1;
    if temps[0] > temps[1] {
      assert order[0] == 0 && order[1] == 1;
    } else {
      assert order[0] == 1 && order[1] == 0;
    }
  }

  /** Two samples and a target halfway between their temperatures give the distance halfway between theirs. */
  lemma LinearMidpoint(temps: seq<real>, dists: seq<real>, fit: Fitter)
    requires |temps| == 2 && |dists| == 2 && temps[0] != temps[1]
    ensures Interpolate(temps, dists, (temps[0] + temps[1]) / 2.0, Linear, fit) == Some((dists[0] + dists[1]) / 2.0)
  {
    var x := (temps[0] + temps[1]) / 2.0;
    var half := (dists[0] + dists[1]) / 2.0;
    InterpolateUnfold(temps, dists, x, Linear, fit);
    TwoSampleOrder(temps);
    var order := DescendingOrder(temps);
    var ts, ds := Gather(temps, order), Gather(dists, order);
    assert x == (ts[0] + ts[1]) / 2.0 && half == (ds[0] + ds[1]) / 2.0;
    LinearSortedMidpoint(ts, ds, x);
    assert InterpolateSorted(ts, ds, x, Linear, fit) == Some(half);
  }

  /** Nearest-neighbour interpolation always returns one of the input distances, for every target. */
  lemma NearestIsSampleDistance(temps: seq<real>, dists: seq<real>, x: real, fit: Fitter)
    requires Interpolate(temps, dists, x, NearestNeighbor, fit).Some?
    ensures Interpolate(temps, dists, x, NearestNeighbor, fit).value in dists
  {
    IndexingFailsIff(temps, dists);
    var order := DescendingOrder(temps);
    var ts, ds := Gather(temps, order), Gather(dists, order);
    if x > ts[0] || x < ts[|ts| - 1] {
      assert Interpolate(temps, dists, x, NearestNeighbor, fit).value == dists[order[|ts| - 1]];
    } else {
      var q := NearestIndex(ts, x, |ts|);
      assert Interpolate(temps, dists, x, NearestNeighbor, fit).value == dists[order[q]];
    }
  }

  /**
   * With distinct temperatures, nearest-neighbour interpolation at a
   * sample's own temperature returns that sample's distance.
   */
  lemma NearestAtSample(temps: seq<real>, dists: seq<real>, i: nat, fit: Fitter)
    requires 2 <= |temps| <= |dists| && Distinct(temps) && i < |temps|
    ensures Interpolate(temps, dists, temps[i], NearestNeighbor, fit) == Some(dists[i])
  {
    IndexingFailsIff(temps, dists);
    SortedExtremes(temps);
    var order := DescendingOrder(temps);
    var ts, ds := Gather(temps, order), Gather(dists, order);
    var p := PositionOf(temps, i);
    var q := NearestIndex(ts, temps[i], |ts|);
    assert Abs(ts[q] - temps[i]) <= Abs(ts[p] - temps[i]) == 0.0;
    assert temps[order[q]] == temps[i];
    assert order[q] == i;
  }
}
