/** `correlated_uniform_samples`: bounded rejection sampling of shares that
    sum to one, each within its own bounds.

    The random number generator is an oracle: `u(k)` is the k-th number in
    [0, 1) that numpy's generator yields from the start of the modelled run,
    and `np.random.uniform(low, high)` is `low + (high - low) * u(k)`. A cursor
    `pos` says how much of the stream has been used. */
module Sampler {
  import opened Wrappers
  import opened Dicts

  /** The `(min, max)` pair of one parameter. */
  datatype Bounds = Bounds(low: real, high: real)

  /** Dividing by a zero total raises ZeroDivisionError: the draws are Python floats. */
  datatype SampleError = ZeroDivision

  /** What one pass of the loop body does. */
  datatype Attempt<K> = Rejected | ZeroTotal | Accepted(shares: Dict<K, real>)

  const DefaultIterations: nat := 1000

  /** Python's `sum`, over the reals. */
  function Sum(xs: seq<real>): real {
    if |xs| == 0 then 0.0 else Sum(xs[..|xs| - 1]) + xs[|xs| - 1]
  }

  /** One uniform draw per parameter, in the order of `ranges`. */
  function Draws<K>(ranges: Dict<K, Bounds>, u: nat -> real, pos: nat): (xs: seq<real>)
    ensures |xs| == |ranges|
  {
    seq(|ranges|, i requires 0 <= i < |ranges| =>
      ranges[i].1.low + (ranges[i].1.high - ranges[i].1.low) * u(pos + i))
  }

  function Scale(xs: seq<real>, total: real): (ys: seq<real>)
    requires total != 0.0
    ensures |ys| == |xs|
  {
    seq(|xs|, i requires 0 <= i < |xs| => xs[i] / total)
  }

  /** Every share lies within the bounds of its parameter. */
  predicate InBounds<K>(ranges: Dict<K, Bounds>, shares: Dict<K, real>)
    requires |shares| == |ranges|
  {
    forall i :: 0 <= i < |ranges| ==> ranges[i].1.low <= shares[i].1 <= ranges[i].1.high
  }

  /** Shares the sampler may accept: one per parameter, in order, within bounds,
      summing to one whenever there is at least one parameter. */
  ghost predicate ValidShares<K>(ranges: Dict<K, Bounds>, shares: Dict<K, real>) {
    && Keys(shares) == Keys(ranges)
    && InBounds(ranges, shares)
    && (|ranges| > 0 ==> Sum(Values(shares)) == 1.0)
  }

  /** The draws divided by their total, each under its parameter's name. */
  function Normalized<K>(ranges: Dict<K, Bounds>, xs: seq<real>, total: real): (shares: Dict<K, real>)
    requires |xs| == |ranges| && total != 0.0
    ensures Keys(shares) == Keys(ranges)
    ensures Values(shares) == Scale(xs, total)
  {
    var shares := seq(|ranges|, i requires 0 <= i < |ranges| => (ranges[i].0, xs[i] / total));
    assert forall i :: 0 <= i < |xs| ==> Keys(shares)[i] == Keys(ranges)[i];
    assert forall i :: 0 <= i < |xs| ==> Values(shares)[i] == Scale(xs, total)[i];
    shares
  }

  /** Normalising by the total gives shares that sum to one. */
  lemma {:induction false} NormalizedSumsToOne<K>(ranges: Dict<K, Bounds>, xs: seq<real>)
    requires |xs| == |ranges| && Sum(xs) != 0.0
    ensures Sum(Values(Normalized(ranges, xs, Sum(xs)))) == 1.0
  {
    var total := Sum(xs);
    var ys := Scale(xs, total);
    assert Values(Normalized(ranges, xs, total)) == ys;
    SumScale(xs, total);
    assert Sum(ys) == total / total;
    DivSelf(total);
  }

  lemma {:induction false} DivSelf(t: real)
    requires t != 0.0
    ensures t / t == 1.0
  {
  }

  /** Draw one value per parameter, normalise by the total, accept if every
      normalised value is within bounds. An empty `ranges` is accepted at once:
      nothing is divided and `all([])` holds. */
  function TryDraw<K>(ranges: Dict<K, Bounds>, u: nat -> real, pos: nat): (r: Attempt<K>)
    ensures r.Accepted? ==> ValidShares(ranges, r.shares)
    ensures r.Accepted? && |ranges| > 0 ==> Sum(Lows(ranges)) <= 1.0
    ensures r.ZeroTotal? ==> |ranges| > 0 && Sum(Draws(ranges, u, pos)) == 0.0
    ensures |ranges| == 0 ==> r == Accepted([])
    ensures |ranges| > 0 ==> (r.ZeroTotal? <==> Sum(Draws(ranges, u, pos)) == 0.0)
    ensures |ranges| > 0 && Sum(Draws(ranges, u, pos)) != 0.0 ==>
      && (r.Accepted? <==> InBounds(ranges, Normalized(ranges, Draws(ranges, u, pos), Sum(Draws(ranges, u, pos)))))
      && (r.Accepted? ==> r.shares == Normalized(ranges, Draws(ranges, u, pos), Sum(Draws(ranges, u, pos))))
  {
    var xs := Draws(ranges, u, pos);
    if |ranges| == 0 then Accepted([])
    else if Sum(xs) == 0.0 then ZeroTotal
    else
      var shares := Normalized(ranges, xs, Sum(xs));
      if InBounds(ranges, shares) then
        NormalizedSumsToOne(ranges, xs);
        AcceptedSharesMeetLows(ranges, shares);
        Accepted(shares)
      else Rejected
  }

  /** The stream used by `k` attempts of `n` draws each. */
  function Used(k: nat, n: nat): nat {
    k * n
  }

  /** One more attempt uses `n` more numbers. */
  lemma {:induction false} UsedStep(k: nat, n: nat)
    ensures Used(k + 1, n) == Used(k, n) + n
  {
  }

  /** The attempt that reads the stream from position `p`. */
  function Attempts<K>(ranges: Dict<K, Bounds>, u: nat -> real): nat -> Attempt<K> {
    (p: nat) => TryDraw(ranges, u, p)
  }

  /** Attempts number `lo` to `hi - 1`, counted from position `pos`, are all rejected. */
  predicate RejectedBetween<K>(attempt: nat -> Attempt<K>, width: nat, pos: nat, lo: nat, hi: nat) {
    forall m: nat :: lo <= m < hi ==> attempt(pos + Used(m, width)).Rejected?
  }

  /** The loop with `remaining` passes left, the next one reading the stream
      from `pos`, each pass using `width` numbers. The result carries the new
      stream cursor. */
  function SampleFrom<K>(
    attempt: nat -> Attempt<K>, defaults: Dict<K, real>, remaining: nat,
    width: nat, pos: nat): (r: Result<(Dict<K, real>, nat), SampleError>)
    decreases remaining
    ensures r.Success? ==>
              || r.value.0 == defaults
              || exists m: nat :: m < remaining && attempt(pos + Used(m, width)) == Accepted(r.value.0)
  {
    if remaining == 0 then Success((defaults, pos))
    else
      match attempt(pos)
      case Accepted(s) =>
        assert attempt(pos + Used(0, width)) == Accepted(s);
        Success((s, pos + width))
      case ZeroTotal => Failure(ZeroDivision)
      case Rejected =>
        var r := SampleFrom(attempt, defaults, remaining - 1, width, pos + width);
        assert r.Success? && r.value.0 != defaults ==>
          exists m: nat :: m < remaining && attempt(pos + Used(m, width)) == Accepted(r.value.0) by {
          if r.Success? && r.value.0 != defaults {
            var m: nat :| m < remaining - 1 && attempt(pos + width + Used(m, width)) == Accepted(r.value.0);
            UsedStep(m, width);
            assert attempt(pos + Used(m + 1, width)) == Accepted(r.value.0);
          }
        }
        r
  }

  /** Returns the first draw whose normalised shares all lie within bounds, or
      `defaults` once `iterations` draws have been rejected; either way the
      shares are valid for `ranges` or are exactly `defaults`. */
  function CorrelatedUniformSamples<K>(
    ranges: Dict<K, Bounds>, defaults: Dict<K, real>, iterations: nat,
    u: nat -> real, pos: nat): (r: Result<(Dict<K, real>, nat), SampleError>)
    ensures r.Success? ==> r.value.0 == defaults || ValidShares(ranges, r.value.0)
  {
    SampleFrom(Attempts(ranges, u), defaults, iterations, |ranges|, pos)
  }

  /** The first accepted draw after only rejections is the one returned, with
      the stream advanced past it. */
  lemma {:induction false} FirstAcceptedDrawReturned<K>(
    attempt: nat -> Attempt<K>, defaults: Dict<K, real>, remaining: nat, width: nat, pos: nat, j: nat)
    requires j < remaining
    requires RejectedBetween(attempt, width, pos, 0, j)
    requires attempt(pos + Used(j, width)).Accepted?
    ensures SampleFrom(attempt, defaults, remaining, width, pos)
            == Success((attempt(pos + Used(j, width)).shares, pos + Used(j + 1, width)))
    decreases j
  {
    if j > 0 {
      assert attempt(pos + Used(0, width)).Rejected?;
      ShiftRejected(attempt, width, pos, j);
      UsedStep(j - 1, width);
      FirstAcceptedDrawReturned(attempt, defaults, remaining - 1, width, pos + width, j - 1);
      UsedStep(j, width);
    }
  }

  /** A zero total after only rejections raises. */
  lemma {:induction false} ZeroTotalRaises<K>(
    attempt: nat -> Attempt<K>, defaults: Dict<K, real>, remaining: nat, width: nat, pos: nat, j: nat)
    requires j < remaining
    requires RejectedBetween(attempt, width, pos, 0, j)
    requires attempt(pos + Used(j, width)).ZeroTotal?
    ensures SampleFrom(attempt, defaults, remaining, width, pos) == Failure(ZeroDivision)
    decreases j
  {
    if j > 0 {
      assert attempt(pos + Used(0, width)).Rejected?;
      ShiftRejected(attempt, width, pos, j);
      UsedStep(j - 1, width);
      ZeroTotalRaises(attempt, defaults, remaining - 1, width, pos + width, j - 1);
    }
  }

  /** When every remaining draw is rejected the result is exactly `defaults`,
      with the stream advanced by all the draws. */
  lemma {:induction false} AllRejectedGivesDefaults<K>(
    attempt: nat -> Attempt<K>, defaults: Dict<K, real>, remaining: nat, width: nat, pos: nat)
    requires RejectedBetween(attempt, width, pos, 0, remaining)
    ensures SampleFrom(attempt, defaults, remaining, width, pos)
            == Success((defaults, pos + Used(remaining, width)))
    decreases remaining
  {
    if remaining > 0 {
      assert attempt(pos + Used(0, width)).Rejected?;
      ShiftRejected(attempt, width, pos, remaining);
      AllRejectedGivesDefaults(attempt, defaults, remaining - 1, width, pos + width);
      UsedStep(remaining - 1, width);
    }
  }

  /** Rejections after the first pass, seen from the next cursor. */
  lemma {:induction false} ShiftRejected<K>(attempt: nat -> Attempt<K>, width: nat, pos: nat, hi: nat)
    requires hi > 0
    requires RejectedBetween(attempt, width, pos, 1, hi)
    ensures RejectedBetween(attempt, width, pos + width, 0, hi - 1)
  {
    forall m: nat | m < hi - 1
      ensures attempt(pos + width + Used(m, width)).Rejected?
    {
      UsedStep(m, width);
      assert attempt(pos + Used(m + 1, width)).Rejected?;
    }
  }

  // ---------------------------------------------------------------------
  // Arithmetic of sums
  // ---------------------------------------------------------------------

  lemma {:induction false} SumScale(xs: seq<real>, total: real)
    requires total != 0.0
    ensures Sum(Scale(xs, total)) == Sum(xs) / total
  {
    if |xs| > 0 {
      var n := |xs| - 1;
      assert Scale(xs, total)[..n] == Scale(xs[..n], total);
      SumScale(xs[..n], total);
      assert Sum(Scale(xs, total)) == Sum(xs[..n]) / total + xs[n] / total;
    }
  }

  /** The sum of a concatenation is the sum of the sums. */
  lemma {:induction false} SumAppend(xs: seq<real>, ys: seq<real>)
    ensures Sum(xs + ys) == Sum(xs) + Sum(ys)
  {
    if |ys| == 0 {
      assert xs + ys == xs;
    } else {
      var n := |ys| - 1;
      assert (xs + ys)[..|xs| + n] == xs + ys[..n];
      SumAppend(xs, ys[..n]);
    }
  }

  lemma {:induction false} SumMonotone(xs: seq<real>, ys: seq<real>)
    requires |xs| == |ys|
    requires forall i :: 0 <= i < |xs| ==> xs[i] <= ys[i]
    ensures Sum(xs) <= Sum(ys)
  {
    if |xs| > 0 {
      var n := |xs| - 1;
      SumMonotone(xs[..n], ys[..n]);
    }
  }

  lemma {:induction false} SumPositive(xs: seq<real>)
    requires |xs| > 0
    requires forall i :: 0 <= i < |xs| ==> xs[i] > 0.0
    ensures Sum(xs) > 0.0
  {
    var n := |xs| - 1;
    if n > 0 {
      SumPositive(xs[..n]);
    }
  }

  function Lows<K>(ranges: Dict<K, Bounds>): (ls: seq<real>)
    ensures |ls| == |ranges|
  {
    seq(|ranges|, i requires 0 <= i < |ranges| => ranges[i].1.low)
  }

  lemma {:induction false} DrawsAtLeastLow<K>(ranges: Dict<K, Bounds>, u: nat -> real, p: nat)
    requires forall i :: 0 <= i < |ranges| ==> 0.0 < ranges[i].1.low <= ranges[i].1.high
    requires forall k :: 0.0 <= u(k) < 1.0
    ensures forall i :: 0 <= i < |ranges| ==> Draws(ranges, u, p)[i] >= ranges[i].1.low > 0.0
  {
    forall i | 0 <= i < |ranges| ensures Draws(ranges, u, p)[i] >= ranges[i].1.low {
      var b := ranges[i].1;
      assert Draws(ranges, u, p)[i] == b.low + (b.high - b.low) * u(p + i);
      assert (b.high - b.low) * u(p + i) >= 0.0;
    }
  }

  /** Shares that sum to one, each at least its minimum, force the minimums to
      add up to at most one. */
  lemma {:induction false} AcceptedSharesMeetLows<K>(ranges: Dict<K, Bounds>, shares: Dict<K, real>)
    requires |ranges| > 0 && ValidShares(ranges, shares)
    ensures Sum(Lows(ranges)) <= 1.0
  {
    SumMonotone(Lows(ranges), Values(shares));
  }

  /** One draw under such bounds is always rejected: the total is positive,
      so nothing is divided by zero, and no normalised draw can meet every
      minimum. */
  lemma {:induction false} BoundsBeyondOneReject<K>(ranges: Dict<K, Bounds>, u: nat -> real, p: nat)
    requires |ranges| > 0
    requires forall i :: 0 <= i < |ranges| ==> 0.0 < ranges[i].1.low <= ranges[i].1.high
    requires Sum(Lows(ranges)) > 1.0
    requires forall k :: 0.0 <= u(k) < 1.0
    ensures TryDraw(ranges, u, p).Rejected?
  {
    DrawsAtLeastLow(ranges, u, p);
    SumPositive(Draws(ranges, u, p));
  }

  /** Bounds whose minimums already add up to more than one can never be met
      after normalising: with positive minimums and a stream of numbers in
      [0, 1), every draw is rejected and the sampler returns `defaults`. */
  lemma {:induction false} ImpossibleBoundsFallBack<K>(
    ranges: Dict<K, Bounds>, defaults: Dict<K, real>, iterations: nat, u: nat -> real, pos: nat)
    requires |ranges| > 0
    requires forall i :: 0 <= i < |ranges| ==> 0.0 < ranges[i].1.low <= ranges[i].1.high
    requires Sum(Lows(ranges)) > 1.0
    requires forall k :: 0.0 <= u(k) < 1.0
    ensures CorrelatedUniformSamples(ranges, defaults, iterations, u, pos)
            == Success((defaults, pos + Used(iterations, |ranges|)))
  {
    forall m: nat | m < iterations
      ensures Attempts(ranges, u)(pos + Used(m, |ranges|)).Rejected?
    {
      BoundsBeyondOneReject(ranges, u, pos + Used(m, |ranges|));
    }
    AllRejectedGivesDefaults(Attempts(ranges, u), defaults, iterations, |ranges|, pos);
  }
}
