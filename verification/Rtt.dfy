/** The round-trip time estimator of a neighbour (neigh.c), with C's conversions written
    out: `usecs_t` is an unsigned word of 32 or 64 bits, the difference an `int`. */
module Rtt {
  const DSR_MIN: nat := 20
  const DSR_REXMTMAX: nat := 1280
  const U32: int := 0x1_0000_0000
  const U64: int := 0x1_0000_0000_0000_0000
  const INT_MAX: int := 0x7FFF_FFFF

  datatype Word = W32 | W64

  datatype Estimate = Estimate(srtt: nat, rttvar: nat, rxtcur: nat)

  /** Conversion to an unsigned word. */
  function Wrap(w: Word, x: int): (r: nat)
    ensures 0 <= x < U32 ==> r == x
    ensures w.W64? && 0 <= x < U64 ==> r == x
  {
    if w.W32? then x % U32 else x % U64
  }

  /** Conversion to a 32-bit `int`. */
  function ToInt(x: int): (r: int)
    ensures -INT_MAX - 1 <= r <= INT_MAX
    ensures -INT_MAX - 1 <= x <= INT_MAX ==> r == x
  {
    var m := x % U32;
    if m > INT_MAX then m - U32 else m
  }

  /** The value nearest to `v` between the limits. */
  function RangeSet(v: nat, lo: nat, hi: nat): (r: nat)
    requires lo <= hi
    ensures lo <= r <= hi
    ensures lo <= v <= hi ==> r == v
    ensures v < lo ==> r == lo
    ensures v > hi ==> r == hi
  {
    if v < lo then lo else if v > hi then hi else v
  }

  /** The estimate of a new neighbour. */
  const CREATED := Estimate(0, (30 * 2) * 4, RangeSet(((0 / 4) + (60 * 4)) / 2, DSR_MIN, DSR_REXMTMAX))

  /** The smoothing meant: both averages move towards the sample, `srtt` by an eighth and
      `rttvar` by a quarter, in units of an eighth and a quarter. */
  ghost function Smooth(e: Estimate, rtt: nat): (r: (int, int)) {
    if e.srtt == 0 then (8 * rtt, 2 * rtt)
    else
      var delta := rtt - 1 - e.srtt / 8;
      (e.srtt + delta, e.rttvar - e.rttvar / 4 + if delta < 0 then -delta else delta)
  }

  /** The estimate after samples between `lo` and `hi`. */
  ghost predicate Within(e: Estimate, lo: nat, hi: nat) {
    && 8 * lo - 7 <= e.srtt <= 8 * hi
    && 1 <= e.rttvar <= 4 * hi
    && DSR_MIN <= e.rxtcur <= DSR_REXMTMAX
  }

  /** Samples up to `hi` stay clear of the limits of the C types. */
  ghost predicate Fits(w: Word, hi: nat) {
    hi <= INT_MAX && (w.W32? ==> 9 * hi < U32)
  }

  ghost predicate Tame(w: Word, e: Estimate, rtt: nat, lo: nat, hi: nat) {
    1 <= lo <= rtt <= hi && Fits(w, hi) && (e.srtt == 0 || Within(e, lo, hi))
  }

  ghost predicate SmoothedBy(e: Estimate, rtt: nat, r: Estimate) {
    (r.srtt, r.rttvar) == Smooth(e, rtt) && r.rxtcur == RangeSet(r.srtt / 8 + r.srtt, DSR_MIN, DSR_REXMTMAX)
  }

  /** What a sample makes of an estimate: the time-out is within its limits, and clear of the
      limits of the C types the estimate is the smoothed one and stays between the samples. */
  ghost predicate Calculated(w: Word, e: Estimate, rtt: nat, r: Estimate) {
    && DSR_MIN <= r.rxtcur <= DSR_REXMTMAX
    && (e.srtt != 0 ==> r.srtt >= 1 && r.rttvar >= 1)
    && forall lo, hi :: Tame(w, e, rtt, lo, hi) ==> Within(r, lo, hi) && SmoothedBy(e, rtt, r)
  }

  lemma IntFits(w: Word, x: int)
    requires -INT_MAX - 1 <= x <= INT_MAX
    ensures ToInt(Wrap(w, x)) == x
  {
    if x < 0 && w.W64? {
      assert Wrap(w, x) == x + U64;
      assert (x + U64) % U32 == x + U32;
    }
  }

  lemma SmoothWithin(e: Estimate, rtt: nat, lo: nat, hi: nat)
    requires 1 <= lo <= rtt <= hi && (e.srtt == 0 || Within(e, lo, hi))
    ensures var (s, v) := Smooth(e, rtt); 8 * lo - 7 <= s <= 8 * hi && 1 <= v <= 4 * hi
    ensures e.srtt != 0 ==> 0 - hi <= rtt - 1 - e.srtt / 8 <= hi
  {
  }

  ghost predicate MeanFits(w: Word, srtt: nat, rtt: nat) {
    && Fits(w, (srtt + 7) / 8) && Fits(w, rtt)
    && 0 < srtt + rtt - 1 - srtt / 8
  }

  ghost predicate DeviationFits(w: Word, rttvar: nat, difference: int) {
    && 1 <= rttvar <= 4 * INT_MAX && -INT_MAX <= difference <= INT_MAX
    && (w.W32? ==> rttvar - rttvar / 4 - difference < U32 && rttvar - rttvar / 4 + difference < U32)
  }

  /** Moves the mean; the difference is kept for the deviation. */
  method Mean(w: Word, srtt: nat, rtt: nat) returns (s: nat, delta: int)
    ensures s >= 1
    ensures MeanFits(w, srtt, rtt) ==> delta == rtt - 1 - srtt / 8 && s == srtt + delta
  {
    IntRange(w, rtt - 1 - srtt / 8);
    delta := ToInt(Wrap(w, rtt - 1 - srtt / 8));
    s := Wrap(w, srtt + delta);
    if s <= 0 {
      s := 1;
    }
  }

  /** Moves the deviation by the size of the difference. */
  method Deviation(w: Word, rttvar: nat, difference: int) returns (v: nat)
    ensures v >= 1
    ensures DeviationFits(w, rttvar, difference) ==>
      v == rttvar - rttvar / 4 + if difference < 0 then -difference else difference
  {
    var delta := difference;
    if delta < 0 {
      delta := ToInt(-delta);
    }
    IntRange(w, delta - rttvar / 4);
    delta := ToInt(Wrap(w, delta - rttvar / 4));
    v := Wrap(w, rttvar + delta);
    if v <= 0 {
      v := 1;
    }
  }

  lemma IntRange(w: Word, x: int)
    ensures -INT_MAX - 1 <= x <= INT_MAX ==> ToInt(Wrap(w, x)) == x
  {
    if -INT_MAX - 1 <= x <= INT_MAX {
      IntFits(w, x);
    }
  }

  /** rto_calc */
  method RtoCalc(w: Word, e: Estimate, rtt: nat) returns (r: Estimate)
    ensures Calculated(w, e, rtt, r)
  {
    var srtt, rttvar, delta;
    if e.srtt != 0 {
      srtt, delta := Mean(w, e.srtt, rtt);
      rttvar := Deviation(w, e.rttvar, delta);
    } else {
      srtt := Wrap(w, rtt * 8);
      rttvar := Wrap(w, rtt * 2);
    }
    r := Estimate(srtt, rttvar, RangeSet(Wrap(w, srtt / 8 + srtt), DSR_MIN, DSR_REXMTMAX));
    forall lo, hi | Tame(w, e, rtt, lo, hi) ensures Within(r, lo, hi) && SmoothedBy(e, rtt, r) {
      SmoothWithin(e, rtt, lo, hi);
      assert (srtt, rttvar) == Smooth(e, rtt);
    }
  }

  /** The estimates after each of any sequence of samples. */
  method Feed(w: Word, samples: seq<nat>, ghost lo: nat, ghost hi: nat) returns (es: seq<Estimate>)
    requires 1 <= lo && Fits(w, hi) && forall i :: 0 <= i < |samples| ==> lo <= samples[i] <= hi
    ensures |es| == |samples|
    ensures forall i :: 0 <= i < |es| ==> Within(es[i], lo, hi)
    ensures forall i :: 0 <= i < |es| ==> Smoothed(es, samples, i)
  {
    es := [];
    var e := CREATED;
    for i := 0 to |samples|
      invariant |es| == i && e == if i == 0 then CREATED else es[i - 1]
      invariant forall k :: 0 <= k < i ==> Within(es[k], lo, hi)
      invariant forall k :: 0 <= k < i ==> Smoothed(es, samples, k)
    {
      assert Tame(w, e, samples[i], lo, hi);
      e := RtoCalc(w, e, samples[i]);
      SmoothedMore(es, e, samples);
      es := es + [e];
    }
  }

  lemma SmoothedMore(es: seq<Estimate>, e: Estimate, samples: seq<nat>)
    requires |es| < |samples|
    ensures forall k :: 0 <= k < |es| && Smoothed(es, samples, k) ==> Smoothed(es + [e], samples, k)
  {
  }

  /** Each estimate is the smoothing of the one before it. */
  ghost predicate Smoothed(es: seq<Estimate>, samples: seq<nat>, i: nat)
    requires i < |es| <= |samples|
  {
    SmoothedBy(if i == 0 then CREATED else es[i - 1], samples[i], es[i])
  }
}
