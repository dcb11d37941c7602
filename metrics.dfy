/**
 The three metric variants of the monitor package — gauge, counter and
 rate — each with a `Track` that records an observation and a destructive
 `Value` that reads the aggregate and resets it.

 `MetricState` and the functions over it are the reference behaviour of a
 single step; the classes hold the mutable fields of the Go structs and
 their methods are proved to take exactly those steps. Wall-clock time,
 which the rate reads with `time.Now().Unix()`, is the parameter `now`.
 */
module Metrics {
  import opened GoInt64

  /** The metric kind, a `uint8` of which three values name a variant. */
  type Type = x: int | 0 <= x < 256

  const Gauge: Type := 0
  const Counter: Type := 1
  const Rate: Type := 2

  predicate IsKind(t: Type)
  {
    t == Gauge || t == Counter || t == Rate
  }

  /** The fields of one metric: `val`, and for a rate the window start `ts0`. */
  datatype MetricState =
    | GaugeState(val: int64)
    | CounterState(val: int64)
    | RateState(val: int64, ts0: int64)
  {
    predicate SameKind(other: MetricState)
    {
      (GaugeState? && other.GaugeState?) ||
      (CounterState? && other.CounterState?) ||
      (RateState? && other.RateState?)
    }
  }

  /** The zero-valued metric of kind t, as `&gauge{}`, `&counter{}` or `&rate{}`. */
  function ZeroState(t: Type): (s: MetricState)
    requires IsKind(t)
    ensures s.val == 0
    ensures s.GaugeState? <==> t == Gauge
    ensures s.CounterState? <==> t == Counter
    ensures s.RateState? <==> t == Rate
    ensures s.RateState? ==> s.ts0 == 0
  {
    if t == Gauge then GaugeState(0)
    else if t == Counter then CounterState(0)
    else RateState(0, 0)
  }

  /** One `Track(n)`: a gauge is overwritten, a counter adds with int64
      wrap-around, a rate adds and opens its window at `now` if `ts0` is 0. */
  function TrackState(s: MetricState, n: int64, now: int64): (r: MetricState)
    ensures r.SameKind(s)
  {
    match s
    case GaugeState(_) => GaugeState(n)
    case CounterState(v) => CounterState(Wrap(v + n))
    case RateState(v, ts0) => RateState(Wrap(v + n), if ts0 == 0 then now else ts0)
  }

  /** What `Value()` returns. A rate divides its sum by the whole seconds
      elapsed, with Go's truncating int64 division, and reports 0 while no
      second has elapsed. */
  function ReadValue(s: MetricState, now: int64): (v: int64)
    ensures !s.RateState? ==> v == s.val
    ensures s.RateState? && now <= s.ts0 ==> v == 0
  {
    match s
    case GaugeState(v) => v
    case CounterState(v) => v
    case RateState(v, ts0) =>
      if now > ts0 then
        WrapNonzero(now - ts0);
        GoDiv(v, Wrap(now - ts0))
      else 0
  }

  /** The state `Value()` leaves behind. It is a reset: reading again at the
      same instant yields 0. A rate whose window has not yet lasted a second
      keeps its sum and window start. */
  function ReadReset(s: MetricState, now: int64): (r: MetricState)
    ensures r.SameKind(s)
    ensures ReadValue(r, now) == 0
    ensures !s.RateState? ==> r.val == 0
    ensures s.RateState? && now > s.ts0 ==> r == RateState(0, now)
    ensures s.RateState? && now <= s.ts0 ==> r == s
  {
    match s
    case GaugeState(_) => GaugeState(0)
    case CounterState(_) => CounterState(0)
    case RateState(_, ts0) => if now > ts0 then RateState(0, now) else s
  }

  /** One call of `Track(n)` made at wall-clock second `now`. */
  datatype Observation = Observation(n: int64, now: int64)

  /** The state after the observations, tracked in order. */
  function TrackAll(s: MetricState, obs: seq<Observation>): MetricState
    decreases |obs|
  {
    if obs == [] then s else TrackAll(TrackState(s, obs[0].n, obs[0].now), obs[1..])
  }

  /** The exact sum of the tracked amounts. */
  function Sum(obs: seq<Observation>): int
    decreases |obs|
  {
    if obs == [] then 0 else obs[0].n + Sum(obs[1..])
  }

  /** A counter holds the sum of everything tracked since it was last read,
      wrapped to int64 exactly as a running `atomic.AddInt64` leaves it. */
  lemma {:induction false} CounterSums(v: int64, obs: seq<Observation>, now: int64)
    ensures TrackAll(CounterState(v), obs) == CounterState(Wrap(v + Sum(obs)))
    ensures ReadValue(TrackAll(CounterState(v), obs), now) == Wrap(v + Sum(obs))
    decreases |obs|
  {
    if obs != [] {
      var n := obs[0].n;
      assert TrackAll(CounterState(v), obs) == TrackAll(CounterState(Wrap(v + n)), obs[1..]);
      assert Sum(obs) == n + Sum(obs[1..]);
      CounterSums(Wrap(v + n), obs[1..], now);
      WrapAdd(v + n, Sum(obs[1..]));
    }
  }

  /** After a reset, a counter reads the sum of the amounts tracked since. */
  lemma CounterReadsSumSinceReset(s: MetricState, t: int64, obs: seq<Observation>, now: int64)
    requires s.CounterState?
    ensures ReadValue(TrackAll(ReadReset(s, t), obs), now) == Wrap(Sum(obs))
  {
    CounterSums(0, obs, now);
  }

  /** A gauge reads the last amount tracked since it was last read, and its
      earlier value if nothing was tracked. */
  lemma {:induction false} GaugeLastWriteWins(v: int64, obs: seq<Observation>, now: int64)
    ensures ReadValue(TrackAll(GaugeState(v), obs), now)
         == if obs == [] then v else obs[|obs| - 1].n
    decreases |obs|
  {
    if obs != [] {
      GaugeLastWriteWins(obs[0].n, obs[1..], now);
    }
  }

  /** After a reset, a gauge reads the last amount tracked since, or 0 if
      nothing was tracked. */
  lemma GaugeReadsLastSinceReset(s: MetricState, t: int64, obs: seq<Observation>, now: int64)
    requires s.GaugeState?
    ensures ReadValue(TrackAll(ReadReset(s, t), obs), now)
         == if obs == [] then 0 else obs[|obs| - 1].n
  {
    GaugeLastWriteWins(0, obs, now);
  }

  /** A rate accumulates the wrapped sum. Tracking opens the window only
      while `ts0` is 0: once a read has set `ts0`, no track moves it. */
  lemma {:induction false} RateAccumulates(v: int64, ts0: int64, obs: seq<Observation>)
    ensures TrackAll(RateState(v, ts0), obs).RateState?
    ensures TrackAll(RateState(v, ts0), obs).val == Wrap(v + Sum(obs))
    ensures ts0 != 0 ==> TrackAll(RateState(v, ts0), obs).ts0 == ts0
    ensures ts0 == 0 && obs != [] && obs[0].now != 0 ==>
              TrackAll(RateState(v, ts0), obs).ts0 == obs[0].now
    ensures ts0 == 0 && obs != [] && obs[0].now == 0 ==>
              TrackAll(RateState(v, ts0), obs) == TrackAll(RateState(Wrap(v + obs[0].n), 0), obs[1..])
    decreases |obs|
  {
    if obs != [] {
      var o := obs[0];
      var ts := if ts0 == 0 then o.now else ts0;
      assert TrackAll(RateState(v, ts0), obs) == TrackAll(RateState(Wrap(v + o.n), ts), obs[1..]);
      assert Sum(obs) == o.n + Sum(obs[1..]);
      RateAccumulates(Wrap(v + o.n), ts, obs[1..]);
      WrapAdd(v + o.n, Sum(obs[1..]));
    }
  }

  /** With real timestamps (a window start no earlier than the epoch), a
      rate read after at least one second is the sum divided by the
      elapsed seconds, truncated toward zero, never larger in magnitude
      than the sum; the read closes the window at `now` and clears the sum. */
  lemma RateReadsPerSecond(v: int64, ts0: int64, now: int64)
    requires 0 <= ts0 < now
    ensures ReadValue(RateState(v, ts0), now) == TruncDiv(v, now - ts0)
    ensures Abs(ReadValue(RateState(v, ts0), now)) <= Abs(v)
    ensures ReadReset(RateState(v, ts0), now) == RateState(0, now)
  {
    assert Wrap(now - ts0) == now - ts0;
    TruncDivMagnitude(v, now - ts0);
  }

  /** `track(100)` and `track(50)` in the same second t, then a read u > t:
      the rate is 150 per elapsed second, while a read in second t itself
      reports 0 and keeps the sum. */
  lemma RateExample(t: int64, u: int64)
    requires 0 < t < u
    ensures var s := TrackAll(RateState(0, 0), [Observation(100, t), Observation(50, t)]);
      && ReadValue(s, u) == 150 / (u - t)
      && ReadValue(s, t) == 0
      && ReadReset(s, t) == s
  {
    var obs := [Observation(100, t), Observation(50, t)];
    RateAccumulates(0, 0, obs);
    assert obs[1..] == [Observation(50, t)];
    assert Sum([Observation(50, t)]) == 50 by {
      assert [Observation(50, t)][1..] == [];
    }
    assert Sum(obs) == 150;
    var s := TrackAll(RateState(0, 0), obs);
    assert s == RateState(150, t);
    RateReadsPerSecond(150, t, u);
  }

  /** Go's `gauge`. */
  class GaugeMetric {
    var val: int64

    constructor ()
      ensures val == 0
    {
      val := 0;
    }

    /** `atomic.StoreInt64`: the new value replaces the old. */
    method Track(n: int64)
      modifies this
      ensures val == n
    {
      val := n;
    }

    /** The compare-and-swap loop, taken as the single swap it amounts to
        without interference: returns the value and leaves 0. */
    method Value() returns (v: int64)
      modifies this
      ensures v == old(val) && val == 0
    {
      v := val;
      val := 0;
    }
  }

  /** Go's `counter`. */
  class CounterMetric {
    var val: int64

    constructor ()
      ensures val == 0
    {
      val := 0;
    }

    /** `atomic.AddInt64`, which wraps around on overflow. */
    method Track(n: int64)
      modifies this
      ensures val == Wrap(old(val) + n)
    {
      val := Wrap(val + n);
    }

    /** Swaps the sum for 0 and returns it. */
    method Value() returns (v: int64)
      modifies this
      ensures v == old(val) && val == 0
    {
      v := val;
      val := 0;
    }
  }

  /** Go's `rate`; every method body is one critical section of its mutex. */
  class RateMetric {
    var val: int64
    var ts0: int64

    constructor ()
      ensures val == 0 && ts0 == 0
    {
      val := 0;
      ts0 := 0;
    }

    method Track(n: int64, now: int64)
      modifies this
      ensures val == Wrap(old(val) + n)
      ensures ts0 == if old(ts0) == 0 then now else old(ts0)
    {
      val := Wrap(val + n);
      if ts0 == 0 {
        ts0 := now;
      }
    }

    method Value(now: int64) returns (v: int64)
      modifies this
      ensures old(ts0) < now ==>
                now - old(ts0) < Modulus && Wrap(now - old(ts0)) != 0 &&
                v == GoDiv(old(val), Wrap(now - old(ts0))) && val == 0 && ts0 == now
      ensures now <= old(ts0) ==> v == 0 && val == old(val) && ts0 == old(ts0)
    {
      v := 0;
      if now > ts0 {
        WrapNonzero(now - ts0);
        v := GoDiv(val, Wrap(now - ts0));
        ts0 := now;
        val := 0;
      }
    }
  }

  /** A reference to one metric object, standing for Go's `metric` interface. */
  datatype Metric =
    | GaugeOf(g: GaugeMetric)
    | CounterOf(c: CounterMetric)
    | RateOf(r: RateMetric)
  {
    function Obj(): object
    {
      match this
      case GaugeOf(g) => g
      case CounterOf(c) => c
      case RateOf(r) => r
    }

    /** The fields of the referenced object. */
    function State(): MetricState
      reads Obj()
    {
      match this
      case GaugeOf(g) => GaugeState(g.val)
      case CounterOf(c) => CounterState(c.val)
      case RateOf(r) => RateState(r.val, r.ts0)
    }

    /** `m.Track(n)` dispatched to the variant. */
    method Track(n: int64, now: int64)
      modifies Obj()
      ensures State() == TrackState(old(State()), n, now)
    {
      match this
      case GaugeOf(g) => g.Track(n);
      case CounterOf(c) => c.Track(n);
      case RateOf(r) => r.Track(n, now);
    }

    /** `m.Value()` dispatched to the variant. */
    method Value(now: int64) returns (v: int64)
      modifies Obj()
      ensures v == ReadValue(old(State()), now)
      ensures State() == ReadReset(old(State()), now)
    {
      match this
      case GaugeOf(g) => v := g.Value();
      case CounterOf(c) => v := c.Value();
      case RateOf(r) => v := r.Value(now);
    }
  }
}
