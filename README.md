# monitor — metric aggregation, modelled in Dafny

The Go package `monitor` keeps application metrics in a `Store`. A store has a
namespace `head`, a map `vals` from qualified key (`head + ":" + name`) to a
metric, and a map `subs` of child stores. A metric is one of three variants,
each with `Track(n)` and a destructive `Value()` that returns the aggregate
and resets it:

- a **gauge** keeps only the last amount tracked;
- a **counter** adds every amount;
- a **rate** adds every amount. Its first track opens its window, at that
  track's second, while the window start `ts0` is still 0. A read at a later
  second returns the sum over the whole seconds since the window start and
  starts the next window at the read, so no later track moves the window.

The project has three modules:

- `GoInt64` (`go_int64.dfy`) holds Go's `int64` arithmetic. `Wrap` is
  two's-complement wrap-around, as `atomic.AddInt64` and `+=` have it.
  `TruncDiv` is division rounded toward zero. `GoDiv` is Go's `/` on two
  `int64` values, including the one overflowing quotient `MinInt64 / -1`.
- `Metrics` (`metrics.dfy`) holds `MetricState`, the fields of one metric as
  a value. `TrackState`, `ReadValue` and `ReadReset` say what one step does.
  The classes `GaugeMetric`, `CounterMetric` and `RateMetric` hold the
  mutable fields of the Go structs. Their methods are proved to take exactly
  those steps. The datatype `Metric` is a reference to one of the three,
  standing for Go's `metric` interface.
- `Monitor` (`store.dfy`) holds the class `Store`. Its ghost `States()` maps
  every key to its metric's state. `RegisterSpec`, `TrackSpec`, `Snapshot`
  and `ResetAll` say what each store operation does to that map. The
  methods `Register`, `Track` and `Values` are proved against them.
  `Values` keeps Go's loop over the keys.

Wall-clock time (`time.Now().Unix()`) is the parameter `now` of one metric
operation. `Store.Track` passes `now` to the metric. `Store.Values` takes a
function `clock`: the metric under key k is read at second `clock(k)`, since
each `rate.Value` reads the clock for itself and one snapshot may span
several seconds. Each atomic or mutex-protected
method body is one sequential step. Under that reading, the compare-and-swap
loops of `gauge.Value` and `counter.Value` succeed on their first attempt.
The ghost field `Store.diagnostics` records each "unregistered monitor key"
debug message.

Two behaviours of the code are modelled as written:
- `Store.Track` on an unregistered key (monitor/monitor.go:100-103) inserts a
  zero counter and drops the amount. The doc comment at lines 94-95 only asks
  callers to register a metric before tracking it.
- `Store.New` does not record a child it creates in `subs` (see Findings).

## Model

| member | source | states |
|---|---|---|
| GoInt64.Wrap | monitor/monitor.go:187-189 | the result is the only `int64` congruent to the exact sum modulo 2^64, and equals it when it fits |
| GoInt64.WrapUnique | monitor/monitor.go:187-189 | any `int64` congruent to x modulo 2^64 is `Wrap(x)` |
| GoInt64.WrapAdd | monitor/monitor.go:213-222 | wrapping a running sum at every step gives the same result as wrapping the exact total once |
| GoInt64.WrapNonzero | monitor/monitor.go:203-204 | a positive elapsed time below 2^64 does not wrap to 0, so the rate's division is defined |
| GoInt64.TruncDiv | monitor/monitor.go:204 | rounds toward zero; on a non-negative dividend and a positive divisor it agrees with Euclidean division |
| GoInt64.TruncDivMagnitude | monitor/monitor.go:204 | the quotient's magnitude is the magnitudes' quotient and is at most the dividend's magnitude; a nonzero quotient is positive exactly when the operands have the same sign |
| GoInt64.TruncDivRemainder | monitor/monitor.go:204 | the remainder is smaller than the divisor in magnitude and has the dividend's sign (Go's `/` and `%` rule) |
| GoInt64.GoDiv | monitor/monitor.go:204 | Go's `int64` `/` is truncating division, except that `MinInt64 / -1` is `MinInt64` |
| Metrics.Type | monitor/monitor.go:11-19 | the metric kind is a `uint8`, of which `Gauge`, `Counter` and `Rate` are 0, 1 and 2 |
| Metrics.IsKind | monitor/monitor.go:83-90 | the three values the `switch` of `Register` handles |
| Metrics.MetricState | monitor/monitor.go:154-198 | the fields of `gauge` and `counter` (`val`) and of `rate` (`val` and `ts0`) |
| Metrics.ZeroState | monitor/monitor.go:83-90 | `&gauge{}`, `&counter{}` and `&rate{}` hold 0 and have the kind their `Type` names; a rate's `ts0` is 0 |
| Metrics.TrackState | monitor/monitor.go:167-222 | tracking never changes a metric's kind |
| Metrics.ReadValue | monitor/monitor.go:158-211 | a gauge or counter reads its value; a rate whose window has not lasted a second reads 0 |
| Metrics.ReadReset | monitor/monitor.go:158-211 | a read keeps the kind and leaves a state that reads 0 at the same instant; gauge and counter become 0; a rate becomes `(0, now)` after `now > ts0` and is untouched otherwise |
| Metrics.CounterSums | monitor/monitor.go:187-189 | after any run of tracks a counter holds the wrapped sum of the amounts on top of its value |
| Metrics.CounterReadsSumSinceReset | monitor/monitor.go:178-189 | after a read, a counter reads the wrapped sum of the amounts tracked since |
| Metrics.GaugeLastWriteWins | monitor/monitor.go:167-169 | a gauge reads the last amount tracked, or its earlier value if nothing was tracked |
| Metrics.GaugeReadsLastSinceReset | monitor/monitor.go:158-169 | after a read, a gauge reads the last amount tracked since, or 0 if none |
| Metrics.RateAccumulates | monitor/monitor.go:213-222 | a rate holds the wrapped sum; a nonzero `ts0` never moves; a zero `ts0` becomes the time of the first track when that second is nonzero, and a track at second 0 leaves it 0 |
| Metrics.RateReadsPerSecond | monitor/monitor.go:200-211 | with `0 <= ts0 < now`, a read returns the sum divided by `now - ts0` rounded toward zero, no larger in magnitude than the sum, and leaves `(0, now)` |
| Metrics.RateExample | monitor/monitor.go:200-222 | `track(100)` and `track(50)` at second t: a read at u > t gives `150 / (u - t)`; a read at t gives 0 and keeps the sum |
| Metrics.GaugeMetric.constructor | monitor/monitor.go:154-156 | a new gauge holds 0 |
| Metrics.GaugeMetric.Track | monitor/monitor.go:167-169 | the amount replaces the value |
| Metrics.GaugeMetric.Value | monitor/monitor.go:158-165 | returns the value and leaves 0 |
| Metrics.CounterMetric.constructor | monitor/monitor.go:174-176 | a new counter holds 0 |
| Metrics.CounterMetric.Track | monitor/monitor.go:187-189 | adds the amount with `int64` wrap-around |
| Metrics.CounterMetric.Value | monitor/monitor.go:178-185 | returns the sum and leaves 0 |
| Metrics.RateMetric.constructor | monitor/monitor.go:194-198 | a new rate holds sum 0 and `ts0` 0 |
| Metrics.RateMetric.Track | monitor/monitor.go:213-222 | adds with wrap-around; sets `ts0 := now` only when `ts0` is 0 |
| Metrics.RateMetric.Value | monitor/monitor.go:200-211 | if `now > ts0`, returns Go's `val / (now - ts0)` and leaves `(0, now)`; otherwise returns 0 and changes nothing |
| Metrics.Metric.Track | monitor/monitor.go:146-149 | the dispatched `Track` takes exactly `TrackState`'s step |
| Metrics.Metric.Value | monitor/monitor.go:146-149 | the dispatched `Value` returns `ReadValue` and leaves `ReadReset` of the old state |
| Monitor.Key | monitor/monitor.go:81 | the qualified key starts with `head + ":"` and ends with the name |
| Monitor.KeyInjective | monitor/monitor.go:81 | within one store, distinct names give distinct keys |
| Monitor.ChildHead | monitor/monitor.go:75 | a child's head starts with `head + "."` and ends with the child's name |
| Monitor.RegisterSpec | monitor/monitor.go:80-92 | a present key or an unknown kind leaves the map as it is; otherwise a zero metric of the kind is added |
| Monitor.TrackSpec | monitor/monitor.go:96-104 | the key set gains only the key; other keys are unchanged; a present key takes its variant's track; an absent key gets a zero counter; no kind changes |
| Monitor.Snapshot | monitor/monitor.go:107-114 | the snapshot has the map's keys, each with that metric's value read at its own second `clock(k)` |
| Monitor.ResetAll | monitor/monitor.go:107-114 | every metric is reset as its variant prescribes at its own second `clock(k)` and keeps its kind; the key set is unchanged |
| Monitor.RegisterIdempotent | monitor/monitor.go:80-92 | registering twice is registering once, whatever kind the second call names once the first named a kind |
| Monitor.TrackUnregisteredDropsAmount | monitor/monitor.go:100-103 | tracking an unregistered key leaves it reading 0, whatever the amount |
| Monitor.SnapshotTwiceIsZero | monitor/monitor.go:107-114 | a second snapshot that reads every key at the same second as the first reads 0 for every key |
| Monitor.SnapshotAcrossSeconds | monitor/monitor.go:107-114 | one snapshot crossing a second boundary: two rates with sum 10 and window start 1 read 10 at second 2 and 5 at second 3 |
| Monitor.TrackKeyAll | monitor/monitor.go:96-104 | tracking a registered key repeatedly keeps the key set |
| Monitor.TrackKeyAllIsTrackAll | monitor/monitor.go:96-99 | repeated tracking through the store changes only that key, exactly as tracking its metric directly |
| Monitor.StoreCounterSums | monitor/monitor.go:96-114 | a registered counter read through a snapshot after tracks reports the wrapped sum of the amounts on top of what it held |
| Monitor.NewMetric | monitor/monitor.go:83-90 | the `switch` builds a fresh zero metric of the requested kind |
| Monitor.Store.constructor | monitor/monitor.go:61-67 | `newStore(head)` has that head, no metrics, no children and no metric objects |
| Monitor.Store.New | monitor/monitor.go:70-77 | returns the recorded child if there is one, otherwise a fresh store with head `head + "." + h`, no metrics, no children and no metric objects; `subs` and `vals` are unchanged |
| Monitor.Store.Child | monitor/monitor.go:69-77 | as `New`, but a child it creates is recorded in `subs` |
| Monitor.Store.Register | monitor/monitor.go:80-92 | the metric states follow `RegisterSpec`; a new key gets a fresh metric object and no other key changes; the store's objects grow only by fresh ones; `subs` is unchanged |
| Monitor.Store.Insert | monitor/monitor.go:85-89 | adds a metric object the store does not yet hold under a new key, keeping every other key's metric and state |
| Monitor.Store.Track | monitor/monitor.go:96-104 | the metric states follow `TrackSpec`; only an unregistered key adds a fresh counter and one diagnostic; the store's objects grow only by fresh ones; `subs` is unchanged |
| Monitor.Store.TrackOne | monitor/monitor.go:98-99 | exactly that key's metric takes its track step |
| Monitor.Store.Values | monitor/monitor.go:107-114 | returns `Snapshot` of the states before the call, each key read at its own second `clock(k)`, leaves `ResetAll` of them, and changes neither `vals`, `subs`, the store's objects nor its diagnostics |
| Monitor.Store.ReadOne | monitor/monitor.go:109-110 | reads and resets exactly that key's metric |
| Monitor.RegisterTrackRegisterSnapshot | monitor/monitor.go:80-114 | on the map level, register a counter, track 3, register again as a gauge: the snapshot is `app:x` reading 3 |
| Monitor.RegisterTrackRegisterValues | monitor/monitor.go:61-114 | the same run through `newStore("app")`, `Register`, `Track`, `Register` and `Values` returns `app:x` reading 3 |
| Monitor.TrackLeavesOtherStore | monitor/monitor.go:96-104 | tracking in one store leaves another store with disjoint metric objects, and its metrics, unchanged |
| Monitor.RegisterTrackSnapshot | monitor/monitor.go:80-114 | on the map level, register a counter and track 3 under head `app.db`: the snapshot is `app.db:x` reading 3 |
| Monitor.RegisterTrackValuesInChild | monitor/monitor.go:80-114 | `Register`, `Track` and `Values` on an empty store with head `app.db` return `app.db:x` reading 3 |
| Monitor.ChildKeepsItsOwnKeys | monitor/monitor.go:61-114 | a child made from `newStore("app")` keeps its key `app.db:x` reading 3, and the parent's snapshot stays empty |
| Monitor.NewTwiceGivesTwoStores | monitor/monitor.go:70-77 | asking `New` twice for an unrecorded child gives two distinct stores with the same head |
| Monitor.ChildTwiceGivesSameStore | monitor/monitor.go:69-77 | asking `Child` twice gives one store, recorded under its name |

## Left out

- `Print` and `log` (monitor/monitor.go:116-141) are left out: they are a timer goroutine and calls into the logger, which is I/O and concurrency. `log`'s walk over `subs` is left out with them.
- The logger itself is outside the model. The `logger.Debug` call is recorded only as the key appended to the ghost `diagnostics`.
- `sync/atomic` and `sync.Mutex` are left out. Each method body is one sequential step, so the behaviour of concurrent calls is not modelled.
- The package-level default store `app` and its forwarding functions (monitor/monitor.go:21-49) are left out: they only delegate to a `Store`.
- `time.Now()` becomes the parameter `now`, or `clock(k)` in `Store.Values`. `Store.Track` takes `now` for every kind, although Go reads the clock only in `rate.Track`.
- Monitor.Store.Values: Go's map iteration order is unspecified, and the loop picks keys in an arbitrary order. The readings `clock(k)` are arbitrary too: the model does not require them to increase along the order in which the keys are read.
- Monitor.Store.Track: the invariant that every key starts with `head + ":"` is not carried in `Valid()`. Only `Key`'s own contract states the key's shape.
- Monitor.Store.New: the children held in `subs` are not required to have heads that extend `head`, so nothing is stated about a recorded child's head.

## Findings

| source | as written | input that shows it | evidently intended | confidence | as-written member | corrected member |
|---|---|---|---|---|---|---|
| monitor/monitor.go:70-77 | `New` builds a child store but never stores it in `subs` | any store `s` and a name `h` not in `s.subs`: `s.New(h)` twice returns two distinct stores, and `subs` stays empty, so `log` never visits a child | record the new child in `subs`, so that asking again returns it | medium, not executed | Monitor.NewTwiceGivesTwoStores | Monitor.ChildTwiceGivesSameStore |
