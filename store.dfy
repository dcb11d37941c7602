/**
 The metric store: a head string, a map from qualified key to metric, and a
 map of child stores. Keys are qualified as `head + ":" + name` when a
 metric is registered or tracked; child heads as `head + "." + name`.

 The map-level functions below are the reference behaviour of each store
 operation on the metrics' states; the class `Store` holds the Go struct's
 fields and its methods are proved to follow them.
 */
module Monitor {
  import opened GoInt64
  import opened Metrics

  /** The fully-qualified key of metric `k` in a store with head `head`. */
  function Key(head: string, k: string): (key: string)
    ensures head + ":" <= key
    ensures |key| == |head| + 1 + |k| && key[|head| + 1..] == k
  {
    head + ":" + k
  }

  /** A key determines the metric name it was made from: a metric's identity
      is fixed once registered. */
  lemma KeyInjective(head: string, k1: string, k2: string)
    requires Key(head, k1) == Key(head, k2)
    ensures k1 == k2
  {
    assert k1 == Key(head, k1)[|head| + 1..];
  }

  /** The head of the child store `h` of a store with head `head`. */
  function ChildHead(head: string, h: string): (child: string)
    ensures head + "." <= child
    ensures child[|head| + 1..] == h
  {
    head + "." + h
  }

  /** `Register` on the metric states: insert a zero metric of kind t only
      if the key is absent and t names a kind. */
  function RegisterSpec(m: map<string, MetricState>, key: string, t: Type): (r: map<string, MetricState>)
    ensures key in m ==> r == m
    ensures key !in m && IsKind(t) ==> r == m[key := ZeroState(t)]
    ensures !IsKind(t) ==> r == m
  {
    if key !in m && IsKind(t) then m[key := ZeroState(t)] else m
  }

  /** `Track` on the metric states. */
  function TrackSpec(m: map<string, MetricState>, key: string, n: int64, now: int64): (r: map<string, MetricState>)
    ensures r.Keys == m.Keys + {key}
    ensures forall j :: j in m && j != key ==> r[j] == m[j]
    ensures key in m ==> r[key] == TrackState(m[key], n, now)
    ensures key !in m ==> r[key] == CounterState(0)
    ensures forall j :: j in m ==> r[j].SameKind(m[j])
  {
    if key in m then m[key := TrackState(m[key], n, now)] else m[key := CounterState(0)]
  }

  /** The map `Values` returns when the metric under key k is read at
      wall-clock second `clock(k)`: each `rate.Value` reads the clock for
      itself, so one snapshot may see several seconds. */
  function Snapshot(m: map<string, MetricState>, clock: string -> int64): (res: map<string, int64>)
    ensures res.Keys == m.Keys
    ensures forall k :: k in m ==> res[k] == ReadValue(m[k], clock(k))
  {
    map k | k in m :: ReadValue(m[k], clock(k))
  }

  /** The metric states `Values` leaves behind, with the same readings of
      the clock. */
  function ResetAll(m: map<string, MetricState>, clock: string -> int64): (r: map<string, MetricState>)
    ensures r.Keys == m.Keys
    ensures forall k :: k in m ==> r[k] == ReadReset(m[k], clock(k)) && r[k].SameKind(m[k])
  {
    map k | k in m :: ReadReset(m[k], clock(k))
  }

  /** Registering twice is registering once, whatever kind the second call
      names: the existing metric and its accumulated value are kept. */
  lemma RegisterIdempotent(m: map<string, MetricState>, key: string, t: Type, t2: Type)
    ensures RegisterSpec(RegisterSpec(m, key, t), key, t) == RegisterSpec(m, key, t)
    ensures IsKind(t) ==> RegisterSpec(RegisterSpec(m, key, t), key, t2) == RegisterSpec(m, key, t)
  {
  }

  /** Tracking an unregistered key creates a zero counter and drops the
      amount: a snapshot then reports 0 for that key. */
  lemma TrackUnregisteredDropsAmount(m: map<string, MetricState>, key: string, n: int64, now: int64, clock: string -> int64)
    requires key !in m
    ensures Snapshot(TrackSpec(m, key, n, now), clock)[key] == 0
  {
  }

  /** A second snapshot that reads every key at the same second as the
      first did reads 0 for every key. */
  lemma SnapshotTwiceIsZero(m: map<string, MetricState>, clock: string -> int64)
    ensures forall k :: k in m ==> Snapshot(ResetAll(m, clock), clock)[k] == 0
  {
  }

  /** One snapshot that crosses a second boundary: two rates with the same
      sum and window read 10 at second 2 and 5 at second 3. */
  lemma SnapshotAcrossSeconds(clock: string -> int64)
    requires clock("a") == 2 && clock("b") == 3
    ensures Snapshot(map["a" := RateState(10, 1), "b" := RateState(10, 1)], clock) == map["a" := 10, "b" := 5]
  {
    var m := map["a" := RateState(10, 1), "b" := RateState(10, 1)];
    RateReadsPerSecond(10, 1, 2);
    RateReadsPerSecond(10, 1, 3);
    assert ReadValue(m["a"], clock("a")) == 10;
    assert ReadValue(m["b"], clock("b")) == 5;
  }

  /** The metric states after tracking the observations under one key. */
  function TrackKeyAll(m: map<string, MetricState>, key: string, obs: seq<Observation>): (r: map<string, MetricState>)
    ensures key in m ==> r.Keys == m.Keys
    decreases |obs|
  {
    if obs == [] then m else TrackKeyAll(TrackSpec(m, key, obs[0].n, obs[0].now), key, obs[1..])
  }

  /** Repeated tracking through the store acts on the registered metric
      alone, exactly as tracking the metric itself. */
  lemma {:induction false} TrackKeyAllIsTrackAll(m: map<string, MetricState>, key: string, obs: seq<Observation>)
    requires key in m
    ensures TrackKeyAll(m, key, obs) == m[key := TrackAll(m[key], obs)]
    decreases |obs|
  {
    if obs != [] {
      var m1 := TrackSpec(m, key, obs[0].n, obs[0].now);
      TrackKeyAllIsTrackAll(m1, key, obs[1..]);
      assert m1[key := TrackAll(m1[key], obs[1..])] == m[key := TrackAll(m[key], obs)];
    }
  }

  /** A registered counter, read through a snapshot after a run of tracks,
      reports the wrapped sum of their amounts on top of what it held. */
  lemma StoreCounterSums(m: map<string, MetricState>, key: string, v: int64, obs: seq<Observation>, clock: string -> int64)
    requires key in m && m[key] == CounterState(v)
    ensures Snapshot(TrackKeyAll(m, key, obs), clock)[key] == Wrap(v + Sum(obs))
  {
    TrackKeyAllIsTrackAll(m, key, obs);
    CounterSums(v, obs, clock(key));
  }

  /** What `Values` has returned once the keys in `todo` remain to be read. */
  ghost function PartialSnapshot(m: map<string, MetricState>, todo: set<string>, clock: string -> int64): map<string, int64>
  {
    map k | k in m && k !in todo :: ReadValue(m[k], clock(k))
  }

  /** The metric states once the keys in `todo` remain to be read. */
  ghost function PartialReset(m: map<string, MetricState>, todo: set<string>, clock: string -> int64): map<string, MetricState>
  {
    map k | k in m :: if k in todo then m[k] else ReadReset(m[k], clock(k))
  }

  lemma PartialStart(m: map<string, MetricState>, clock: string -> int64)
    ensures PartialSnapshot(m, m.Keys, clock) == map[]
    ensures PartialReset(m, m.Keys, clock) == m
  {
  }

  lemma PartialStep(m: map<string, MetricState>, todo: set<string>, k: string, clock: string -> int64)
    requires k in todo && k in m
    ensures PartialSnapshot(m, todo, clock)[k := ReadValue(m[k], clock(k))] == PartialSnapshot(m, todo - {k}, clock)
    ensures PartialReset(m, todo, clock)[k := ReadReset(m[k], clock(k))] == PartialReset(m, todo - {k}, clock)
  {
  }

  lemma PartialEnd(m: map<string, MetricState>, clock: string -> int64)
    ensures PartialSnapshot(m, {}, clock) == Snapshot(m, clock)
    ensures PartialReset(m, {}, clock) == ResetAll(m, clock)
  {
  }

  /** A fresh zero metric of kind t: the `switch` of `Register`. */
  method NewMetric(t: Type) returns (m: Metric)
    requires IsKind(t)
    ensures fresh(m.Obj()) && m.State() == ZeroState(t)
  {
    if t == Gauge {
      var g := new GaugeMetric();
      m := GaugeOf(g);
    } else if t == Counter {
      var c := new CounterMetric();
      m := CounterOf(c);
    } else {
      var r := new RateMetric();
      m := RateOf(r);
    }
  }

  /** Go's `Store`. `diagnostics` records the key of every "unregistered
      monitor key" debug message. */
  class Store {
    const head: string
    var vals: map<string, Metric>
    var subs: map<string, Store>
    ghost var diagnostics: seq<string>
    /** The metric objects the store refers to. */
    ghost var Repr: set<object>

    /** Each key has its own metric object in `Repr`, and the store itself
        is not one of them. */
    ghost predicate Valid()
      reads this`vals, this`Repr
    {
      && this !in Repr
      && (forall k :: k in vals ==> vals[k].Obj() in Repr)
      && (forall k1, k2 :: k1 in vals && k2 in vals && k1 != k2 ==> vals[k1].Obj() != vals[k2].Obj())
    }

    /** The state of every metric, by key. */
    ghost function States(): (a: map<string, MetricState>)
      reads this`vals, this`Repr, Repr
      requires Valid()
      ensures a.Keys == vals.Keys
    {
      map k | k in vals :: vals[k].State()
    }

    /** `newStore(head)`. */
    constructor (head: string)
      ensures this.head == head && vals == map[] && subs == map[] && diagnostics == []
      ensures Valid() && States() == map[] && Repr == {}
    {
      this.head := head;
      vals := map[];
      subs := map[];
      diagnostics := [];
      Repr := {};
    }

    /** The child store `h`: the stored one if there is one, otherwise a
        fresh, empty store that is not recorded in `subs`. */
    method New(h: string) returns (sub: Store)
      ensures h in subs ==> sub == subs[h]
      ensures h !in subs ==>
                && fresh(sub) && sub.Valid()
                && sub.head == ChildHead(head, h)
                && sub.vals == map[] && sub.subs == map[] && sub.diagnostics == [] && sub.Repr == {}
    {
      if h in subs {
        sub := subs[h];
      } else {
        sub := new Store(head + "." + h);
      }
    }

    /** `New` as its doc comment and `log` evidently intend: a child made
        here is recorded in `subs`, so asking again returns it. */
    method Child(h: string) returns (sub: Store)
      modifies this`subs
      ensures h in old(subs) ==> sub == old(subs)[h] && subs == old(subs)
      ensures h !in old(subs) ==>
                && fresh(sub) && sub.Valid()
                && sub.head == ChildHead(head, h)
                && sub.vals == map[] && sub.subs == map[] && sub.diagnostics == [] && sub.Repr == {}
                && subs == old(subs)[h := sub]
    {
      if h in subs {
        sub := subs[h];
      } else {
        sub := new Store(head + "." + h);
        subs := subs[h := sub];
      }
    }

    method Register(k: string, t: Type)
      requires Valid()
      modifies this`vals, this`Repr
      ensures Valid()
      ensures States() == RegisterSpec(old(States()), Key(head, k), t)
      ensures if Key(head, k) in old(vals) || !IsKind(t) then vals == old(vals)
              else vals == old(vals)[Key(head, k) := vals[Key(head, k)]] && fresh(vals[Key(head, k)].Obj())
      ensures subs == old(subs) && diagnostics == old(diagnostics)
      ensures fresh(Repr - old(Repr)) && old(Repr) <= Repr
    {
      var key := Key(head, k);
      if key !in vals {
        if IsKind(t) {
          ghost var a0 := States();
          var m := NewMetric(t);
          Insert(key, m);
          assert States() == a0[key := ZeroState(t)];
        }
      }
    }

    /** Adds a metric object the store does not hold yet under a new key. */
    method Insert(key: string, m: Metric)
      requires Valid() && key !in vals
      requires m.Obj() !in Repr && m.Obj() != this
      modifies this`vals, this`Repr
      ensures Valid() && vals == old(vals)[key := m] && Repr == old(Repr) + {m.Obj()}
      ensures States() == old(States())[key := m.State()]
    {
      ghost var a0 := States();
      vals := vals[key := m];
      Repr := Repr + {m.Obj()};
      assert forall j :: j in old(vals) ==> vals[j].Obj() != m.Obj();
      assert forall j :: j in old(vals) ==> vals[j].State() == a0[j];
    }

    method Track(k: string, n: int64, now: int64)
      requires Valid()
      modifies this`vals, this`diagnostics, this`Repr, Repr
      ensures Valid()
      ensures States() == TrackSpec(old(States()), Key(head, k), n, now)
      ensures if Key(head, k) in old(vals) then vals == old(vals)
              else vals == old(vals)[Key(head, k) := vals[Key(head, k)]] && fresh(vals[Key(head, k)].Obj())
      ensures diagnostics ==
                if Key(head, k) in old(vals) then old(diagnostics)
                else old(diagnostics) + [Key(head, k)]
      ensures subs == old(subs)
      ensures fresh(Repr - old(Repr)) && old(Repr) <= Repr
    {
      var key := Key(head, k);
      ghost var a0 := States();
      if key in vals {
        TrackOne(key, n, now);
        assert States() == a0[key := TrackState(a0[key], n, now)];
      } else {
        diagnostics := diagnostics + [key];
        var c := new CounterMetric();
        Insert(key, CounterOf(c));
        assert States() == a0[key := CounterState(0)];
      }
    }

    /** Tracks n on the metric under key k; no other metric changes. */
    method TrackOne(k: string, n: int64, now: int64)
      requires Valid() && k in vals
      modifies vals[k].Obj()
      ensures Valid() && vals == old(vals) && Repr == old(Repr)
      ensures States() == old(States())[k := TrackState(old(States())[k], n, now)]
    {
      ghost var a0 := States();
      var m := vals[k];
      m.Track(n, now);
      forall j | j in vals && j != k
        ensures vals[j].State() == a0[j]
      {
        assert vals[j].Obj() != m.Obj();
      }
      assert States() == a0[k := TrackState(a0[k], n, now)];
    }

    /** Reads and resets every metric of this store (not of its children);
        the metric under key k reads the clock as `clock(k)`. */
    method Values(clock: string -> int64) returns (res: map<string, int64>)
      requires Valid()
      modifies Repr
      ensures Valid()
      ensures res == Snapshot(old(States()), clock)
      ensures States() == ResetAll(old(States()), clock)
      ensures vals == old(vals) && subs == old(subs)
      ensures Repr == old(Repr) && diagnostics == old(diagnostics)
    {
      ghost var a0 := States();
      res := map[];
      var todo := vals.Keys;
      PartialStart(a0, clock);
      while todo != {}
        invariant Valid() && vals == old(vals) && todo <= a0.Keys
        invariant res == PartialSnapshot(a0, todo, clock)
        invariant States() == PartialReset(a0, todo, clock)
        decreases |todo|
      {
        var k :| k in todo;
        var v := ReadOne(k, clock(k));
        PartialStep(a0, todo, k, clock);
        res := res[k := v];
        todo := todo - {k};
      }
      PartialEnd(a0, clock);
    }

    /** Reads and resets the metric under key k; no other metric changes. */
    method ReadOne(k: string, now: int64) returns (v: int64)
      requires Valid() && k in vals
      modifies vals[k].Obj()
      ensures Valid() && vals == old(vals)
      ensures v == ReadValue(old(States())[k], now)
      ensures States() == old(States())[k := ReadReset(old(States())[k], now)]
    {
      ghost var a0 := States();
      var m := vals[k];
      v := m.Value(now);
      forall j | j in vals && j != k
        ensures vals[j].State() == a0[j]
      {
        assert vals[j].Obj() != m.Obj();
      }
      assert States() == a0[k := ReadReset(a0[k], now)];
    }
  }

  /** Asking a store twice for the same unrecorded child yields two distinct
      stores with the same head, since `New` never records the child. */
  method NewTwiceGivesTwoStores(s: Store, h: string) returns (a: Store, b: Store)
    requires h !in s.subs
    ensures a != b && a.head == b.head == ChildHead(s.head, h)
    ensures s.subs == old(s.subs)
  {
    a := s.New(h);
    b := s.New(h);
  }

  /** With `Child`, asking twice for the same child yields one store, which
      stays recorded under its name. */
  method ChildTwiceGivesSameStore(s: Store, h: string) returns (a: Store, b: Store)
    modifies s`subs
    ensures a == b && h in s.subs && s.subs[h] == a
    ensures h !in old(s.subs) ==> fresh(a) && a.head == ChildHead(s.head, h)
  {
    a := s.Child(h);
    b := s.Child(h);
  }

  /** The map-level run behind `RegisterTrackRegisterValues`. */
  lemma RegisterTrackRegisterSnapshot(clock: string -> int64)
    ensures var m0 := RegisterSpec(map[], Key("app", "x"), Counter);
            var m1 := TrackSpec(m0, Key("app", "x"), 3, 1);
            Snapshot(RegisterSpec(m1, Key("app", "x"), Gauge), clock) == map["app:x" := 3]
  {
    var key := Key("app", "x");
    assert key == "app:x";
    var m0 := RegisterSpec(map[], key, Counter);
    assert m0 == map[key := CounterState(0)];
    var m1 := TrackSpec(m0, key, 3, 1);
    assert m1 == map[key := CounterState(3)];
    assert RegisterSpec(m1, key, Gauge) == m1;
  }

  /** A store driven through its methods as a client would: register a
      counter, track 3, register the key again as a gauge, then read. The
      second registration keeps the counter, and the read reports 3. */
  method RegisterTrackRegisterValues(clock: string -> int64) returns (res: map<string, int64>)
    ensures res == map["app:x" := 3]
  {
    var s := new Store("app");
    s.Register("x", Counter);
    s.Track("x", 3, 1);
    s.Register("x", Gauge);
    res := s.Values(clock);
    RegisterTrackRegisterSnapshot(clock);
  }

  /** Two stores with disjoint metric objects do not interfere: tracking in
      one leaves the other's metrics and fields as they were. */
  method TrackLeavesOtherStore(a: Store, b: Store, k: string, n: int64, now: int64)
    requires a != b && a.Valid() && b.Valid()
    requires a.Repr !! b.Repr && a !in b.Repr && b !in a.Repr
    modifies a`vals, a`diagnostics, a`Repr, a.Repr
    ensures b.Valid() && b.States() == old(b.States())
    ensures b.vals == old(b.vals) && b.subs == old(b.subs) && b.Repr == old(b.Repr)
    ensures a.Repr !! b.Repr
  {
    a.Track(k, n, now);
  }

  /** The map-level run behind `ChildKeepsItsOwnKeys`: register a counter
      and track 3 in a store whose head is "app.db". */
  lemma RegisterTrackSnapshot(clock: string -> int64)
    ensures var m0 := RegisterSpec(map[], Key("app.db", "x"), Counter);
            Snapshot(TrackSpec(m0, Key("app.db", "x"), 3, 1), clock) == map["app.db:x" := 3]
  {
    var key := Key("app.db", "x");
    assert key == "app.db:x";
    var m0 := RegisterSpec(map[], key, Counter);
    assert m0 == map[key := CounterState(0)];
    assert TrackSpec(m0, key, 3, 1) == map[key := CounterState(3)];
  }

  /** Registers a counter "x" in an empty store with head "app.db", tracks
      3 on it and reads the store. */
  method RegisterTrackValuesInChild(c: Store, clock: string -> int64) returns (res: map<string, int64>)
    requires c.Valid() && c.head == "app.db" && c.vals == map[] && c.Repr == {}
    modifies c
    ensures res == map["app.db:x" := 3]
  {
    c.Register("x", Counter);
    c.Track("x", 3, 1);
    res := c.Values(clock);
    RegisterTrackSnapshot(clock);
  }

  /** A child store used as a client would: its keys are qualified by the
      child's head and stay out of the parent's snapshot. */
  method ChildKeepsItsOwnKeys(clock: string -> int64) returns (child: map<string, int64>, root: map<string, int64>)
    ensures child == map["app.db:x" := 3] && root == map[]
  {
    var s := new Store("app");
    var c := s.Child("db");
    child := RegisterTrackValuesInChild(c, clock);
    root := s.Values(clock);
  }
}
