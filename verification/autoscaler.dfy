/** One service's control loop (`Autoscaler.Run`) as a state machine: each
    timer tick samples the metrics, and every `scaleRatio`-th tick trims the
    sample window, sizes it, and rescales the service unless the cooldown of
    the last successful rescale still holds. */
module Autoscaler {
  import opened Outcomes
  import opened GoInt
  import opened Config
  import opened Sizing

  /** The loop's constants: the scale ratio and the two delays are counted in
      scale cycles, the rest comes straight from the policy. */
  datatype Params = Params(
    scaleRatio: int,
    upscaleDelay: int,
    downscaleDelay: int,
    coverage: Ratio,
    threshold: int,
    minReplicas: int,
    maxReplicas: int)
  {
    /** What the loop needs of its constants: a positive ratio (else the
        window trim runs out of range), delays that cannot overflow the
        "never rescaled" sentinel, and a positive threshold (else sizing
        may not terminate: with threshold 0 it loops whenever at least the
        needed number of samples are 1 or more). */
    predicate Valid() {
      scaleRatio >= 1 && upscaleDelay >= 0 && downscaleDelay >= 0 && threshold >= 1
    }
  }

  /** The constants `Run` derives from its policy before its first tick. */
  function Derive(cfg: AutoscaleConfig): (p: Params)
    requires cfg.sampleRate != 0 && cfg.scaleRate != 0
    ensures Runnable(cfg) ==> p.Valid()
    ensures Runnable(cfg) ==> p.scaleRatio * cfg.sampleRate == cfg.scaleRate
    ensures Runnable(cfg) ==> p.upscaleDelay * cfg.scaleRate == cfg.upscaleDelay
    ensures Runnable(cfg) ==> p.downscaleDelay * cfg.scaleRate == cfg.downscaleDelay
  {
    assert Runnable(cfg) ==> Quot(cfg.scaleRate, cfg.sampleRate) >= 1 by {
      if Runnable(cfg) {
        WholeQuotient(cfg.scaleRate, cfg.sampleRate);
        WholeQuotient(cfg.upscaleDelay, cfg.scaleRate);
        WholeQuotient(cfg.downscaleDelay, cfg.scaleRate);
      }
    }
    Params(
      Quot(cfg.scaleRate, cfg.sampleRate),
      Quot(cfg.upscaleDelay, cfg.scaleRate),
      Quot(cfg.downscaleDelay, cfg.scaleRate),
      cfg.coverage, cfg.threshold, cfg.minReplicas, cfg.maxReplicas)
  }

  /** The loop's private state: ticks so far, the sample window, and the
      scale cycle of the last successful rescale (`None` until the first). */
  datatype Scaler = Scaler(ticks: nat, samples: seq<int>, rescaled: Option<int>)

  /** The state before the first tick. */
  const Start: Scaler := Scaler(0, [], None)

  /** What the collaborators answer during one tick: one result per
      configured metric, in order; the replica count read at a scale-cycle
      boundary; and the outcome of setting replicas, should that be tried. */
  datatype Observation = Observation(metrics: seq<Result<int>>, replicas: Result<int>, scaled: Status)

  /** The orchestrator mutation a tick performs: none, or setting the
      service's replicas to `count` when it had `current`. */
  datatype Action = Idle | SetReplicas(count: int, current: int, applied: bool)

  /** The result of one tick. */
  datatype Tick = Tick(next: Scaler, action: Action)

  predicate IsUpscale(a: Action) {
    a.SetReplicas? && a.count > a.current
  }

  predicate IsDownscale(a: Action) {
    a.SetReplicas? && a.count < a.current
  }

  predicate Applied(a: Action) {
    a.SetReplicas? && a.applied
  }

  /** `ticks` ends a scale cycle. */
  predicate Boundary(p: Params, ticks: int)
    requires p.scaleRatio >= 1
  {
    ticks % p.scaleRatio == 0
  }

  /** The scale cycle a tick count falls in. */
  function Cycle(p: Params, ticks: int): int
    requires p.scaleRatio >= 1
  {
    ticks / p.scaleRatio
  }

  /** The window length after `ticks` ticks: everything until the first
      trim, then the `scaleRatio` entries kept at the last trim plus those
      sampled since. */
  function WindowLength(p: Params, ticks: nat): nat
    requires p.scaleRatio >= 1
  {
    ticks % p.scaleRatio + (if ticks >= p.scaleRatio then p.scaleRatio else 0)
  }

  /** The states a loop can reach: the window has the length its tick count
      implies, and the last rescale lies in a cycle already reached. */
  predicate Consistent(p: Params, s: Scaler)
    requires p.scaleRatio >= 1
  {
    && |s.samples| == WindowLength(p, s.ticks)
    && (s.rescaled.Some? ==> s.rescaled.value <= Cycle(p, s.ticks))
  }

  /** Every loop starts in a reachable state. */
  lemma StartConsistent(p: Params)
    requires p.scaleRatio >= 1
    ensures Consistent(p, Start)
  {
  }

  /** The aggregate sample of one tick: the sum of the metrics that could be
      read, a failed metric counting as 0. */
  function Aggregate(results: seq<Result<int>>): (total: int)
    ensures (forall i :: 0 <= i < |results| ==> results[i].Err?) ==> total == 0
    ensures (forall i :: 0 <= i < |results| && results[i].Ok? ==> results[i].value >= 0) ==> total >= 0
  {
    if |results| == 0 then 0
    else (if results[0].Ok? then results[0].value else 0) + Aggregate(results[1..])
  }

  /** A failed read contributes 0 and the reads after it still count: the
      aggregate of two runs of reads is the sum of their aggregates, a
      failed read alone aggregates to 0 and a successful one to its value. */
  lemma {:induction false} AggregateSplit(a: seq<Result<int>>, b: seq<Result<int>>)
    ensures Aggregate(a + b) == Aggregate(a) + Aggregate(b)
    ensures forall m :: Aggregate([Err(m)]) == 0
    ensures forall v :: Aggregate([Ok(v)]) == v
  {
    if |a| == 0 {
      assert a + b == b;
    } else {
      assert (a + b)[1..] == a[1..] + b;
      AggregateSplit(a[1..], b);
    }
  }

  /** A failed first read does not stop the later ones from counting. */
  lemma AggregateSkipsFailedRead()
    ensures Aggregate([Err("unreachable"), Ok(5)]) == 5
  {
  }

  function Sum(values: seq<int>): int {
    if |values| == 0 then 0 else values[0] + Sum(values[1..])
  }

  /** Failed metric reads make the aggregate undercount: it never exceeds
      the true total of non-negative backlogs, and equals it when every
      read succeeds. */
  lemma {:induction false} AggregateUndercounts(results: seq<Result<int>>, actual: seq<int>)
    requires |results| == |actual|
    requires forall i :: 0 <= i < |actual| ==> actual[i] >= 0
    requires forall i :: 0 <= i < |results| && results[i].Ok? ==> results[i].value == actual[i]
    ensures Aggregate(results) <= Sum(actual)
    ensures (forall i :: 0 <= i < |results| ==> results[i].Ok?) ==> Aggregate(results) == Sum(actual)
  {
    if |results| > 0 {
      AggregateUndercounts(results[1..], actual[1..]);
    }
  }

  /** The cooldown test: no rescale yet, or `delay` cycles have passed
      since the last one. */
  predicate Elapsed(now: int, rescaled: Option<int>, delay: int) {
    rescaled.None? || now >= rescaled.value + delay
  }

  /** The replica count a trimmed window asks for, clamped into range. */
  function Target(p: Params, window: seq<int>): int
    requires p.threshold >= 1
  {
    Bound(Required(window, p.coverage, p.threshold), p.minReplicas, p.maxReplicas)
  }

  lemma ModStep(t: nat, r: int)
    requires r >= 1
    ensures (t + 1) % r != 0 ==> (t + 1) % r == t % r + 1 && (t + 1 >= r <==> t >= r)
    ensures (t + 1) % r == 0 ==> t + 1 >= r && (t >= r ==> t % r == r - 1) && (t < r ==> t + 1 == r)
    ensures t / r <= (t + 1) / r
  {
    var q, m := t / r, t % r;
    if m + 1 < r {
      DivModUnique(t + 1, r, q, m + 1);
    } else {
      DivModUnique(t + 1, r, q + 1, 0);
    }
    if t < r {
      DivModUnique(t, r, 0, t);
    }
  }

  /** The sampling half of a tick: count it, append its sample, and at a
      boundary cut the window to its last `scaleRatio` samples. */
  function Sample(p: Params, s: Scaler, sample: int): (n: Scaler)
    requires p.Valid() && Consistent(p, s)
    ensures Consistent(p, n)
    ensures n.ticks == s.ticks + 1 && n.rescaled == s.rescaled
    ensures var window := s.samples + [sample];
      if Boundary(p, n.ticks)
      then |n.samples| == p.scaleRatio && n.samples == window[|window| - p.scaleRatio..]
      else n.samples == window
  {
    var ticks := s.ticks + 1;
    var window := s.samples + [sample];
    ModStep(s.ticks, p.scaleRatio);
    if ticks % p.scaleRatio != 0 then Scaler(ticks, window, s.rescaled)
    else Scaler(ticks, window[|window| - p.scaleRatio..], s.rescaled)
  }

  /** What the rescaling half of a tick decides: the new last-rescale
      cycle and the action. */
  datatype Decision = Decision(rescaled: Option<int>, action: Action)

  /** The rescaling half of a tick at a boundary in cycle `now`, given the
      clamped target: read the replica count, and set the target when it
      differs and the cooldown for that direction has passed. */
  function Decide(p: Params, now: int, rescaled: Option<int>, target: int, o: Observation): (d: Decision)
    ensures d.rescaled != rescaled ==> Applied(d.action)
    ensures Applied(d.action) ==> d.rescaled == Some(now)
    ensures d.action.SetReplicas? ==> (d.action.applied <==> o.scaled.Done?)
    ensures o.replicas.Err? ==> d.action == Idle
    ensures d.action.SetReplicas? ==>
      o.replicas == Ok(d.action.current) && d.action.count == target && d.action.count != d.action.current
    ensures IsUpscale(d.action) ==> Elapsed(now, rescaled, p.upscaleDelay)
    ensures IsDownscale(d.action) ==> Elapsed(now, rescaled, p.downscaleDelay)
    ensures o.replicas.Ok? ==>
      var current := o.replicas.value;
      (target > current && Elapsed(now, rescaled, p.upscaleDelay)) ||
      (target < current && Elapsed(now, rescaled, p.downscaleDelay))
      ==> d.action == SetReplicas(target, current, o.scaled.Done?)
  {
    match o.replicas
    case Err(_) => Decision(rescaled, Idle)
    case Ok(current) =>
      if (target > current && Elapsed(now, rescaled, p.upscaleDelay))
         || (target < current && Elapsed(now, rescaled, p.downscaleDelay))
      then Decision(if o.scaled.Done? then Some(now) else rescaled, SetReplicas(target, current, o.scaled.Done?))
      else Decision(rescaled, Idle)
  }

  /** One tick of the loop. */
  function Step(p: Params, s: Scaler, o: Observation): (t: Tick)
    requires p.Valid() && Consistent(p, s)
    ensures Consistent(p, t.next)
    ensures t.next.ticks == s.ticks + 1
    // the tick's aggregate sample always joins the window; at a boundary the
    // window is cut to exactly the last `scaleRatio` samples
    ensures var window := s.samples + [Aggregate(o.metrics)];
      if Boundary(p, t.next.ticks)
      then |t.next.samples| == p.scaleRatio && t.next.samples == window[|window| - p.scaleRatio..]
      else t.next.samples == window
    // the cooldown clock moves only on a successful rescale, to this cycle
    ensures t.next.rescaled != s.rescaled ==> Applied(t.action)
    ensures Applied(t.action) ==> t.next.rescaled == Some(Cycle(p, t.next.ticks))
    ensures t.action.SetReplicas? ==> (t.action.applied <==> o.scaled.Done?)
    // between boundaries, and when the replica count cannot be read, nothing is changed
    ensures !Boundary(p, t.next.ticks) || o.replicas.Err? ==> t.action == Idle
    // a rescale goes to the target, away from the count read, and only once its cooldown has passed
    ensures t.action.SetReplicas? ==>
      && o.replicas == Ok(t.action.current)
      && t.action.count == Target(p, t.next.samples)
      && t.action.count != t.action.current
    ensures IsUpscale(t.action) ==> Elapsed(Cycle(p, t.next.ticks), s.rescaled, p.upscaleDelay)
    ensures IsDownscale(t.action) ==> Elapsed(Cycle(p, t.next.ticks), s.rescaled, p.downscaleDelay)
    // and it does go ahead whenever the target differs and the cooldown has passed
    ensures Boundary(p, t.next.ticks) && o.replicas.Ok? ==>
      var target, current, now := Target(p, t.next.samples), o.replicas.value, Cycle(p, t.next.ticks);
      (target > current && Elapsed(now, s.rescaled, p.upscaleDelay)) ||
      (target < current && Elapsed(now, s.rescaled, p.downscaleDelay))
      ==> t.action == SetReplicas(target, current, o.scaled.Done?)
    ensures s.rescaled.Some? ==> t.next.rescaled.Some? && s.rescaled.value <= t.next.rescaled.value
  {
    var n := Sample(p, s, Aggregate(o.metrics));
    if !Boundary(p, n.ticks) then Tick(n, Idle)
    else
      var d := Decide(p, Cycle(p, n.ticks), s.rescaled, Target(p, n.samples), o);
      Tick(n.(rescaled := d.rescaled), d.action)
  }

  /** The ticks of a loop fed one observation per tick. */
  function Run(p: Params, s: Scaler, obs: seq<Observation>): (trace: seq<Tick>)
    requires p.Valid() && Consistent(p, s)
    ensures |trace| == |obs|
    ensures forall i :: 0 <= i < |trace| ==> trace[i].next.ticks == s.ticks + i + 1
    ensures forall i :: 0 <= i < |trace| ==> Consistent(p, trace[i].next)
    decreases |obs|
  {
    if |obs| == 0 then []
    else
      var t := Step(p, s, obs[0]);
      var rest := Run(p, t.next, obs[1..]);
      assert forall i :: 1 <= i < |rest| + 1 ==> ([t] + rest)[i] == rest[i - 1];
      [t] + rest
  }

  /** Each tick of a run is the step from the state the previous tick left,
      the first one from the state the run starts in. */
  lemma {:induction false} RunStep(p: Params, s: Scaler, obs: seq<Observation>, j: nat)
    requires p.Valid() && Consistent(p, s)
    requires j < |obs|
    ensures Run(p, s, obs)[j] == Step(p, if j == 0 then s else Run(p, s, obs)[j - 1].next, obs[j])
    decreases j
  {
    var t := Step(p, s, obs[0]);
    assert Run(p, s, obs) == [t] + Run(p, t.next, obs[1..]);
    if j > 1 {
      RunStep(p, t.next, obs[1..], j - 1);
    }
  }

  /** One tick keeps a lower bound on the clock, and a rescale in it comes
      at least its direction's delay after that bound. */
  lemma StepAboveClock(p: Params, s: Scaler, o: Observation, base: int)
    requires p.Valid() && Consistent(p, s)
    requires s.rescaled.Some? && base <= s.rescaled.value
    ensures var t := Step(p, s, o);
      && t.next.rescaled.Some? && base <= t.next.rescaled.value
      && (IsUpscale(t.action) ==> Cycle(p, t.next.ticks) >= base + p.upscaleDelay)
      && (IsDownscale(t.action) ==> Cycle(p, t.next.ticks) >= base + p.downscaleDelay)
  {
  }

  /** Rescales keep the cooldown of the last successful rescale before the
      run: an upscale comes at least `upscaleDelay` cycles after it (or after
      any earlier cycle `base`), and a downscale at least `downscaleDelay`
      cycles. */
  lemma {:induction false} CooldownFromStart(p: Params, s: Scaler, obs: seq<Observation>, j: nat, base: int)
    requires p.Valid() && Consistent(p, s)
    requires j < |obs| && s.rescaled.Some? && base <= s.rescaled.value
    ensures var t := Run(p, s, obs)[j];
      IsUpscale(t.action) ==> Cycle(p, t.next.ticks) >= base + p.upscaleDelay
    ensures var t := Run(p, s, obs)[j];
      IsDownscale(t.action) ==> Cycle(p, t.next.ticks) >= base + p.downscaleDelay
    decreases j
  {
    var t := Step(p, s, obs[0]);
    var rest := Run(p, t.next, obs[1..]);
    assert Run(p, s, obs) == [t] + rest;
    StepAboveClock(p, s, obs[0], base);
    if j == 0 {
      assert Run(p, s, obs)[0] == t;
    } else {
      assert Run(p, s, obs)[j] == rest[j - 1];
      CooldownFromStart(p, t.next, obs[1..], j - 1, base);
    }
  }

  /** Rescales keep their cooldowns within a run: after a successful
      rescale, an upscale comes at least `upscaleDelay` cycles later and a
      downscale at least `downscaleDelay` cycles later. */
  lemma {:induction false} CooldownRespected(p: Params, s: Scaler, obs: seq<Observation>, i: nat, j: nat)
    requires p.Valid() && Consistent(p, s)
    requires i < j < |obs| && Applied(Run(p, s, obs)[i].action)
    ensures var earlier, later := Run(p, s, obs)[i], Run(p, s, obs)[j];
      IsUpscale(later.action) ==> Cycle(p, later.next.ticks) >= Cycle(p, earlier.next.ticks) + p.upscaleDelay
    ensures var earlier, later := Run(p, s, obs)[i], Run(p, s, obs)[j];
      IsDownscale(later.action) ==> Cycle(p, later.next.ticks) >= Cycle(p, earlier.next.ticks) + p.downscaleDelay
    decreases i
  {
    var t := Step(p, s, obs[0]);
    var rest := Run(p, t.next, obs[1..]);
    assert Run(p, s, obs) == [t] + rest;
    assert Run(p, s, obs)[j] == rest[j - 1];
    if i == 0 {
      assert Run(p, s, obs)[0] == t;
      CooldownFromStart(p, t.next, obs[1..], j - 1, Cycle(p, t.next.ticks));
    } else {
      assert Run(p, s, obs)[i] == rest[i - 1];
      CooldownRespected(p, t.next, obs[1..], i - 1, j - 1);
    }
  }

  /** Until a rescale succeeds, the cooldown clock stays where it was. */
  lemma {:induction false} ClockHeld(p: Params, s: Scaler, obs: seq<Observation>, j: nat)
    requires p.Valid() && Consistent(p, s)
    requires j < |obs|
    requires forall i :: 0 <= i <= j ==> !Applied(Run(p, s, obs)[i].action)
    ensures Run(p, s, obs)[j].next.rescaled == s.rescaled
  {
    if j > 0 {
      ClockHeld(p, s, obs, j - 1);
      RunStep(p, s, obs, j);
    }
  }

  /** A rescale the orchestrator refused starts no cooldown: as long as no
      rescale succeeds, the next boundary whose target still lies in the
      same direction from the replica count it reads rescales again. */
  lemma RetryAfterFailure(p: Params, s: Scaler, obs: seq<Observation>, j: nat)
    requires p.Valid() && Consistent(p, s)
    requires 0 < j < |obs|
    requires var first := Run(p, s, obs)[0].action; first.SetReplicas? && !first.applied
    requires forall i :: 0 < i < j ==> !Applied(Run(p, s, obs)[i].action)
    requires Boundary(p, Run(p, s, obs)[j].next.ticks) && obs[j].replicas.Ok?
    requires var first, target := Run(p, s, obs)[0].action, Target(p, Run(p, s, obs)[j].next.samples);
      (IsUpscale(first) && target > obs[j].replicas.value) || (IsDownscale(first) && target < obs[j].replicas.value)
    ensures var t := Run(p, s, obs)[j];
      t.action == SetReplicas(Target(p, t.next.samples), obs[j].replicas.value, obs[j].scaled.Done?)
    ensures obs[j].scaled.Done? ==> Run(p, s, obs)[j].next.rescaled == Some(Cycle(p, Run(p, s, obs)[j].next.ticks))
  {
    var trace := Run(p, s, obs);
    assert trace[0] == Step(p, s, obs[0]);
    ClockHeld(p, s, obs, j - 1);
    RunStep(p, s, obs, j);
    DivMonotone(trace[0].next.ticks, trace[j].next.ticks, p.scaleRatio);
  }

  /** Starting the loop for a policy the strict validation accepts, with
      the constants it derives. */
  function Launch(cfg: AutoscaleConfig): (p: Option<Params>)
    ensures p.Some? <==> ValidateStrict(cfg) == Checked(map[])
    ensures p.Some? ==> p.value.Valid()
    ensures p.Some? ==> p.value == Derive(cfg)
    ensures p.Some? ==> p.value.scaleRatio * cfg.sampleRate == cfg.scaleRate
    ensures p.Some? ==> p.value.upscaleDelay * cfg.scaleRate == cfg.upscaleDelay
    ensures p.Some? ==> p.value.downscaleDelay * cfg.scaleRate == cfg.downscaleDelay
    ensures p.Some? ==> p.value.coverage == cfg.coverage && p.value.threshold == cfg.threshold
    ensures p.Some? ==> p.value.minReplicas == cfg.minReplicas && p.value.maxReplicas == cfg.maxReplicas
  {
    if ValidateStrict(cfg) == Checked(map[]) then Some(Derive(cfg)) else None
  }

  /** The trim as the program writes it, `samples[len(samples)-scaleRatio:]`:
      a slice that is out of range makes the program panic. */
  function AsWrittenTrim(p: Params, window: seq<int>): (r: Result<seq<int>>)
    ensures r.Ok? <==> 0 <= p.scaleRatio <= |window|
    ensures r.Ok? ==> |r.value| == p.scaleRatio && window == window[..|window| - p.scaleRatio] + r.value
  {
    if 0 <= p.scaleRatio <= |window| then Ok(window[|window| - p.scaleRatio..])
    else Err("slice bounds out of range")
  }

  /** With valid constants the program's trim never panics and keeps what
      the model's tick keeps. */
  lemma TrimSafeWhenValid(p: Params, s: Scaler, sample: int)
    requires p.Valid() && Consistent(p, s)
    requires Boundary(p, s.ticks + 1)
    ensures AsWrittenTrim(p, s.samples + [sample]) == Ok(Sample(p, s, sample).samples)
  {
    assert |Sample(p, s, sample).samples| == p.scaleRatio;
  }

  /** A policy with sample rate 1s and scale rate -1s passes `Validate`;
      its scale ratio is -1, so the very first tick is a boundary
      (`1 % -1 == 0`) and trimming the one-sample window panics. The strict
      validation refuses it. */
  lemma NegativeScaleRateAccepted()
    ensures var cfg := AutoscaleConfig("web", ["queue"], Ratio(7, 10), 10, 1, 10, Second, -Second, 0, 0);
      && Validate(cfg) == Checked(map[])
      && Derive(cfg).scaleRatio == -1
      && 1 % Derive(cfg).scaleRatio == 0
      && AsWrittenTrim(Derive(cfg), [0]).Err?
      && Launch(cfg) == None
  {
    var cfg := AutoscaleConfig("web", ["queue"], Ratio(7, 10), 10, 1, 10, Second, -Second, 0, 0);
    assert Valid(cfg);
    assert !Runnable(cfg);
  }

  /** The program's cooldown test, `now >= rescaled + delay` in int64, with
      "never rescaled" held as `math.MinInt64`. */
  function AsWrittenElapsed(now: int, rescaled: int, delay: int): (r: bool)
    ensures MinInt64 <= rescaled + delay <= MaxInt64 ==> (r <==> now >= rescaled + delay)
  {
    now >= Wrap64(rescaled + delay)
  }

  /** The sentinel the program stores for "never rescaled". */
  function Encode(rescaled: Option<int>): int {
    if rescaled.None? then MinInt64 else rescaled.value
  }

  /** With non-negative delays and cycle counts that stay in int64, the
      program's sentinel test is the model's cooldown test. */
  lemma SentinelFaithful(now: int, rescaled: Option<int>, delay: int)
    requires 0 <= now && 0 <= delay && now + delay <= MaxInt64
    requires rescaled.Some? ==> 0 <= rescaled.value <= now
    ensures AsWrittenElapsed(now, Encode(rescaled), delay) == Elapsed(now, rescaled, delay)
  {
  }

  /** A policy with an upscale delay of -30s at a 30s scale rate passes
      `Validate` and gets an upscale delay of -1 cycles; `MinInt64 + -1`
      wraps to `MaxInt64`, so before the first successful rescale the
      upscale cooldown never passes and the service is not scaled up until
      a downscale has succeeded (its downscale delay of 0 passes at once).
      The strict validation refuses it. */
  lemma NegativeDelayStallsUpscale()
    ensures var cfg := AutoscaleConfig("web", ["queue"], Ratio(7, 10), 10, 1, 10, Second, 30 * Second, -30 * Second, 0);
      && Validate(cfg) == Checked(map[])
      && Derive(cfg).upscaleDelay == -1
      && Derive(cfg).downscaleDelay == 0
      && Launch(cfg) == None
    ensures forall now :: 0 <= now < MaxInt64 ==> !AsWrittenElapsed(now, MinInt64, -1)
    ensures forall now :: 0 <= now ==> AsWrittenElapsed(now, MinInt64, 0)
  {
    var cfg := AutoscaleConfig("web", ["queue"], Ratio(7, 10), 10, 1, 10, Second, 30 * Second, -30 * Second, 0);
    assert Valid(cfg);
    assert !Runnable(cfg);
    assert Wrap64(MinInt64 + -1) == MaxInt64;
  }
}
