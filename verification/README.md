# kogia autoscaler — a Dafny model of its steering core

kogia scales Docker Swarm services by queue backlog. Each service has an
autoscaling policy. A policy names:

- the service and the metrics to sum;
- a coverage fraction and a per-replica threshold;
- a replica range;
- a sample rate and a scale rate;
- upscale and downscale delays.

The loop for each service runs like this:

- Once per sample interval it sums the metrics into one sample.
- At every scale-cycle boundary (every `scale_rate / sample_rate` ticks) it trims the sample window to that many samples.
- It computes the least replica count under which fewer than the coverage fraction of the window's samples exceed its capacity (replicas times the per-replica threshold).
- It clamps that count into the replica range.
- It rescales the service when the count differs from the current one and the cooldown since the last successful rescale has passed.

This project models `steering.go`: the policy validation, the merge with defaults, the sizing rule `required`, the clamp `bound`, and one tick of `Autoscaler.Run` as a pure state transition. It proves what each promises.

Modules:

- `Outcomes` — `Option`, `Result` and `Status`. The error-returning calls into the metric source and the orchestrator are modelled as these values, passed in.
- `GoInt` — Go's truncating integer division (`Quot`) and int64 wrap-around (`Wrap64`) over unbounded `int`, with the division facts the proofs use.
- `Config` — `AutoscaleConfig` and `Validate`.
  - `Validate` returns the field→message map, or `Panicked` for the integer division by zero Go hits when `sample_rate` or `scale_rate` is 0.
  - Also here: `FillWithDefaults`, and the stricter `ValidateStrict` used by the corrected loop.
- `Sizing` — `Required` and `Bound`, with a minimality specification (`IsLeastSufficient`) and the unit-test vectors.
- `Autoscaler` — the loop's constants (`Derive`, `Launch`), its state (`Scaler`), one tick (`Step`), a run of ticks (`Run`), and the cooldown theorems.

Durations are `int` nanosecond counts. `coverage` is a fraction `Ratio(num, den)`. Go's `int(float64(n) * coverage)` is modelled as `n * num / den` truncated toward zero.

## Model

| member | source | states |
|---|---|---|
| Config.Validate | steering.go:47-85 | Panics exactly when `sample_rate` or `scale_rate` is 0. Otherwise every rule is checked with no short-circuit: a field's key is in the result iff its rule is violated, and it carries that rule's message. The map is empty iff all eleven rules hold. |
| Config.ErrorsAt | steering.go:50-82 | For each field, the error map built in program order has the field iff its rule is broken, with the message of the last rule that wrote it. |
| Config.KeysDistinct | steering.go:50-82 | Distinct fields are reported under distinct configuration keys, so the field-keyed map is the program's string-keyed map renamed. |
| Config.MaxReplicasLastRuleWins | steering.go:65-70 | When `max_replicas` is both negative and below `min_replicas`, its message is the "less than min_replicas" one written last. |
| Config.FillWithDefaults | steering.go:89-120 | Every field not at its zero value is kept. Every field at its zero value (empty service, no metrics, 0 coverage, 0 count or duration) takes the default's value. |
| Config.FillIdempotent | steering.go:89-120 | Merging twice with the same defaults is merging once. |
| Config.FillLayers | steering.go:89-120 | Merging with defaults d1 and then d2 equals merging with d1-merged-over-d2. |
| Config.FillNamedOnly | steering.go:89-120 | A policy giving only service and metrics becomes the defaults with that service and those metrics. |
| Config.ValidateStrict | steering.go:47-85 | Panics exactly when `Validate` does. Every field other than the scale rate and the two delays has exactly `Validate`'s key and message. Each of those three is reported iff its `Validate` rule is broken or it is negative; a negative one carries the "can't be negative" message, otherwise `Validate`'s. It is empty iff the policy is `Runnable`. |
| Sizing.Search | steering.go:204-215 | Started at a count below which every count is insufficient, the search returns the least sufficient count. It terminates for a positive threshold, measured by peak minus count. |
| Sizing.Required | steering.go:198-216 | Returns -1 iff `len·coverage`, truncated, is ≤ 0 or > len. Otherwise returns the least `r ≥ 0` leaving fewer than that many samples at or above `r·threshold+1`; every smaller count leaves at least that many. |
| Sizing.LeastSufficientUnique | steering.go:204-215 | The least sufficient replica count is unique, so the specification determines `required`. |
| Sizing.RequiredPermutation | steering.go:206-210 | The result depends only on the multiset of samples, not their order. |
| Sizing.RequiredMonotone | steering.go:198-216 | A window that is pointwise at least as large never needs fewer replicas. |
| Sizing.RequiredBelowPeak | steering.go:204-215 | A positive result `r` has `(r-1)·threshold` below the largest sample. |
| Sizing.RequiredIs | steering.go:204-215 | A count that is sufficient, with its predecessor insufficient, is the result. |
| Sizing.RequiredIdleExamples | steering_test.go:6-7 | The all-zero and almost-zero windows need 0 replicas at coverage 0.7 and threshold 10. |
| Sizing.RequiredOneReplicaExamples | steering_test.go:8-11 | The low-line and spike windows need 1 replica. |
| Sizing.RequiredRampExamples | steering_test.go:9-10 | The rising ramp and the falling ramp both need 3 replicas. |
| Sizing.RequiredJumpExample | steering_test.go:12 | The sudden-jump window needs 6 replicas. |
| Sizing.Bound | steering.go:218-226 | With `min ≤ max` the result lies in `[min, max]`. A value already in range is kept. A value above `max`, or any value when `min > max`, becomes `max`. A value below `min ≤ max` becomes `min`. |
| Sizing.BoundExamples | steering_test.go:25-31 | The six clamp test cases, including `bound(12, 20, 10) == 10`, where the ceiling takes precedence. |
| Sizing.BoundIdempotent | steering.go:218-226 | Clamping a clamped value changes nothing. |
| Autoscaler.Derive | steering.go:133-135 | For a runnable policy: the scale ratio is at least 1, the delays in cycles are non-negative, and each is an exact quotient (ratio·sample_rate = scale_rate, delay·scale_rate = the delay duration). |
| Autoscaler.Aggregate | steering.go:142-153 | A tick's sample is 0 when every metric read fails, and non-negative when the readable metrics are. |
| Autoscaler.AggregateSplit | steering.go:142-151 | The aggregate of reads is additive over concatenation. A failed read alone contributes 0 and a successful one its value, so a failed read is skipped and the reads after it still count. |
| Autoscaler.AggregateSkipsFailedRead | steering.go:142-151 | A failed first read followed by a read of 5 aggregates to 5. |
| Autoscaler.AggregateUndercounts | steering.go:142-151 | The sample never exceeds the true total of non-negative backlogs, and equals it when every read succeeds. |
| Autoscaler.Step | steering.go:138-193 | Keeps the window-length invariant and appends the tick's sample; at a boundary it cuts the window to its last `scaleRatio` samples. The clock moves only on a successful set, to this cycle. It does nothing between boundaries or when replicas cannot be read. It rescales only to a clamped target different from the count read, once that direction's cooldown has passed, and always does so then (details below the table). |
| Autoscaler.Sample | steering.go:139-155 | The sampling half of a tick. It counts the tick and appends the sample. At a boundary the window is cut to exactly its last `scaleRatio` samples, otherwise it is kept whole. The window-length invariant is preserved and the clock is untouched. |
| Autoscaler.Decide | steering.go:159-193 | The rescaling half at a boundary. It does nothing when replicas cannot be read. It sets the target only when it differs from the count read and that direction's cooldown has passed, and always does so then. The clock moves to this cycle exactly when the set succeeds. |
| Autoscaler.Run | steering.go:138-193 | A run yields one tick per observation. Tick counts advance by one, and every state reached keeps the window-length invariant. |
| Autoscaler.RunStep | steering.go:138-193 | Each tick of a run is one step from the state the previous tick left; the first is one step from the starting state. |
| Autoscaler.StartConsistent | steering.go:129-131 | The initial state (no ticks, empty window, never rescaled) satisfies the window-length invariant. |
| Autoscaler.StepAboveClock | steering.go:166-191 | One tick keeps any lower bound on the clock. A rescale in that tick comes at least its direction's delay after the bound. |
| Autoscaler.CooldownFromStart | steering.go:166-191 | In any run, an upscale (downscale) comes at least `upscaleDelay` (`downscaleDelay`) cycles after the last successful rescale before the run, or after any earlier cycle. |
| Autoscaler.CooldownRespected | steering.go:166-191 | Within a run, after a successful rescale at tick i, an upscale (downscale) at a later tick j lies at least `upscaleDelay` (`downscaleDelay`) cycles later. |
| Autoscaler.ClockHeld | steering.go:170-176 | While no rescale succeeds, the last-rescale cycle stays where it was. |
| Autoscaler.RetryAfterFailure | steering.go:170-176 | After a refused rescale and no success since, the next boundary whose target still lies in the same direction rescales again. Its success moves the clock to that cycle. |
| Autoscaler.Launch | steering.go:128-135 | A loop starts iff the strict validation accepts the policy. Its constants are then those `Derive` computes: valid, with the scale ratio and both delays exact quotients, and carrying the policy's coverage, threshold and replica range. |
| Autoscaler.AsWrittenTrim | steering.go:155 | The program's slice `samples[len-scaleRatio:]` succeeds iff `0 ≤ scaleRatio ≤ len`, keeping the last `scaleRatio` samples. |
| Autoscaler.TrimSafeWhenValid | steering.go:154-155 | With valid constants, the program's trim at a boundary never panics and keeps exactly what `Step` keeps. |
| Autoscaler.NegativeScaleRateAccepted | steering.go:74-76 | A policy with scale rate -1s passes `Validate`. Its ratio is -1, tick 1 is a boundary, the trim of the one-sample window is out of range, and `Launch` refuses it. |
| Autoscaler.AsWrittenElapsed | steering.go:168 | The program's int64 test `now >= rescaled + delay` is the mathematical one whenever the sum does not overflow. |
| Autoscaler.SentinelFaithful | steering.go:128-191 | With non-negative delays and in-range cycle counts, the `math.MinInt64` "never rescaled" sentinel behaves exactly as `None` in the model's cooldown test. |
| Autoscaler.NegativeDelayStallsUpscale | steering.go:77-79 | An upscale delay of -30s at a 30s scale rate passes `Validate` and yields a delay of -1 cycles. `MinInt64 + -1` wraps to `MaxInt64`, so before the first successful rescale no cycle below `MaxInt64` passes the upscale cooldown. The downscale delay of 0 does pass, so a downscale can still restart the clock. `Launch` refuses the policy. |

What `Autoscaler.Step` proves about one tick:

- It preserves the window-length invariant and advances the tick count by one.
- The tick's aggregate sample is appended to the window. At a boundary the window is cut to exactly its last `scaleRatio` samples; otherwise it is not cut.
- The last-rescale cycle moves only on a successful `SetReplicas`, and then to the current cycle.
- Nothing happens between boundaries, or when the replica count cannot be read.
- A rescale goes to the clamped target, which differs from the count read. An upscale (downscale) happens only once the up (down) cooldown has passed.
- Conversely, at a boundary with the count read, a target above (below) it with the cooldown passed does rescale.

## Left out

- `main.go`: reading the files, YAML decoding, flags, starting one goroutine per service, and refusing to start when any service is invalid. This is process plumbing around `Validate`.
- `inputs.go` and `orchestrations.go`: the AMQP and Docker Swarm clients are foreign library calls. Their results are the `Observation` values passed into `Autoscaler.Step`.
- The `time.Tick` timer and all logging (timer at steering.go:138; logging at 137, 146, 161, 169, 172, 184 and 187). One `Step` is one tick.
- Floating-point coverage: `coverage` is an exact fraction. IEEE rounding of `len·coverage` and of the coverage range check is not modelled.
- Go integer overflow in `replicas*target+1`, in the metric sum, and in `ticks`: the model uses unbounded integers.
- Autoscaler.Step: requires `scaleRatio ≥ 1`, non-negative delays in cycles, and a positive threshold (`Params.Valid`). With a non-positive threshold `required` may not terminate: it loops whenever at least the needed number of samples are 1 or more. The other two cases are the program's failures listed under Findings.
- Sizing.Required: requires `threshold > 0`, which validation guarantees. Without it the program's search may not terminate, since it loops whenever at least the needed number of samples are 1 or more.

## Findings

| source | as written | input that shows it | evidently intended | confidence | as-written member | corrected member |
|---|---|---|---|---|---|---|
| steering.go:74-76 | `Validate` only checks that `scale_rate` is a multiple of `sample_rate`, so a negative scale rate passes. The scale ratio is then negative, (line 133), and the trim `samples[len(samples)-scaleRatio:]` at line 155 slices past the end. | `sample_rate: 1s`, `scale_rate: -1s` (other fields valid): ratio -1, tick 1 is a boundary since `1 % -1 == 0`, and the slice starts at 2 of a 1-sample window, so the program panics | Reject a non-positive scale rate, so that the ratio is at least 1 and the trim is always in range | not executed; high | Autoscaler.NegativeScaleRateAccepted | Autoscaler.Launch |
| steering.go:77-79 | Negative delays pass `Validate` when they are multiples of the scale rate (lines 77-82), and line 134 turns them into negative cycle counts. The cooldown test at line 168 adds the delay to the `math.MinInt64` sentinel (line 130) in int64. | `scale_rate: 30s`, `upscale_delay: -30s`: delay -1 cycles, and `MinInt64 + -1` wraps to `MaxInt64`, so while the clock still holds the sentinel `now >= rescaled + upscaleDelay` is false for every reachable cycle, and the service is not scaled up until a downscale has succeeded and restarted the clock | Reject negative delays, so the sentinel reads as "never rescaled" (the model's `None`) | not executed; high | Autoscaler.NegativeDelayStallsUpscale | Config.ValidateStrict |

The corrected loop starts only through `Autoscaler.Launch`, which uses `Config.ValidateStrict`. Its constants satisfy `Params.Valid`. Under them, `Autoscaler.TrimSafeWhenValid` and `Autoscaler.SentinelFaithful` show that the program's trim and sentinel test agree with the model's `Step`.
