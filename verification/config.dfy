/** The per-service autoscaling policy (`AutoscaleConfig`), its merge with a
    defaults policy, and its field-by-field validation. */
module Config {

  type Positive = d: int | d > 0 witness 1

  /** The fraction `num / den`. It stands for the program's float64
      `coverage`; a zero coverage is any fraction with a zero numerator. */
  datatype Ratio = Ratio(num: int, den: Positive)

  /** `time.Second`, in nanoseconds: every duration is an int64 count of them. */
  const Second: int := 1_000_000_000

  datatype AutoscaleConfig = AutoscaleConfig(
    service: string,
    metrics: seq<string>,
    coverage: Ratio,
    threshold: int,
    minReplicas: int,
    maxReplicas: int,
    sampleRate: int,
    scaleRate: int,
    upscaleDelay: int,
    downscaleDelay: int)

  /** The policy fields a validation error can be reported under. */
  datatype Field =
    | Service | Metrics | Coverage | Threshold | MinReplicas | MaxReplicas
    | SampleRate | ScaleRate | UpscaleDelay | DownscaleDelay
  {
    /** The configuration-file key the error is reported under. */
    function Key(): string {
      match this
      case Service => "service"
      case Metrics => "metrics"
      case Coverage => "coverage"
      case Threshold => "threshold"
      case MinReplicas => "min_replicas"
      case MaxReplicas => "max_replicas"
      case SampleRate => "sample_rate"
      case ScaleRate => "scale_rate"
      case UpscaleDelay => "upscale_delay"
      case DownscaleDelay => "downscale_delay"
    }
  }

  /** Distinct fields are reported under distinct keys, so the field map is
      the program's string-keyed error map with its keys renamed. */
  lemma KeysDistinct(f: Field, g: Field)
    ensures f.Key() == g.Key() <==> f == g
  {
  }

  /** What validating a policy yields: the map from each violated field to
      its message, or the integer-division panic the program hits when a
      divisor of one of its `%` checks is zero. */
  datatype Validation = Checked(errors: map<Field, string>) | Panicked

  /** `x` is a whole multiple of `d`. */
  predicate Divides(d: int, x: int) {
    d != 0 && x % d == 0
  }

  /** The policy rules, stated as one conjunction: a policy satisfying them
      is accepted by the program. */
  predicate Valid(cfg: AutoscaleConfig) {
    && |cfg.service| != 0
    && |cfg.metrics| > 0
    && 0 < cfg.coverage.num <= cfg.coverage.den
    && cfg.threshold > 0
    && cfg.minReplicas >= 0
    && cfg.maxReplicas >= 0
    && cfg.maxReplicas >= cfg.minReplicas
    && cfg.sampleRate >= Second
    && Divides(cfg.sampleRate, cfg.scaleRate)
    && Divides(cfg.scaleRate, cfg.upscaleDelay)
    && Divides(cfg.scaleRate, cfg.downscaleDelay)
  }

  /** The messages validation reports. */
  const CantBeEmpty: string := "can't be empty"
  const CoverageRange: string := "invalid coverage, must be between 0 and 1"
  const NotPositive: string := "can't be negative or zero"
  const Negative: string := "can't be negative"
  const BelowMin: string := "can't be less than min_replicas"
  const BelowSecond: string := "can't be less than 1 second"
  const NotMultipleOfSampleRate: string := "must be multiple of sample_rate"
  const NotMultipleOfScaleRate: string := "must be multiple of scale_rate"

  /** Whether a rule reported under `f` is broken. Only meaningful once the
      divisors are known to be non-zero. */
  predicate Violates(cfg: AutoscaleConfig, f: Field)
    requires cfg.sampleRate != 0 && cfg.scaleRate != 0
  {
    match f
    case Service => |cfg.service| == 0
    case Metrics => |cfg.metrics| == 0
    case Coverage => cfg.coverage.num <= 0 || cfg.coverage.num > cfg.coverage.den
    case Threshold => cfg.threshold <= 0
    case MinReplicas => cfg.minReplicas < 0
    case MaxReplicas => cfg.maxReplicas < 0 || cfg.maxReplicas < cfg.minReplicas
    case SampleRate => cfg.sampleRate < Second
    case ScaleRate => cfg.scaleRate % cfg.sampleRate != 0
    case UpscaleDelay => cfg.upscaleDelay % cfg.scaleRate != 0
    case DownscaleDelay => cfg.downscaleDelay % cfg.scaleRate != 0
  }

  /** The message reported under `f`. When both `max_replicas` rules are
      broken, the ordering rule's message is the one reported. */
  function Message(cfg: AutoscaleConfig, f: Field): string {
    match f
    case Service | Metrics => CantBeEmpty
    case Coverage => CoverageRange
    case Threshold => NotPositive
    case MinReplicas => Negative
    case MaxReplicas =>
      if cfg.maxReplicas < cfg.minReplicas then BelowMin else Negative
    case SampleRate => BelowSecond
    case ScaleRate => NotMultipleOfSampleRate
    case UpscaleDelay | DownscaleDelay => NotMultipleOfScaleRate
  }

  /** One check of `Validate`: when the rule is broken, its message is
      written under its field, replacing any earlier message there. */
  function Flag(errors: map<Field, string>, broken: bool, f: Field, message: string): (r: map<Field, string>)
    ensures forall g :: g in r <==> g in errors || (broken && g == f)
    ensures forall g :: g in r ==> r[g] == if broken && g == f then message else errors[g]
  {
    if broken then errors[f := message] else errors
  }

  /** The error map the checks build, in the program's order. */
  function Errors(cfg: AutoscaleConfig): map<Field, string>
    requires cfg.sampleRate != 0 && cfg.scaleRate != 0
  {
    var e := map[];
    var e := Flag(e, |cfg.service| == 0, Service, CantBeEmpty);
    var e := Flag(e, |cfg.metrics| == 0, Metrics, CantBeEmpty);
    var e := Flag(e, cfg.coverage.num <= 0 || cfg.coverage.num > cfg.coverage.den, Coverage, CoverageRange);
    var e := Flag(e, cfg.threshold <= 0, Threshold, NotPositive);
    var e := Flag(e, cfg.minReplicas < 0, MinReplicas, Negative);
    var e := Flag(e, cfg.maxReplicas < 0, MaxReplicas, Negative);
    var e := Flag(e, cfg.maxReplicas < cfg.minReplicas, MaxReplicas, BelowMin);
    var e := Flag(e, cfg.sampleRate < Second, SampleRate, BelowSecond);
    var e := Flag(e, cfg.scaleRate % cfg.sampleRate != 0, ScaleRate, NotMultipleOfSampleRate);
    var e := Flag(e, cfg.upscaleDelay % cfg.scaleRate != 0, UpscaleDelay, NotMultipleOfScaleRate);
    var e := Flag(e, cfg.downscaleDelay % cfg.scaleRate != 0, DownscaleDelay, NotMultipleOfScaleRate);
    e
  }

  /** Each field is in the error map exactly when one of its rules is broken
      (every check runs, whatever the earlier ones found), and the message
      under it is that of the last of its broken rules. */
  lemma ErrorsAt(cfg: AutoscaleConfig, f: Field)
    requires cfg.sampleRate != 0 && cfg.scaleRate != 0
    ensures f in Errors(cfg) <==> Violates(cfg, f)
    ensures f in Errors(cfg) ==> Errors(cfg)[f] == Message(cfg, f)
  {
    match f
    case Service | Metrics | Coverage => ErrorsOfIdentity(cfg, f);
    case Threshold | MinReplicas | MaxReplicas => ErrorsOfReplicas(cfg, f);
    case SampleRate | ScaleRate => ErrorsOfRates(cfg, f);
    case UpscaleDelay | DownscaleDelay => ErrorsOfDelays(cfg, f);
  }

  /** `ErrorsAt` for the service, metrics and coverage rules. */
  lemma ErrorsOfIdentity(cfg: AutoscaleConfig, f: Field)
    requires cfg.sampleRate != 0 && cfg.scaleRate != 0
    requires f == Service || f == Metrics || f == Coverage
    ensures f in Errors(cfg) <==> Violates(cfg, f)
    ensures f in Errors(cfg) ==> Errors(cfg)[f] == Message(cfg, f)
  {
    match f
    case Service =>
    case Metrics =>
    case Coverage =>
    case _ =>
  }

  /** `ErrorsAt` for the threshold and replica-count rules. */
  lemma ErrorsOfReplicas(cfg: AutoscaleConfig, f: Field)
    requires cfg.sampleRate != 0 && cfg.scaleRate != 0
    requires f == Threshold || f == MinReplicas || f == MaxReplicas
    ensures f in Errors(cfg) <==> Violates(cfg, f)
    ensures f in Errors(cfg) ==> Errors(cfg)[f] == Message(cfg, f)
  {
    match f
    case Threshold =>
    case MinReplicas =>
    case MaxReplicas =>
    case _ =>
  }

  /** `ErrorsAt` for the sampling and scaling rate rules. */
  lemma ErrorsOfRates(cfg: AutoscaleConfig, f: Field)
    requires cfg.sampleRate != 0 && cfg.scaleRate != 0
    requires f == SampleRate || f == ScaleRate
    ensures f in Errors(cfg) <==> Violates(cfg, f)
    ensures f in Errors(cfg) ==> Errors(cfg)[f] == Message(cfg, f)
  {
    match f
    case SampleRate =>
    case ScaleRate =>
    case _ =>
  }

  /** `ErrorsAt` for the two delay rules. */
  lemma ErrorsOfDelays(cfg: AutoscaleConfig, f: Field)
    requires cfg.sampleRate != 0 && cfg.scaleRate != 0
    requires f == UpscaleDelay || f == DownscaleDelay
    ensures f in Errors(cfg) <==> Violates(cfg, f)
    ensures f in Errors(cfg) ==> Errors(cfg)[f] == Message(cfg, f)
  {
    match f
    case UpscaleDelay =>
    case DownscaleDelay =>
    case _ =>
  }

  /** A field whose rule an invalid policy breaks. */
  function FirstBroken(cfg: AutoscaleConfig): (f: Field)
    requires cfg.sampleRate != 0 && cfg.scaleRate != 0 && !Valid(cfg)
    ensures Violates(cfg, f)
  {
    if |cfg.service| == 0 then Service
    else if |cfg.metrics| == 0 then Metrics
    else if cfg.coverage.num <= 0 || cfg.coverage.num > cfg.coverage.den then Coverage
    else if cfg.threshold <= 0 then Threshold
    else if cfg.minReplicas < 0 then MinReplicas
    else if cfg.maxReplicas < 0 || cfg.maxReplicas < cfg.minReplicas then MaxReplicas
    else if cfg.sampleRate < Second then SampleRate
    else if cfg.scaleRate % cfg.sampleRate != 0 then ScaleRate
    else if cfg.upscaleDelay % cfg.scaleRate != 0 then UpscaleDelay
    else DownscaleDelay
  }

  /** Checks every rule, never stopping at the first failure. */
  function Validate(cfg: AutoscaleConfig): (v: Validation)
    ensures v.Panicked? <==> cfg.sampleRate == 0 || cfg.scaleRate == 0
    ensures v.Checked? ==> forall f :: f in v.errors <==> Violates(cfg, f)
    ensures v.Checked? ==> forall f :: f in v.errors ==> v.errors[f] == Message(cfg, f)
    ensures v == Checked(map[]) <==> Valid(cfg)
  {
    if cfg.sampleRate == 0 || cfg.scaleRate == 0 then Panicked
    else
      var e := Errors(cfg);
      assert forall f :: f in e <==> Violates(cfg, f) by {
        forall f { ErrorsAt(cfg, f); }
      }
      assert forall f :: f in e ==> e[f] == Message(cfg, f) by {
        forall f { ErrorsAt(cfg, f); }
      }
      assert !Valid(cfg) ==> e != map[] by {
        if !Valid(cfg) {
          var f := FirstBroken(cfg);
          assert f in e;
        }
      }
      Checked(e)
  }

  /** Both `max_replicas` rules write the same key, the order one last: a
      negative maximum below the minimum is reported only as below it. */
  lemma MaxReplicasLastRuleWins(cfg: AutoscaleConfig)
    requires cfg.sampleRate != 0 && cfg.scaleRate != 0
    requires cfg.maxReplicas < 0 && cfg.maxReplicas < cfg.minReplicas
    ensures MaxReplicas in Validate(cfg).errors
    ensures Validate(cfg).errors[MaxReplicas] == BelowMin
  {
  }

  /** Replaces every field left at its zero value with the default's. */
  function FillWithDefaults(cfg: AutoscaleConfig, def: AutoscaleConfig): (r: AutoscaleConfig)
    ensures |cfg.service| != 0 ==> r.service == cfg.service
    ensures |cfg.service| == 0 ==> r.service == def.service
    ensures |cfg.metrics| != 0 ==> r.metrics == cfg.metrics
    ensures |cfg.metrics| == 0 ==> r.metrics == def.metrics
    ensures cfg.coverage.num != 0 ==> r.coverage == cfg.coverage
    ensures cfg.coverage.num == 0 ==> r.coverage == def.coverage
    ensures cfg.threshold != 0 ==> r.threshold == cfg.threshold
    ensures cfg.threshold == 0 ==> r.threshold == def.threshold
    ensures cfg.minReplicas != 0 ==> r.minReplicas == cfg.minReplicas
    ensures cfg.minReplicas == 0 ==> r.minReplicas == def.minReplicas
    ensures cfg.maxReplicas != 0 ==> r.maxReplicas == cfg.maxReplicas
    ensures cfg.maxReplicas == 0 ==> r.maxReplicas == def.maxReplicas
    ensures cfg.sampleRate != 0 ==> r.sampleRate == cfg.sampleRate
    ensures cfg.sampleRate == 0 ==> r.sampleRate == def.sampleRate
    ensures cfg.scaleRate != 0 ==> r.scaleRate == cfg.scaleRate
    ensures cfg.scaleRate == 0 ==> r.scaleRate == def.scaleRate
    ensures cfg.upscaleDelay != 0 ==> r.upscaleDelay == cfg.upscaleDelay
    ensures cfg.upscaleDelay == 0 ==> r.upscaleDelay == def.upscaleDelay
    ensures cfg.downscaleDelay != 0 ==> r.downscaleDelay == cfg.downscaleDelay
    ensures cfg.downscaleDelay == 0 ==> r.downscaleDelay == def.downscaleDelay
  {
    AutoscaleConfig(
      Inherit(|cfg.service| == 0, cfg.service, def.service),
      Inherit(|cfg.metrics| == 0, cfg.metrics, def.metrics),
      Inherit(cfg.coverage.num == 0, cfg.coverage, def.coverage),
      Inherit(cfg.threshold == 0, cfg.threshold, def.threshold),
      Inherit(cfg.minReplicas == 0, cfg.minReplicas, def.minReplicas),
      Inherit(cfg.maxReplicas == 0, cfg.maxReplicas, def.maxReplicas),
      Inherit(cfg.sampleRate == 0, cfg.sampleRate, def.sampleRate),
      Inherit(cfg.scaleRate == 0, cfg.scaleRate, def.scaleRate),
      Inherit(cfg.upscaleDelay == 0, cfg.upscaleDelay, def.upscaleDelay),
      Inherit(cfg.downscaleDelay == 0, cfg.downscaleDelay, def.downscaleDelay))
  }

  /** One field of the merge: the default when the own value is unset. */
  function Inherit<T>(unset: bool, own: T, default: T): T {
    if unset then default else own
  }

  /** Merging the same defaults twice changes nothing the first merge did not. */
  lemma FillIdempotent(cfg: AutoscaleConfig, def: AutoscaleConfig)
    ensures FillWithDefaults(FillWithDefaults(cfg, def), def) == FillWithDefaults(cfg, def)
  {
  }

  /** Merging with one defaults policy and then another is merging with the
      first defaults already merged over the second. */
  lemma FillLayers(cfg: AutoscaleConfig, def1: AutoscaleConfig, def2: AutoscaleConfig)
    ensures FillWithDefaults(FillWithDefaults(cfg, def1), def2)
         == FillWithDefaults(cfg, FillWithDefaults(def1, def2))
  {
  }

  /** A policy naming only its service and metrics inherits everything else. */
  lemma FillNamedOnly(service: string, metrics: seq<string>, den: Positive, def: AutoscaleConfig)
    requires |service| != 0 && |metrics| > 0
    ensures FillWithDefaults(AutoscaleConfig(service, metrics, Ratio(0, den), 0, 0, 0, 0, 0, 0, 0), def)
         == def.(service := service, metrics := metrics)
  {
  }

  /** The stricter validation: every rule of `Validate`, and in addition the
      scale rate must be positive and the two delays non-negative, which the
      replica loop needs (a non-positive scale ratio makes its window trim
      index run past the window, a negative delay overflows its "never
      rescaled" sentinel). */
  function ValidateStrict(cfg: AutoscaleConfig): (v: Validation)
    ensures v.Panicked? <==> Validate(cfg).Panicked?
    ensures v.Checked? ==> Validate(cfg).errors.Keys <= v.errors.Keys
    ensures v.Checked? ==> (ScaleRate in v.errors <==> Violates(cfg, ScaleRate) || cfg.scaleRate < 0)
    ensures v.Checked? ==> (UpscaleDelay in v.errors <==> Violates(cfg, UpscaleDelay) || cfg.upscaleDelay < 0)
    ensures v.Checked? ==> (DownscaleDelay in v.errors <==> Violates(cfg, DownscaleDelay) || cfg.downscaleDelay < 0)
    ensures v.Checked? ==> forall f :: f != ScaleRate && f != UpscaleDelay && f != DownscaleDelay ==>
              (f in v.errors <==> f in Validate(cfg).errors)
              && (f in v.errors ==> v.errors[f] == Validate(cfg).errors[f])
    ensures v.Checked? ==> cfg.scaleRate < 0 ==> v.errors[ScaleRate] == Negative
    ensures v.Checked? ==> cfg.scaleRate >= 0 && ScaleRate in v.errors ==> v.errors[ScaleRate] == Validate(cfg).errors[ScaleRate]
    ensures v.Checked? ==> cfg.upscaleDelay < 0 ==> v.errors[UpscaleDelay] == Negative
    ensures v.Checked? ==> cfg.upscaleDelay >= 0 && UpscaleDelay in v.errors ==> v.errors[UpscaleDelay] == Validate(cfg).errors[UpscaleDelay]
    ensures v.Checked? ==> cfg.downscaleDelay < 0 ==> v.errors[DownscaleDelay] == Negative
    ensures v.Checked? ==> cfg.downscaleDelay >= 0 && DownscaleDelay in v.errors ==> v.errors[DownscaleDelay] == Validate(cfg).errors[DownscaleDelay]
    ensures v == Checked(map[]) <==> Runnable(cfg)
  {
    match Validate(cfg)
    case Panicked => Panicked
    case Checked(e) =>
      var e1 := if cfg.scaleRate < 0 then e[ScaleRate := Negative] else e;
      var e2 := if cfg.upscaleDelay < 0 then e1[UpscaleDelay := Negative] else e1;
      var e3 := if cfg.downscaleDelay < 0 then e2[DownscaleDelay := Negative] else e2;
      Checked(e3)
  }

  /** A policy the replica loop can run with. */
  predicate Runnable(cfg: AutoscaleConfig) {
    Valid(cfg) && cfg.scaleRate > 0 && cfg.upscaleDelay >= 0 && cfg.downscaleDelay >= 0
  }
}
