/** Charging and thermal policy (device/daemon/Health.m): hysteresis machines driven by battery readings. */
module HealthPolicy {
  import opened Common

  /** The configuration as the policy reads it, defaults filled in. */
  datatype Settings = Settings(
    limitEnabled: bool, low: real, high: real, chargeMode: string,
    thermalEnabled: bool, pauseChargingC: real, throttleC: real, dimC: real, resumeC: real)

  datatype Reason = Manual | Thermal | Limit

  /** `inhibitReason` and `smcControl` are the policy's report; `inhibited` is the SMC register itself. */
  datatype Policy = Policy(
    thermalPaused: bool, limitHolding: bool, throttling: bool, dimmed: bool,
    inhibitReason: Option<Reason>, smcControl: bool, inhibited: bool)

  /** One battery reading, and whether the SMC key can be read and written during this tick. */
  datatype Reading = Reading(percent: real, temperature: real, smcReads: bool, smcWrites: bool)

  /** Hysteresis: enter at `enter` or above, leave at `leave` or below. */
  predicate Latched(was: bool, value: real, enter: real, leave: real) {
    if was then value > leave else value >= enter
  }

  function SetChargeInhibited(p: Policy, inhibit: bool, reason: Reason, r: Reading): Policy {
    if r.smcReads && p.inhibited == inhibit then p.(inhibitReason := if inhibit then Some(reason) else None)
    else p.(
      smcControl := r.smcWrites,
      inhibitReason := if inhibit && r.smcWrites then Some(reason) else None,
      inhibited := if r.smcWrites then inhibit else p.inhibited)
  }

  /** What the mode makes of the two latches: whether to stop charging, and why. */
  function Demand(chargeMode: string, hot: bool, holding: bool): (bool, Reason) {
    if chargeMode == "inhibit" then (true, Manual)
    else if chargeMode == "allow" then (hot, Thermal)
    else (hot || holding, if hot then Thermal else Limit)
  }

  /** The first half of a tick: the latches of heat and charge limit, and charging accordingly. */
  function Charge(p: Policy, c: Settings, r: Reading): Policy {
    var hot := c.thermalEnabled && Latched(p.thermalPaused, r.temperature, c.pauseChargingC, c.resumeC);
    var holding := c.limitEnabled && Latched(p.limitHolding, r.percent, c.high, c.low);
    var (inhibit, reason) := Demand(c.chargeMode, hot, holding);
    SetChargeInhibited(p.(thermalPaused := hot, limitHolding := holding), inhibit, reason, r)
  }

  /** The second half: throttling and dimming. */
  function Escalate(p: Policy, c: Settings, r: Reading): Policy {
    p.(throttling := c.thermalEnabled && Latched(p.throttling, r.temperature, c.throttleC, c.resumeC),
       dimmed := c.thermalEnabled && r.temperature >= c.dimC)
  }

  function Evaluate(p: Policy, c: Settings, r: Reading): Policy { Escalate(Charge(p, c, r), c, r) }

  datatype Alert = ThermalAlert(hot: bool) | ThrottleAlert(on: bool) | DimAlert | ChargeControlAlert(reason: Reason)

  const ALERT_LIMIT: nat := 200

  function HeatAlerts(was: bool, now: bool): seq<Alert> { if was != now then [ThermalAlert(now)] else [] }

  function ChargeAlerts(p: Policy, inhibit: bool, reason: Reason, r: Reading): seq<Alert> {
    if inhibit && !r.smcWrites && !(r.smcReads && p.inhibited) then [ChargeControlAlert(reason)] else []
  }

  function ThrottleAlerts(was: bool, now: bool): seq<Alert> { if was != now then [ThrottleAlert(now)] else [] }

  function DimAlerts(was: bool, now: bool): seq<Alert> { if now && !was then [DimAlert] else [] }

  function ChargingAlerts(p: Policy, c: Settings, r: Reading): seq<Alert> {
    var q := Charge(p, c, r);
    var (inhibit, reason) := Demand(c.chargeMode, q.thermalPaused, q.limitHolding);
    HeatAlerts(p.thermalPaused, q.thermalPaused) + ChargeAlerts(p, inhibit, reason, r)
  }

  function EscalationAlerts(p: Policy, c: Settings, r: Reading): seq<Alert> {
    var q := Escalate(p, c, r);
    ThrottleAlerts(p.throttling, q.throttling) + DimAlerts(p.dimmed, q.dimmed)
  }

  /** The alerts one tick records, in order. */
  function AlertsOf(p: Policy, c: Settings, r: Reading): seq<Alert> {
    ChargingAlerts(p, c, r) + EscalationAlerts(Charge(p, c, r), c, r)
  }

  class Health {
    var policy: Policy
    var alerts: seq<Alert>
    var displayBlackout: bool
    ghost var recorded: seq<Alert>

    /** What is kept of the alert log is its end. */
    ghost predicate Valid()
      reads this
    {
      alerts == LastN(recorded, ALERT_LIMIT)
    }

    constructor (inhibited: bool, displayBlackout: bool)
      ensures Valid() && policy == Initial(inhibited) && recorded == [] && this.displayBlackout == displayBlackout
    {
      policy, alerts, recorded := Initial(inhibited), [], [];
      this.displayBlackout := displayBlackout;
    }

    method RecordAlert(alert: Alert)
      requires Valid()
      modifies this`alerts, this`recorded
      ensures Valid() && recorded == old(recorded) + [alert]
    {
      LastNAppend(recorded, [alert], ALERT_LIMIT);
      recorded := recorded + [alert];
      alerts := alerts + [alert];
      if |alerts| > ALERT_LIMIT { alerts := alerts[|alerts| - ALERT_LIMIT..]; }
    }

    method Inhibit(inhibit: bool, reason: Reason, r: Reading)
      requires Valid()
      modifies this`policy, this`alerts, this`recorded
      ensures Valid()
      ensures policy == SetChargeInhibited(old(policy), inhibit, reason, r)
      ensures recorded == old(recorded) + ChargeAlerts(old(policy), inhibit, reason, r)
    {
      if r.smcReads && policy.inhibited == inhibit {
        policy := policy.(inhibitReason := if inhibit then Some(reason) else None);
        return;
      }
      policy := policy.(smcControl := r.smcWrites,
        inhibitReason := if inhibit && r.smcWrites then Some(reason) else None);
      if r.smcWrites { policy := policy.(inhibited := inhibit); }
      if !r.smcWrites && inhibit { RecordAlert(ChargeControlAlert(reason)); }
    }

    /** The latches of heat and of the charge limit. */
    method Latch(c: Settings, r: Reading) returns (hot: bool, holding: bool)
      requires Valid()
      modifies this`policy, this`alerts, this`recorded
      ensures Valid()
      ensures hot == (c.thermalEnabled &&
        Latched(old(policy).thermalPaused, r.temperature, c.pauseChargingC, c.resumeC))
      ensures holding == (c.limitEnabled && Latched(old(policy).limitHolding, r.percent, c.high, c.low))
      ensures policy == old(policy).(thermalPaused := hot, limitHolding := holding)
      ensures recorded == old(recorded) + HeatAlerts(old(policy).thermalPaused, hot)
    {
      hot := c.thermalEnabled && Latched(policy.thermalPaused, r.temperature, c.pauseChargingC, c.resumeC);
      if hot != policy.thermalPaused {
        RecordAlert(ThermalAlert(hot));
        policy := policy.(thermalPaused := hot);
      }
      holding := c.limitEnabled && Latched(policy.limitHolding, r.percent, c.high, c.low);
      policy := policy.(limitHolding := holding);
    }

    method ControlCharge(chargeMode: string, hot: bool, holding: bool, r: Reading)
      requires Valid()
      modifies this`policy, this`alerts, this`recorded
      ensures Valid()
      ensures var (inhibit, reason) := Demand(chargeMode, hot, holding);
              && policy == SetChargeInhibited(old(policy), inhibit, reason, r)
              && recorded == old(recorded) + ChargeAlerts(old(policy), inhibit, reason, r)
    {
      if chargeMode == "inhibit" {
        Inhibit(true, Manual, r);
      } else if chargeMode == "allow" {
        Inhibit(hot, Thermal, r);
      } else {
        Inhibit(hot || holding, if hot then Thermal else Limit, r);
      }
    }

    method EvaluateCharging(c: Settings, r: Reading)
      requires Valid()
      modifies this`policy, this`alerts, this`recorded
      ensures Valid()
      ensures policy == Charge(old(policy), c, r) && recorded == old(recorded) + ChargingAlerts(old(policy), c, r)
    {
      ghost var before, was := recorded, policy;
      var hot, holding := Latch(c, r);
      ControlCharge(c.chargeMode, hot, holding, r);
      ghost var (inhibit, reason) := Demand(c.chargeMode, hot, holding);
      AppendTwice(before, HeatAlerts(was.thermalPaused, hot), ChargeAlerts(was, inhibit, reason, r));
    }

    method Throttle(c: Settings, r: Reading)
      requires Valid()
      modifies this`policy, this`alerts, this`recorded
      ensures Valid()
      ensures policy == old(policy).(throttling :=
        c.thermalEnabled && Latched(old(policy).throttling, r.temperature, c.throttleC, c.resumeC))
      ensures recorded == old(recorded) + ThrottleAlerts(old(policy).throttling, policy.throttling)
    {
      var throttle := c.thermalEnabled && Latched(policy.throttling, r.temperature, c.throttleC, c.resumeC);
      if throttle != policy.throttling {
        policy := policy.(throttling := throttle);
        RecordAlert(ThrottleAlert(throttle));
      }
    }

    method Dim(c: Settings, r: Reading)
      requires Valid()
      modifies this
      ensures Valid()
      ensures policy == old(policy).(dimmed := c.thermalEnabled && r.temperature >= c.dimC)
      ensures recorded == old(recorded) + DimAlerts(old(policy).dimmed, policy.dimmed)
      ensures displayBlackout == (old(displayBlackout) || (policy.dimmed && !old(policy).dimmed))
    {
      var dim := c.thermalEnabled && r.temperature >= c.dimC;
      if dim && !policy.dimmed {
        if !displayBlackout { displayBlackout := true; }
        RecordAlert(DimAlert);
      }
      policy := policy.(dimmed := dim);
    }

    method EscalateNow(c: Settings, r: Reading)
      requires Valid()
      modifies this
      ensures Valid()
      ensures policy == Escalate(old(policy), c, r) && recorded == old(recorded) + EscalationAlerts(old(policy), c, r)
      ensures displayBlackout == (old(displayBlackout) || (policy.dimmed && !old(policy).dimmed))
    {
      ghost var before, was := recorded, policy;
      Throttle(c, r);
      ghost var throttling := policy.throttling;
      Dim(c, r);
      AppendTwice(before, ThrottleAlerts(was.throttling, throttling), DimAlerts(was.dimmed, policy.dimmed));
    }

    /** One policy tick. A tick that newly dims also blacks the display out. */
    method EvaluatePolicy(c: Settings, r: Reading)
      requires Valid()
      modifies this
      ensures Valid()
      ensures policy == Evaluate(old(policy), c, r)
      ensures recorded == old(recorded) + AlertsOf(old(policy), c, r)
      ensures displayBlackout == (old(displayBlackout) || (policy.dimmed && !old(policy).dimmed))
    {
      ghost var before, was := recorded, policy;
      EvaluateCharging(c, r);
      EscalateNow(c, r);
      AppendTwice(before, ChargingAlerts(was, c, r), EscalationAlerts(Charge(was, c, r), c, r));
    }
  }

  lemma AppendTwice<T>(a: seq<T>, b: seq<T>, c: seq<T>)
    ensures a + b + c == a + (b + c)
  {
  }

  function Initial(inhibited: bool): Policy {
    Policy(false, false, false, false, None, true, inhibited)
  }

  // ---------------------------------------------------------------- escalation is nested

  predicate Nested(p: Policy) {
    (p.dimmed ==> p.throttling) && (p.throttling ==> p.thermalPaused)
  }

  /** The thresholds in their order, as far as nesting needs it. */
  predicate Ordered(c: Settings) {
    c.thermalEnabled ==> c.resumeC < c.throttleC && c.pauseChargingC <= c.throttleC <= c.dimC
  }

  /**
   * A tick keeps the escalation nested, whatever the reading and the state before, exactly when
   * the thresholds are ordered; `configure` does not check that they are.
   */
  lemma NestedExactlyWhenOrdered(c: Settings)
    ensures (forall p, r :: Nested(p) ==> Nested(Evaluate(p, c, r))) <==> Ordered(c)
  {
    if !Ordered(c) {
      var calm := Initial(false);
      var paused, throttled := calm.(thermalPaused := true), calm.(thermalPaused := true, throttling := true);
      var at := (t: real) => Reading(0.0, t, true, true);
      if c.throttleC < c.pauseChargingC {
        assert Nested(calm) && !Nested(Evaluate(calm, c, at(c.throttleC)));
      } else if c.resumeC >= c.throttleC {
        assert Nested(paused) && !Nested(Evaluate(paused, c, at(c.throttleC)));
      } else {
        assert Nested(calm) && !Nested(Evaluate(calm, c, at(c.dimC)));
      }
    }
  }

  /** One tick: the settings in force, the reading, and what the SMC register held at the time. */
  datatype Tick = Tick(c: Settings, r: Reading, register: bool)

  function Run(p: Policy, ticks: seq<Tick>): Policy
    decreases |ticks|
  {
    if ticks == [] then p
    else
      var t := ticks[|ticks| - 1];
      Evaluate(Run(p, ticks[..|ticks| - 1]).(inhibited := t.register), t.c, t.r)
  }

  /** Over every run of ticks and changes of settings, escalation stays nested. */
  lemma {:induction false} EscalationStaysNested(p: Policy, ticks: seq<Tick>)
    requires Nested(p) && forall t <- ticks :: Ordered(t.c)
    ensures Nested(Run(p, ticks))
    decreases |ticks|
  {
    if ticks == [] {
    } else {
      assert Ordered(ticks[|ticks| - 1].c);
      EscalationStaysNested(p, ticks[..|ticks| - 1]);
    }
  }

  /** What the mode demands of the two latches, and the reason it gives. */
  predicate Demanded(c: Settings, q: Policy) {
    c.chargeMode == "inhibit" || q.thermalPaused || (c.chargeMode != "allow" && q.limitHolding)
  }

  function WhyDemanded(c: Settings, q: Policy): Reason {
    if c.chargeMode == "inhibit" then Manual else if q.thermalPaused then Thermal else Limit
  }

  /** The register was read and is as demanded, so nothing is written. */
  predicate IsSettled(p: Policy, c: Settings, r: Reading, q: Policy) { r.smcReads && p.inhibited == Demanded(c, q) }

  /**
   * With a working SMC the register ends up as the mode demands, in particular heat always stops
   * charging; without one it stays. Control is reported by the write, if there was one. A reason is
   * reported exactly when inhibiting was demanded and is known to hold, and it is the true one.
   */
  lemma InhibitedExactlyAsDemanded(p: Policy, c: Settings, r: Reading)
    ensures var q := Evaluate(p, c, r);
            && q.inhibited == (if r.smcWrites then Demanded(c, q) else p.inhibited)
            && q.smcControl == (if IsSettled(p, c, r, q) then p.smcControl else r.smcWrites)
            && (q.inhibitReason.Some? <==> Demanded(c, q) && (IsSettled(p, c, r, q) || r.smcWrites))
            && (q.inhibitReason.Some? ==> q.inhibited && q.inhibitReason.value == WhyDemanded(c, q))
  {
  }

  // ---------------------------------------------------------------- what a tick records

  /** The order in which a tick comes to its alerts. */
  function Rank(a: Alert): nat {
    match a
    case ThermalAlert(_) => 0
    case ChargeControlAlert(_) => 1
    case ThrottleAlert(_) => 2
    case DimAlert => 3
  }

  predicate AreRanked(alerts: seq<Alert>) {
    forall i, j | 0 <= i < j < |alerts| :: Rank(alerts[i]) < Rank(alerts[j])
  }

  /** At most one alert, of this rank. */
  predicate IsPart(alerts: seq<Alert>, rank: nat) { |alerts| <= 1 && forall a <- alerts :: Rank(a) == rank }

  lemma PartsAreRanked(heat: seq<Alert>, charge: seq<Alert>, throttle: seq<Alert>, dim: seq<Alert>)
    requires IsPart(heat, 0) && IsPart(charge, 1) && IsPart(throttle, 2) && IsPart(dim, 3)
    ensures AreRanked(heat + charge + (throttle + dim))
  {
    var first, second := heat + charge, throttle + dim;
    assert AreRanked(first) && AreRanked(second);
    assert forall i | 0 <= i < |first| :: Rank(first[i]) <= 1;
    assert forall i | 0 <= i < |second| :: Rank(second[i]) >= 2;
  }

  lemma InParts(heat: seq<Alert>, charge: seq<Alert>, throttle: seq<Alert>, dim: seq<Alert>, a: Alert)
    requires IsPart(heat, 0) && IsPart(charge, 1) && IsPart(throttle, 2) && IsPart(dim, 3)
    ensures a in heat + charge + (throttle + dim) <==>
            a in (match Rank(a) case 0 => heat case 1 => charge case 2 => throttle case _ => dim)
  {
  }

  /** `a` is what a tick from `p` to `q` has to record. */
  predicate IsDue(a: Alert, p: Policy, c: Settings, r: Reading, q: Policy) {
    match a
    case ThermalAlert(hot) => q.thermalPaused == hot != p.thermalPaused
    case ThrottleAlert(on) => q.throttling == on != p.throttling
    case DimAlert => q.dimmed && !p.dimmed
    case ChargeControlAlert(reason) =>
      Demanded(c, q) && reason == WhyDemanded(c, q) && !r.smcWrites && !IsSettled(p, c, r, q)
  }

  /** The alerts of a tick that gets from `p` by way of `charged` to `q`. */
  function PartsOf(p: Policy, c: Settings, r: Reading, charged: Policy, q: Policy): seq<Alert> {
    var (inhibit, reason) := Demand(c.chargeMode, charged.thermalPaused, charged.limitHolding);
    HeatAlerts(p.thermalPaused, charged.thermalPaused) + ChargeAlerts(p, inhibit, reason, r)
    + (ThrottleAlerts(charged.throttling, q.throttling) + DimAlerts(charged.dimmed, q.dimmed))
  }

  /** The latches of heat and limit are not touched by the second half of a tick, nor the others by the first. */
  predicate IsHalfway(p: Policy, charged: Policy, q: Policy) {
    && charged.throttling == p.throttling && charged.dimmed == p.dimmed
    && charged.thermalPaused == q.thermalPaused && charged.limitHolding == q.limitHolding
  }

  lemma ChargePart(p: Policy, c: Settings, r: Reading, q: Policy, a: Alert)
    ensures var (inhibit, reason) := Demand(c.chargeMode, q.thermalPaused, q.limitHolding);
            var alerts := ChargeAlerts(p, inhibit, reason, r);
            && IsPart(alerts, 1) && inhibit == Demanded(c, q)
            && (a.ChargeControlAlert? ==> (a in alerts <==> IsDue(a, p, c, r, q)))
  {
  }

  lemma LatchParts(p: Policy, q: Policy)
    ensures IsPart(HeatAlerts(p.thermalPaused, q.thermalPaused), 0)
    ensures IsPart(ThrottleAlerts(p.throttling, q.throttling), 2) && IsPart(DimAlerts(p.dimmed, q.dimmed), 3)
  {
  }

  lemma PartsAreDue(p: Policy, c: Settings, r: Reading, charged: Policy, q: Policy, a: Alert)
    requires IsHalfway(p, charged, q)
    ensures a in PartsOf(p, c, r, charged, q) <==> IsDue(a, p, c, r, q)
  {
    var (inhibit, reason) := Demand(c.chargeMode, charged.thermalPaused, charged.limitHolding);
    var heat, charge := HeatAlerts(p.thermalPaused, charged.thermalPaused), ChargeAlerts(p, inhibit, reason, r);
    var throttle, dim := ThrottleAlerts(charged.throttling, q.throttling), DimAlerts(charged.dimmed, q.dimmed);
    ChargePart(p, c, r, q, a);
    LatchParts(p, q);
    InParts(heat, charge, throttle, dim, a);
  }

  lemma PartsInOrder(p: Policy, c: Settings, r: Reading, charged: Policy, q: Policy)
    requires IsHalfway(p, charged, q)
    ensures AreRanked(PartsOf(p, c, r, charged, q))
  {
    var (inhibit, reason) := Demand(c.chargeMode, charged.thermalPaused, charged.limitHolding);
    var heat, charge := HeatAlerts(p.thermalPaused, charged.thermalPaused), ChargeAlerts(p, inhibit, reason, r);
    var throttle, dim := ThrottleAlerts(charged.throttling, q.throttling), DimAlerts(charged.dimmed, q.dimmed);
    ChargePart(p, c, r, q, DimAlert);
    LatchParts(p, q);
    PartsAreRanked(heat, charge, throttle, dim);
  }

  /**
   * A tick records exactly what is due, once each and in order: heat and throttling when they
   * change, with their new state, dimming when it begins, and an inhibit that was demanded and
   * could not be written.
   */
  lemma TickAlertsExactly(p: Policy, c: Settings, r: Reading, a: Alert)
    ensures a in AlertsOf(p, c, r) <==> IsDue(a, p, c, r, Evaluate(p, c, r))
    ensures AreRanked(AlertsOf(p, c, r))
  {
    PartsAreDue(p, c, r, Charge(p, c, r), Evaluate(p, c, r), a);
    PartsInOrder(p, c, r, Charge(p, c, r), Evaluate(p, c, r));
    assert AlertsOf(p, c, r) == PartsOf(p, c, r, Charge(p, c, r), Evaluate(p, c, r));
  }

  /** A machine that is disabled is off after every tick. */
  lemma DisabledIsOff(p: Policy, c: Settings, r: Reading)
    ensures var q := Evaluate(p, c, r);
            && (!c.thermalEnabled ==> !q.thermalPaused && !q.throttling && !q.dimmed)
            && (!c.limitEnabled ==> !q.limitHolding)
  {
  }

  // ---------------------------------------------------------------- the charge limit is its history

  /** Some reading reached `high` and every later one stayed above `low`. */
  ghost predicate ReachedAndStayed(percents: seq<real>, low: real, high: real) {
    exists i | 0 <= i < |percents| :: percents[i] >= high && forall j | i < j < |percents| :: percents[j] > low
  }

  function Holding(percents: seq<real>, low: real, high: real): bool {
    if percents == [] then false
    else Latched(Holding(percents[..|percents| - 1], low, high), percents[|percents| - 1], high, low)
  }

  lemma {:induction false} LimitIsItsHistory(percents: seq<real>, low: real, high: real)
    requires low < high
    ensures Holding(percents, low, high) <==> ReachedAndStayed(percents, low, high)
  {
    if percents == [] {
    } else {
      var before, last := percents[..|percents| - 1], percents[|percents| - 1];
      LimitIsItsHistory(before, low, high);
      if ReachedAndStayed(before, low, high) && last > low {
        var i :| 0 <= i < |before| && before[i] >= high && forall j | i < j < |before| :: before[j] > low;
        assert percents[i] >= high && forall j | i < j < |percents| :: percents[j] > low;
      }
      if last >= high {
        assert percents[|before|] >= high;
      }
      if ReachedAndStayed(percents, low, high) && last < high {
        var i :| 0 <= i < |percents| && percents[i] >= high && forall j | i < j < |percents| :: percents[j] > low;
        assert before[i] >= high;
      }
    }
  }

  function Percents(ticks: seq<Tick>): seq<real> {
    seq(|ticks|, i requires 0 <= i < |ticks| => ticks[i].r.percent)
  }

  lemma {:induction false} RunIsHolding(ticks: seq<Tick>, low: real, high: real, inhibited: bool)
    requires forall t <- ticks :: t.c.limitEnabled && t.c.low == low && t.c.high == high
    ensures Run(Initial(inhibited), ticks).limitHolding == Holding(Percents(ticks), low, high)
  {
    if ticks == [] {
    } else {
      var before, t := ticks[..|ticks| - 1], ticks[|ticks| - 1];
      assert t in ticks;
      RunIsHolding(before, low, high, inhibited);
      assert Percents(ticks)[..|ticks| - 1] == Percents(before);
    }
  }

  /** The machine's flag after any run with the limit enabled at fixed bounds, whatever else goes on. */
  lemma RunHoldsByHistory(ticks: seq<Tick>, low: real, high: real, inhibited: bool)
    requires low < high
    requires forall t <- ticks :: t.c.limitEnabled && t.c.low == low && t.c.high == high
    ensures Run(Initial(inhibited), ticks).limitHolding <==> ReachedAndStayed(Percents(ticks), low, high)
  {
    RunIsHolding(ticks, low, high, inhibited);
    LimitIsItsHistory(Percents(ticks), low, high);
  }

  function Temperatures(ticks: seq<Tick>): seq<real> {
    seq(|ticks|, i requires 0 <= i < |ticks| => ticks[i].r.temperature)
  }

  /** The thermal settings of all ticks are these. */
  ghost predicate HeatSettings(ticks: seq<Tick>, c: Settings) {
    forall t <- ticks ::
      && t.c.thermalEnabled && t.c.pauseChargingC == c.pauseChargingC && t.c.throttleC == c.throttleC
      && t.c.dimC == c.dimC && t.c.resumeC == c.resumeC
  }

  lemma {:induction false} RunIsHot(ticks: seq<Tick>, c: Settings, inhibited: bool)
    requires HeatSettings(ticks, c)
    ensures var p, temperatures := Run(Initial(inhibited), ticks), Temperatures(ticks);
            && p.thermalPaused == Holding(temperatures, c.resumeC, c.pauseChargingC)
            && p.throttling == Holding(temperatures, c.resumeC, c.throttleC)
            && p.dimmed == (ticks != [] && ticks[|ticks| - 1].r.temperature >= c.dimC)
  {
    if ticks == [] {
    } else {
      var before, t := ticks[..|ticks| - 1], ticks[|ticks| - 1];
      assert t in ticks;
      RunIsHot(before, c, inhibited);
      assert Temperatures(ticks)[..|ticks| - 1] == Temperatures(before);
    }
  }

  /**
   * The same for heat, over any run at fixed thresholds: charging is paused, and performance
   * throttled, exactly when some reading reached the threshold and every later one stayed above the
   * resume temperature; the display is dimmed exactly by the last reading.
   */
  lemma HeatByHistory(ticks: seq<Tick>, c: Settings, inhibited: bool)
    requires c.resumeC < c.pauseChargingC && c.resumeC < c.throttleC && HeatSettings(ticks, c)
    ensures var p, temperatures := Run(Initial(inhibited), ticks), Temperatures(ticks);
            && (p.thermalPaused <==> ReachedAndStayed(temperatures, c.resumeC, c.pauseChargingC))
            && (p.throttling <==> ReachedAndStayed(temperatures, c.resumeC, c.throttleC))
            && (p.dimmed <==> ticks != [] && ticks[|ticks| - 1].r.temperature >= c.dimC)
  {
    RunIsHot(ticks, c, inhibited);
    LimitIsItsHistory(Temperatures(ticks), c.resumeC, c.pauseChargingC);
    LimitIsItsHistory(Temperatures(ticks), c.resumeC, c.throttleC);
  }

  /** From any reading that started a hold to the one that ends it, the charge fell by at least the whole band. */
  lemma HoldThenReleaseSpansTheBand(percents: seq<real>, low: real, high: real, i: nat, j: nat)
    requires i < j < |percents|
    requires !Holding(percents[..i], low, high) && Holding(percents[..i + 1], low, high)
    requires Holding(percents[..j], low, high) && !Holding(percents[..j + 1], low, high)
    ensures percents[i] - percents[j] >= high - low
  {
    assert percents[..i + 1][..i] == percents[..i] && percents[..j + 1][..j] == percents[..j];
  }
}
