/** The alert evaluator of the backend alert service. For one sensor
    reading it collects candidate alerts from the sensor's configured
    thresholds and from fixed safety limits, keeps at most one candidate per
    (parameter, condition), drops those still inside the cooldown of the
    latest earlier alert of the same kind, and stores the rest. Also the
    paged alert history.

    The store is an immutable value: sensors by id, and the alert table as
    a sequence in insertion order. Time is milliseconds since the epoch,
    passed in. */
module Alerts {
  import opened Wrappers
  import opened Ordering
  import Pagination

  datatype Parameter = Temperature | Humidity | Co2 | Pm25 | Tvoc {
    function Name(): string {
      match this
      case Temperature => "temperature"
      case Humidity => "humidity"
      case Co2 => "co2"
      case Pm25 => "pm25"
      case Tvoc => "tvoc"
    }
  }

  datatype Condition = BelowMin | AboveMax

  /** One entry of `alertsToTrigger`. */
  datatype Candidate = Candidate(parameter: Parameter, value: real, threshold: real, condition: Condition)

  datatype Reading = Reading(
    sensorId: string,
    temperature: Option<real>, humidity: Option<real>,
    co2: Option<real>, pm25: Option<real>, tvoc: Option<real>)

  datatype AlertConfig = AlertConfig(
    isEnabled: bool,
    tempMin: Option<real>, tempMax: Option<real>,
    humidityMin: Option<real>, humidityMax: Option<real>,
    co2Max: Option<real>, pm25Max: Option<real>, tvocMax: Option<real>,
    cooldownMinutes: int)

  datatype Sensor = Sensor(userId: string, alertConfig: Option<AlertConfig>)

  /** A stored alert; `id` stands for the database-generated key. */
  datatype Alert = Alert(
    id: nat, userId: string, sensorId: string,
    parameter: Parameter, value: real, threshold: real, condition: Condition,
    createdAt: int)

  datatype Store = Store(sensors: map<string, Sensor>, alerts: seq<Alert>)

  datatype Evaluation = Evaluation(created: seq<Alert>, store: Store)

  function Value(r: Reading, p: Parameter): Option<real> {
    match p
    case Temperature => r.temperature
    case Humidity => r.humidity
    case Co2 => r.co2
    case Pm25 => r.pm25
    case Tvoc => r.tvoc
  }

  // ---------------------------------------------------------------------
  // Candidate collection
  // ---------------------------------------------------------------------

  /** The first candidate for (p, c), which is what `alerts.some` finds. */
  function Find(cands: seq<Candidate>, p: Parameter, c: Condition): (r: Option<Candidate>)
    ensures r.Some? ==> r.value in cands && r.value.parameter == p && r.value.condition == c
    ensures r.None? <==> forall i | 0 <= i < |cands| :: !(cands[i].parameter == p && cands[i].condition == c)
  {
    if |cands| == 0 then None
    else if cands[0].parameter == p && cands[0].condition == c then Some(cands[0])
    else Find(cands[1..], p, c)
  }

  predicate NoDuplicateKeys(cands: seq<Candidate>) {
    forall i, j | 0 <= i < j < |cands| ::
      !(cands[i].parameter == cands[j].parameter && cands[i].condition == cands[j].condition)
  }

  lemma {:induction false} FindAppend(cands: seq<Candidate>, x: Candidate, p: Parameter, c: Condition)
    ensures Find(cands + [x], p, c)
      == if Find(cands, p, c).Some? then Find(cands, p, c)
         else if x.parameter == p && x.condition == c then Some(x) else None
    decreases |cands|
  {
    if |cands| == 0 {
      assert [x][1..] == [];
    } else {
      assert (cands + [x])[1..] == cands[1..] + [x];
      FindAppend(cands[1..], x, p, c);
    }
  }

  /** `addAlertIfNotPresent`: appends the candidate unless one with the same
      parameter and condition is already listed, so the first one wins. */
  function AddIfNotPresent(cands: seq<Candidate>, p: Parameter, v: real, threshold: real, c: Condition): (r: seq<Candidate>)
    ensures NoDuplicateKeys(cands) ==> NoDuplicateKeys(r)
    ensures |cands| <= |r| && r[..|cands|] == cands
    ensures Find(r, p, c) == if Find(cands, p, c).Some? then Find(cands, p, c) else Some(Candidate(p, v, threshold, c))
  {
    var x := Candidate(p, v, threshold, c);
    if Find(cands, p, c).Some? then cands
    else
      FindAppend(cands, x, p, c);
      cands + [x]
  }

  /** Entries of other kinds are not affected by an insertion. */
  lemma AddFindOther(cands: seq<Candidate>, p: Parameter, v: real, threshold: real, c: Condition, p': Parameter, c': Condition)
    requires p' != p || c' != c
    ensures Find(AddIfNotPresent(cands, p, v, threshold, c), p', c') == Find(cands, p', c')
  {
    if Find(cands, p, c).None? {
      FindAppend(cands, Candidate(p, v, threshold, c), p', c');
    }
  }

  /** `v < bound` for a lower bound, `v > bound` for an upper one; an unset
      bound is never violated, and neither is a value equal to the bound. */
  predicate Violates(v: real, bound: Option<real>, c: Condition) {
    bound.Some? && (if c == BelowMin then v < bound.value else v > bound.value)
  }

  /** One bound test, adding a candidate when a present value violates it. */
  function Consider(cands: seq<Candidate>, p: Parameter, c: Condition, v: Option<real>, bound: Option<real>): (r: seq<Candidate>)
    ensures NoDuplicateKeys(cands) ==> NoDuplicateKeys(r)
  {
    if v.Some? && Violates(v.value, bound, c) then AddIfNotPresent(cands, p, v.value, bound.value, c) else cands
  }

  /** The effect of one bound test on the entry for any (p', c'). */
  lemma ConsiderFind(cands: seq<Candidate>, p: Parameter, c: Condition, v: Option<real>, bound: Option<real>, p': Parameter, c': Condition)
    ensures Find(Consider(cands, p, c, v, bound), p', c') ==
      if p' == p && c' == c && Find(cands, p, c).None? && v.Some? && Violates(v.value, bound, c)
      then Some(Candidate(p, v.value, bound.value, c))
      else Find(cands, p', c')
  {
    if v.Some? && Violates(v.value, bound, c) && (p' != p || c' != c) {
      AddFindOther(cands, p, v.value, bound.value, c, p', c');
    }
  }

  /** `checkThreshold`: the min test, then the max test, on a present value. */
  function CheckThreshold(cands: seq<Candidate>, p: Parameter, v: Option<real>, min: Option<real>, max: Option<real>): seq<Candidate> {
    Consider(Consider(cands, p, BelowMin, v, min), p, AboveMax, v, max)
  }

  /** `checkMaxThreshold`: only the max test. */
  function CheckMaxThreshold(cands: seq<Candidate>, p: Parameter, v: Option<real>, max: Option<real>): seq<Candidate> {
    Consider(cands, p, AboveMax, v, max)
  }

  /** The safety rule for humidity: one candidate, below 30 or above 70. */
  function HumiditySafety(cands: seq<Candidate>, h: Option<real>): (r: seq<Candidate>)
    ensures r == Consider(Consider(cands, Humidity, BelowMin, h, Some(30.0)), Humidity, AboveMax, h, Some(70.0))
  {
    assert h.Some? && h.value < 30.0 ==> !Violates(h.value, Some(70.0), AboveMax);
    if h.Some? && (h.value < 30.0 || h.value > 70.0) then
      var below := h.value < 30.0;
      AddIfNotPresent(cands, Humidity, h.value, if below then 30.0 else 70.0, if below then BelowMin else AboveMax)
    else cands
  }

  /** `alertsToTrigger` once the configured and the safety checks ran. */
  function Candidates(r: Reading, cfg: AlertConfig): seq<Candidate> {
    var c1 := CheckThreshold([], Temperature, r.temperature, cfg.tempMin, cfg.tempMax);
    var c2 := CheckThreshold(c1, Humidity, r.humidity, cfg.humidityMin, cfg.humidityMax);
    var c3 := CheckMaxThreshold(c2, Co2, r.co2, cfg.co2Max);
    var c4 := CheckMaxThreshold(c3, Pm25, r.pm25, cfg.pm25Max);
    var c5 := CheckMaxThreshold(c4, Tvoc, r.tvoc, cfg.tvocMax);
    var c6 := Consider(c5, Co2, AboveMax, r.co2, Some(1000.0));
    HumiditySafety(c6, r.humidity)
  }

  /** No (parameter, condition) pair appears twice among the candidates:
      each check adds only when its pair is absent. */
  lemma CandidatesDistinct(r: Reading, cfg: AlertConfig)
    ensures NoDuplicateKeys(Candidates(r, cfg))
  {
    var c1 := CheckThreshold([], Temperature, r.temperature, cfg.tempMin, cfg.tempMax);
    var c2 := CheckThreshold(c1, Humidity, r.humidity, cfg.humidityMin, cfg.humidityMax);
    var c3 := CheckMaxThreshold(c2, Co2, r.co2, cfg.co2Max);
    var c4 := CheckMaxThreshold(c3, Pm25, r.pm25, cfg.pm25Max);
    var c5 := CheckMaxThreshold(c4, Tvoc, r.tvoc, cfg.tvocMax);
    var c6 := Consider(c5, Co2, AboveMax, r.co2, Some(1000.0));
    assert NoDuplicateKeys(c6);
  }

  // ---------------------------------------------------------------------
  // What the candidates are, stated independently
  // ---------------------------------------------------------------------

  /** The configured bound for (p, c): min and max for temperature and
      humidity, only a max for co2, pm25 and tvoc. */
  function ConfiguredBound(cfg: AlertConfig, p: Parameter, c: Condition): Option<real> {
    match (p, c)
    case (Temperature, BelowMin) => cfg.tempMin
    case (Temperature, AboveMax) => cfg.tempMax
    case (Humidity, BelowMin) => cfg.humidityMin
    case (Humidity, AboveMax) => cfg.humidityMax
    case (Co2, AboveMax) => cfg.co2Max
    case (Pm25, AboveMax) => cfg.pm25Max
    case (Tvoc, AboveMax) => cfg.tvocMax
    case _ => None
  }

  /** The fixed safety limits: co2 above 1000, humidity below 30 or above 70. */
  function SafetyBound(p: Parameter, c: Condition): Option<real> {
    match (p, c)
    case (Co2, AboveMax) => Some(1000.0)
    case (Humidity, BelowMin) => Some(30.0)
    case (Humidity, AboveMax) => Some(70.0)
    case _ => None
  }

  /** The candidate expected for (p, c): present iff the value is present
      and violates the configured or the safety bound; its threshold is the
      configured bound whenever that one is violated. */
  function Expected(r: Reading, cfg: AlertConfig, p: Parameter, c: Condition): Option<Candidate> {
    var v := Value(r, p);
    if v.None? then None
    else if Violates(v.value, ConfiguredBound(cfg, p, c), c) then
      Some(Candidate(p, v.value, ConfiguredBound(cfg, p, c).value, c))
    else if Violates(v.value, SafetyBound(p, c), c) then
      Some(Candidate(p, v.value, SafetyBound(p, c).value, c))
    else None
  }

  /** The candidate list holds, for each (parameter, condition), exactly
      the expected candidate. */
  lemma CandidatesExpected(r: Reading, cfg: AlertConfig, p: Parameter, c: Condition)
    ensures Find(Candidates(r, cfg), p, c) == Expected(r, cfg, p, c)
  {
    var c1a := Consider([], Temperature, BelowMin, r.temperature, cfg.tempMin);
    var c1 := Consider(c1a, Temperature, AboveMax, r.temperature, cfg.tempMax);
    var c2a := Consider(c1, Humidity, BelowMin, r.humidity, cfg.humidityMin);
    var c2 := Consider(c2a, Humidity, AboveMax, r.humidity, cfg.humidityMax);
    var c3 := Consider(c2, Co2, AboveMax, r.co2, cfg.co2Max);
    var c4 := Consider(c3, Pm25, AboveMax, r.pm25, cfg.pm25Max);
    var c5 := Consider(c4, Tvoc, AboveMax, r.tvoc, cfg.tvocMax);
    var c6 := Consider(c5, Co2, AboveMax, r.co2, Some(1000.0));
    var c7a := Consider(c6, Humidity, BelowMin, r.humidity, Some(30.0));
    var c7 := Consider(c7a, Humidity, AboveMax, r.humidity, Some(70.0));
    assert Candidates(r, cfg) == c7;
    ConsiderFind([], Temperature, BelowMin, r.temperature, cfg.tempMin, p, c);
    ConsiderFind(c1a, Temperature, AboveMax, r.temperature, cfg.tempMax, p, c);
    ConsiderFind(c1, Humidity, BelowMin, r.humidity, cfg.humidityMin, p, c);
    ConsiderFind(c2a, Humidity, AboveMax, r.humidity, cfg.humidityMax, p, c);
    ConsiderFind(c2, Co2, AboveMax, r.co2, cfg.co2Max, p, c);
    ConsiderFind(c3, Pm25, AboveMax, r.pm25, cfg.pm25Max, p, c);
    ConsiderFind(c4, Tvoc, AboveMax, r.tvoc, cfg.tvocMax, p, c);
    ConsiderFind(c5, Co2, AboveMax, r.co2, Some(1000.0), p, c);
    ConsiderFind(c6, Humidity, BelowMin, r.humidity, Some(30.0), p, c);
    ConsiderFind(c7a, Humidity, AboveMax, r.humidity, Some(70.0), p, c);
    var before := Find(c5, p, c);
    assert before == (if Violates(Value(r, p).GetOr(0.0), ConfiguredBound(cfg, p, c), c) && Value(r, p).Some?
                      then Some(Candidate(p, Value(r, p).value, ConfiguredBound(cfg, p, c).value, c)) else None);
  }

  /** co2, pm25 and tvoc never produce a BELOW_MIN candidate. */
  lemma NoMinForGases(r: Reading, cfg: AlertConfig, p: Parameter)
    requires p == Co2 || p == Pm25 || p == Tvoc
    ensures Find(Candidates(r, cfg), p, BelowMin).None?
  {
    Unbounded(r, cfg, p, BelowMin);
  }

  /** Temperature has no safety limit: without a configured min and max it
      never produces a candidate. */
  lemma UnconfiguredTemperatureSilent(r: Reading, cfg: AlertConfig, c: Condition)
    requires cfg.tempMin.None? && cfg.tempMax.None?
    ensures Find(Candidates(r, cfg), Temperature, c).None?
  {
    Unbounded(r, cfg, Temperature, c);
  }

  /** A (parameter, condition) with neither a configured nor a safety bound
      never has a candidate. */
  lemma Unbounded(r: Reading, cfg: AlertConfig, p: Parameter, c: Condition)
    requires ConfiguredBound(cfg, p, c).None? && SafetyBound(p, c).None?
    ensures Find(Candidates(r, cfg), p, c).None?
  {
    CandidatesExpected(r, cfg, p, c);
  }

  // ---------------------------------------------------------------------
  // Cooldown
  // ---------------------------------------------------------------------

  predicate SameKind(a: Alert, sensorId: string, p: Parameter, c: Condition) {
    a.sensorId == sensorId && a.parameter == p && a.condition == c
  }

  /** The creation time of the latest alert of this kind, as
      `findFirst(..., orderBy createdAt desc)` finds it. */
  function Latest(alerts: seq<Alert>, sensorId: string, p: Parameter, c: Condition): (r: Option<int>)
    ensures r.None? <==> forall i | 0 <= i < |alerts| :: !SameKind(alerts[i], sensorId, p, c)
    ensures r.Some? ==> exists i | 0 <= i < |alerts| :: SameKind(alerts[i], sensorId, p, c) && alerts[i].createdAt == r.value
    ensures r.Some? ==> forall i | 0 <= i < |alerts| && SameKind(alerts[i], sensorId, p, c) :: alerts[i].createdAt <= r.value
  {
    if |alerts| == 0 then None
    else
      var init := alerts[..|alerts| - 1];
      var last := alerts[|alerts| - 1];
      var before := Latest(init, sensorId, p, c);
      assert forall i | 0 <= i < |init| :: alerts[i] == init[i];
      if !SameKind(last, sensorId, p, c) then before
      else if before.Some? && before.value >= last.createdAt then before
      else Some(last.createdAt)
  }

  /** `!lastAlert || now - lastAlert.createdAt > cooldownMs`. */
  predicate CooldownPassed(alerts: seq<Alert>, sensorId: string, p: Parameter, c: Condition, now: int, cooldownMs: int) {
    var l := Latest(alerts, sensorId, p, c);
    l.None? || now - l.value > cooldownMs
  }

  /** The cooldown admits a candidate iff EVERY earlier alert of its kind is
      older than the cooldown, with strict inequality. */
  lemma CooldownPassedIff(alerts: seq<Alert>, sensorId: string, p: Parameter, c: Condition, now: int, cooldownMs: int)
    ensures CooldownPassed(alerts, sensorId, p, c, now, cooldownMs) <==>
      forall i | 0 <= i < |alerts| && SameKind(alerts[i], sensorId, p, c) :: now - alerts[i].createdAt > cooldownMs
  {
  }

  /** An appended alert of another kind leaves the latest time unchanged. */
  lemma LatestOtherKind(alerts: seq<Alert>, a: Alert, sensorId: string, p: Parameter, c: Condition)
    requires !SameKind(a, sensorId, p, c)
    ensures Latest(alerts + [a], sensorId, p, c) == Latest(alerts, sensorId, p, c)
  {
    assert (alerts + [a])[..|alerts|] == alerts;
  }

  /** An appended alert of the same kind moves the latest time to at least
      its own creation time. */
  lemma LatestSameKind(alerts: seq<Alert>, a: Alert, sensorId: string, p: Parameter, c: Condition)
    requires SameKind(a, sensorId, p, c)
    ensures Latest(alerts + [a], sensorId, p, c).Some?
    ensures Latest(alerts + [a], sensorId, p, c).value >= a.createdAt
    ensures Latest(alerts, sensorId, p, c).Some? ==>
      Latest(alerts + [a], sensorId, p, c).value >= Latest(alerts, sensorId, p, c).value
  {
    assert (alerts + [a])[..|alerts|] == alerts;
  }

  function NewAlert(id: nat, userId: string, sensorId: string, x: Candidate, now: int): Alert {
    Alert(id, userId, sensorId, x.parameter, x.value, x.threshold, x.condition, now)
  }

  /** The creation loop: each candidate is looked up against the table as
      it stands, including the alerts this loop already created. */
  function Emit(alerts: seq<Alert>, userId: string, sensorId: string, cands: seq<Candidate>, now: int, cooldownMs: int): (created: seq<Alert>)
    ensures |created| <= |cands|
    ensures forall i | 0 <= i < |created| ::
      && created[i].userId == userId && created[i].sensorId == sensorId
      && created[i].createdAt == now && created[i].id == |alerts| + i
    decreases |cands|
  {
    if |cands| == 0 then []
    else
      var x := cands[0];
      if CooldownPassed(alerts, sensorId, x.parameter, x.condition, now, cooldownMs) then
        var a := NewAlert(|alerts|, userId, sensorId, x, now);
        [a] + Emit(alerts + [a], userId, sensorId, cands[1..], now, cooldownMs)
      else Emit(alerts, userId, sensorId, cands[1..], now, cooldownMs)
  }

  /** The candidates that pass the cooldown against a fixed table, in order. */
  function Passing(alerts: seq<Alert>, sensorId: string, cands: seq<Candidate>, now: int, cooldownMs: int): (r: seq<Candidate>)
    ensures forall x | x in r :: x in cands && CooldownPassed(alerts, sensorId, x.parameter, x.condition, now, cooldownMs)
    ensures forall x | x in cands && CooldownPassed(alerts, sensorId, x.parameter, x.condition, now, cooldownMs) :: x in r
  {
    if |cands| == 0 then []
    else
      var rest := Passing(alerts, sensorId, cands[1..], now, cooldownMs);
      assert forall x | x in cands :: x == cands[0] || x in cands[1..];
      if CooldownPassed(alerts, sensorId, cands[0].parameter, cands[0].condition, now, cooldownMs)
      then [cands[0]] + rest else rest
  }

  function CandidateOf(a: Alert): Candidate {
    Candidate(a.parameter, a.value, a.threshold, a.condition)
  }

  function CandidatesOf(alerts: seq<Alert>): (r: seq<Candidate>)
    ensures |r| == |alerts| && forall i | 0 <= i < |r| :: r[i] == CandidateOf(alerts[i])
  {
    seq(|alerts|, i requires 0 <= i < |alerts| => CandidateOf(alerts[i]))
  }

  /** Adding an alert of a kind none of the candidates has changes nothing. */
  lemma {:induction false} PassingUnaffected(alerts: seq<Alert>, a: Alert, sensorId: string, cands: seq<Candidate>, now: int, cooldownMs: int)
    requires forall i | 0 <= i < |cands| :: !SameKind(a, sensorId, cands[i].parameter, cands[i].condition)
    ensures Passing(alerts + [a], sensorId, cands, now, cooldownMs) == Passing(alerts, sensorId, cands, now, cooldownMs)
    decreases |cands|
  {
    if |cands| > 0 {
      LatestOtherKind(alerts, a, sensorId, cands[0].parameter, cands[0].condition);
      PassingUnaffected(alerts, a, sensorId, cands[1..], now, cooldownMs);
    }
  }

  /** Because the candidates have distinct kinds, the alerts the loop
      creates never hold back a later candidate: the result is exactly the
      candidates that pass against the table before the call. */
  lemma {:induction false} EmitIsPassing(alerts: seq<Alert>, userId: string, sensorId: string, cands: seq<Candidate>, now: int, cooldownMs: int)
    requires NoDuplicateKeys(cands)
    ensures CandidatesOf(Emit(alerts, userId, sensorId, cands, now, cooldownMs)) == Passing(alerts, sensorId, cands, now, cooldownMs)
    decreases |cands|
  {
    if |cands| > 0 {
      var x := cands[0];
      var tail := cands[1..];
      TailDistinct(cands);
      if CooldownPassed(alerts, sensorId, x.parameter, x.condition, now, cooldownMs) {
        var a := NewAlert(|alerts|, userId, sensorId, x, now);
        EmitIsPassing(alerts + [a], userId, sensorId, tail, now, cooldownMs);
        NewAlertOtherKinds(cands, a, userId, sensorId, now);
        PassingUnaffected(alerts, a, sensorId, tail, now, cooldownMs);
        EmitPassedStep(alerts, userId, sensorId, cands, now, cooldownMs);
      } else {
        EmitIsPassing(alerts, userId, sensorId, tail, now, cooldownMs);
      }
    }
  }

  lemma TailDistinct(cands: seq<Candidate>)
    requires NoDuplicateKeys(cands) && |cands| > 0
    ensures NoDuplicateKeys(cands[1..])
  {
    forall i, j | 0 <= i < j < |cands| - 1
      ensures !(cands[1..][i].parameter == cands[1..][j].parameter && cands[1..][i].condition == cands[1..][j].condition)
    {
      assert cands[1..][i] == cands[i + 1] && cands[1..][j] == cands[j + 1];
    }
  }

  /** The alert created for the first candidate has a kind no later
      candidate has. */
  lemma NewAlertOtherKinds(cands: seq<Candidate>, a: Alert, userId: string, sensorId: string, now: int)
    requires NoDuplicateKeys(cands) && |cands| > 0
    requires a.sensorId == sensorId && a.parameter == cands[0].parameter && a.condition == cands[0].condition
    ensures forall i | 0 <= i < |cands[1..]| :: !SameKind(a, sensorId, cands[1..][i].parameter, cands[1..][i].condition)
  {
    forall i | 0 <= i < |cands[1..]| ensures !SameKind(a, sensorId, cands[1..][i].parameter, cands[1..][i].condition) {
      assert cands[1..][i] == cands[i + 1];
    }
  }

  /** One step of the loop when the first candidate passes: it is emitted
      first and kept first. */
  lemma EmitPassedStep(alerts: seq<Alert>, userId: string, sensorId: string, cands: seq<Candidate>, now: int, cooldownMs: int)
    requires |cands| > 0 && CooldownPassed(alerts, sensorId, cands[0].parameter, cands[0].condition, now, cooldownMs)
    requires var a := NewAlert(|alerts|, userId, sensorId, cands[0], now);
      CandidatesOf(Emit(alerts + [a], userId, sensorId, cands[1..], now, cooldownMs))
        == Passing(alerts, sensorId, cands[1..], now, cooldownMs)
    ensures CandidatesOf(Emit(alerts, userId, sensorId, cands, now, cooldownMs)) == Passing(alerts, sensorId, cands, now, cooldownMs)
  {
    var a := NewAlert(|alerts|, userId, sensorId, cands[0], now);
    var rest := Emit(alerts + [a], userId, sensorId, cands[1..], now, cooldownMs);
    assert Emit(alerts, userId, sensorId, cands, now, cooldownMs) == [a] + rest;
    assert Passing(alerts, sensorId, cands, now, cooldownMs) == [cands[0]] + Passing(alerts, sensorId, cands[1..], now, cooldownMs);
    CandidatesOfCons(a, rest);
  }

  lemma CandidatesOfCons(a: Alert, rest: seq<Alert>)
    ensures CandidatesOf([a] + rest) == [CandidateOf(a)] + CandidatesOf(rest)
  {
    var l, r := CandidatesOf([a] + rest), [CandidateOf(a)] + CandidatesOf(rest);
    assert |l| == |r|;
    forall i | 0 <= i < |l| ensures l[i] == r[i] {
      if i > 0 { assert ([a] + rest)[i] == rest[i - 1]; }
    }
  }

  // ---------------------------------------------------------------------
  // checkReadingForAlerts
  // ---------------------------------------------------------------------

  /** `checkReadingForAlerts(reading)` at time `now`. */
  function CheckReadingForAlerts(st: Store, r: Reading, now: int): (e: Evaluation)
    ensures e.store.sensors == st.sensors
    ensures e.store.alerts == st.alerts + e.created
    ensures (r.sensorId !in st.sensors || st.sensors[r.sensorId].alertConfig.None?
             || !st.sensors[r.sensorId].alertConfig.value.isEnabled) ==> e == Evaluation([], st)
    ensures forall i | 0 <= i < |e.created| ::
      && r.sensorId in st.sensors
      && e.created[i].userId == st.sensors[r.sensorId].userId
      && e.created[i].sensorId == r.sensorId
      && e.created[i].createdAt == now
  {
    if r.sensorId !in st.sensors then Evaluation([], st)
    else
      var sensor := st.sensors[r.sensorId];
      if sensor.alertConfig.None? || !sensor.alertConfig.value.isEnabled then Evaluation([], st)
      else
        var cfg := sensor.alertConfig.value;
        var cands := Candidates(r, cfg);
        if |cands| == 0 then Evaluation([], st)
        else
          var created := Emit(st.alerts, sensor.userId, r.sensorId, cands, now, cfg.cooldownMinutes * 60 * 1000);
          Evaluation(created, Store(st.sensors, st.alerts + created))
  }

  /** The created alerts are the candidates that pass the cooldown against
      the table as it was before the call, in candidate order. */
  lemma CreatedArePassing(st: Store, r: Reading, now: int)
    requires r.sensorId in st.sensors
    requires st.sensors[r.sensorId].alertConfig.Some? && st.sensors[r.sensorId].alertConfig.value.isEnabled
    ensures var cfg := st.sensors[r.sensorId].alertConfig.value;
      CandidatesOf(CheckReadingForAlerts(st, r, now).created)
        == Passing(st.alerts, r.sensorId, Candidates(r, cfg), now, cfg.cooldownMinutes * 60 * 1000)
  {
    var sensor := st.sensors[r.sensorId];
    var cfg := sensor.alertConfig.value;
    CandidatesDistinct(r, cfg);
    EmitIsPassing(st.alerts, sensor.userId, r.sensorId, Candidates(r, cfg), now, cfg.cooldownMinutes * 60 * 1000);
  }

  /** The sensor's configuration, if any, has a cooldown of no negative
      length: every cooldown the route accepts (1 to 1440 minutes) and
      every non-negative one a synced write may store. */
  predicate CooldownNonNegative(st: Store, sensorId: string) {
    sensorId in st.sensors && st.sensors[sensorId].alertConfig.Some? ==>
      st.sensors[sensorId].alertConfig.value.cooldownMinutes >= 0
  }

  /** Checking the same reading again at the same instant creates nothing:
      every candidate is now within the cooldown of an alert of its kind. */
  lemma SameInstantQuiet(st: Store, r: Reading, now: int)
    requires CooldownNonNegative(st, r.sensorId)
    ensures var e := CheckReadingForAlerts(st, r, now);
      CheckReadingForAlerts(e.store, r, now).created == []
  {
    var e := CheckReadingForAlerts(st, r, now);
    if r.sensorId in st.sensors {
      var sensor := st.sensors[r.sensorId];
      if sensor.alertConfig.Some? && sensor.alertConfig.value.isEnabled {
        var cfg := sensor.alertConfig.value;
        var cands := Candidates(r, cfg);
        var ms := cfg.cooldownMinutes * 60 * 1000;
        assert ms >= 0;
        if |cands| > 0 {
          CreatedArePassing(st, r, now);
          var after := e.store.alerts;
          forall x | x in cands
            ensures !CooldownPassed(after, r.sensorId, x.parameter, x.condition, now, ms)
          {
            BlockedAfter(st.alerts, e.created, r.sensorId, x, now, ms);
          }
          EmitNothing(after, sensor.userId, r.sensorId, cands, now, ms);
        }
      }
    }
  }

  /** After the call, a candidate either was created at `now` or was
      already within the cooldown; either way it is blocked at `now`. */
  lemma BlockedAfter(before: seq<Alert>, created: seq<Alert>, sensorId: string, x: Candidate, now: int, ms: int)
    requires ms >= 0
    requires forall i | 0 <= i < |created| :: created[i].sensorId == sensorId && created[i].createdAt == now
    requires CooldownPassed(before, sensorId, x.parameter, x.condition, now, ms) ==> x in CandidatesOf(created)
    ensures !CooldownPassed(before + created, sensorId, x.parameter, x.condition, now, ms)
  {
    var all := before + created;
    var l := Latest(before, sensorId, x.parameter, x.condition);
    if CooldownPassed(before, sensorId, x.parameter, x.condition, now, ms) {
      var k :| 0 <= k < |created| && CandidatesOf(created)[k] == x;
      assert SameKind(all[|before| + k], sensorId, x.parameter, x.condition);
    } else {
      var i :| 0 <= i < |before| && SameKind(before[i], sensorId, x.parameter, x.condition) && before[i].createdAt == l.value;
      assert all[i] == before[i];
    }
  }

  lemma {:induction false} EmitNothing(alerts: seq<Alert>, userId: string, sensorId: string, cands: seq<Candidate>, now: int, ms: int)
    requires forall x | x in cands :: !CooldownPassed(alerts, sensorId, x.parameter, x.condition, now, ms)
    ensures Emit(alerts, userId, sensorId, cands, now, ms) == []
    decreases |cands|
  {
    if |cands| > 0 {
      assert cands[0] in cands;
      assert forall x | x in cands[1..] :: x in cands;
      EmitNothing(alerts, userId, sensorId, cands[1..], now, ms);
    }
  }

  // ---------------------------------------------------------------------
  // getAlertHistory
  // ---------------------------------------------------------------------

  datatype AlertPage = AlertPage(items: seq<Alert>, page: int, limit: int, total: nat, hasMore: bool)

  function UserAlerts(alerts: seq<Alert>, userId: string): (r: seq<Alert>)
    ensures forall a :: a in r <==> a in alerts && a.userId == userId
    ensures |r| <= |alerts|
  {
    if |alerts| == 0 then []
    else
      var rest := UserAlerts(alerts[1..], userId);
      assert forall a :: a in alerts <==> a == alerts[0] || a in alerts[1..];
      if alerts[0].userId == userId then [alerts[0]] + rest else rest
  }

  /** The sort key of `orderBy: { createdAt: 'desc' }`. */
  function NewestFirst(a: Alert): int {
    -a.createdAt
  }

  /** `getAlertHistory(userId, { page, limit })`: the page holds the user's
      alerts, newest first, from position `(page - 1) * limit` on, as many
      as `limit` allows and the total leaves. */
  function AlertHistory(st: Store, userId: string, page: Option<nat>, limit: Option<nat>): (h: AlertPage)
    ensures h.page >= 1 && 1 <= h.limit <= 100 && |h.items| <= h.limit
    ensures h.total == |UserAlerts(st.alerts, userId)|
    ensures var skip := Pagination.SkipOf(h.page, h.limit);
      |h.items| == if h.total <= skip then 0 else Min(h.limit, h.total - skip)
    ensures var skip := Pagination.SkipOf(h.page, h.limit);
      var mine := SortByKey(UserAlerts(st.alerts, userId), NewestFirst);
      forall i | 0 <= i < |h.items| :: skip + i < |mine| && h.items[i] == mine[skip + i]
    ensures forall i | 0 <= i < |h.items| :: h.items[i] in st.alerts && h.items[i].userId == userId
    ensures forall i, j | 0 <= i < j < |h.items| :: h.items[i].createdAt >= h.items[j].createdAt
  {
    var q := Pagination.ServiceQuery(page, limit);
    var mine := SortByKey(UserAlerts(st.alerts, userId), NewestFirst);
    var items := Window(mine, q.skip, q.limit);
    var h := AlertPage(items, q.page, q.limit, |mine|, HasMore(|mine|, q.skip, |items|));
    HistoryPage(st.alerts, userId, mine, q.skip, h);
    assert Pagination.SkipOf(q.page, q.limit) == q.skip;
    h
  }

  lemma HistoryPage(alerts: seq<Alert>, userId: string, mine: seq<Alert>, skip: nat, h: AlertPage)
    requires mine == SortByKey(UserAlerts(alerts, userId), NewestFirst)
    requires h.limit >= 0 && h.total == |mine| && h.items == Window(mine, skip, h.limit)
    ensures |h.items| == if h.total <= skip then 0 else Min(h.limit, h.total - skip)
    ensures forall i | 0 <= i < |h.items| :: skip + i < |mine| && h.items[i] == mine[skip + i]
    ensures forall i | 0 <= i < |h.items| :: h.items[i] in alerts && h.items[i].userId == userId
    ensures forall i, j | 0 <= i < j < |h.items| :: h.items[i].createdAt >= h.items[j].createdAt
  {
    HistoryWindow(alerts, userId, mine, skip, h.limit);
  }

  lemma HistoryWindow(alerts: seq<Alert>, userId: string, mine: seq<Alert>, skip: nat, take: nat)
    requires mine == SortByKey(UserAlerts(alerts, userId), NewestFirst)
    ensures var items := Window(mine, skip, take);
      && (forall i | 0 <= i < |items| :: items[i] in alerts && items[i].userId == userId)
      && (forall i, j | 0 <= i < j < |items| :: items[i].createdAt >= items[j].createdAt)
  {
    var items := Window(mine, skip, take);
    forall i | 0 <= i < |items| ensures items[i] in alerts && items[i].userId == userId {
      assert items[i] == mine[skip + i];
      assert mine[skip + i] in multiset(mine);
    }
    forall i, j | 0 <= i < j < |items| ensures items[i].createdAt >= items[j].createdAt {
      assert items[i] == mine[skip + i] && items[j] == mine[skip + j];
      assert NewestFirst(mine[skip + i]) <= NewestFirst(mine[skip + j]);
    }
  }

  /** `total` counts all of the user's alerts and `hasMore` holds iff the
      next page would not be empty. */
  lemma AlertHistoryHasMore(st: Store, userId: string, page: Option<nat>, limit: Option<nat>)
    ensures var h := AlertHistory(st, userId, page, limit);
      var q := Pagination.ServiceQuery(page, limit);
      var mine := SortByKey(UserAlerts(st.alerts, userId), NewestFirst);
      && h.total == |UserAlerts(st.alerts, userId)|
      && (h.hasMore <==> |Window(mine, q.skip + q.limit, q.limit)| > 0)
  {
    var q := Pagination.ServiceQuery(page, limit);
    var mine := SortByKey(UserAlerts(st.alerts, userId), NewestFirst);
    HasMoreIffNextWindow(mine, q.skip, q.limit);
  }
}
