/** src/ai/prompt_router.c: the health record of one AI model, which carries its
    quarantine, rate-limit cool-down, failure window and circuit breaker. */
module ModelHealth {
  import opened CMachine

  const QUARANTINE_DURATION := 60
  const CIRCUIT_BREAK_THRESHOLD := 3
  const CIRCUIT_OPEN_DURATION := 30
  const CIRCUIT_WINDOW_US := 60000000
  const HALF_OPEN_MAX := 1
  const US_PER_S := 1000000

  datatype ModelState =
    Healthy | Degraded | RateLimited | Decommissioned | Quarantined | Disabled | MissingKey

  datatype ErrorCode =
    NoError | ApiFailure | Timeout | RateLimitError | DecommissionedError | AuthError
    | InvalidModel | QuarantinedError | CircuitOpenError | MemoryError

  /** Wall-clock seconds. */
  type Time = nat

  datatype Health = Health(
    state: ModelState,
    failures: nat,            // consecutive_failures
    successes: nat,           // consecutive_successes
    lastFailure: Time,
    lastSuccess: Time,
    quarantinedUntil: Time,
    circuitOpen: bool,
    circuitOpenUntil: Time,
    circuitFailures: nat,
    windowStartUs: nat)       // 0 while no failure window is open

  const FRESH := Health(Healthy, 0, 0, 0, 0, 0, false, 0, 0, 0)

  // ------------------------------------------------- specification functions

  /** provider_is_eligible: the answer, and the record with an expired
      quarantine or cool-down lifted. */
  function Checked(h: Health, now: Time): (Health, bool) {
    match h.state
    case Healthy | Degraded => (h, true)
    case RateLimited => if h.quarantinedUntil > now then (h, false) else (h.(state := Healthy), true)
    case Quarantined =>
      if h.quarantinedUntil > now then (h, false) else (h.(state := Healthy, failures := 0), true)
    case Decommissioned | Disabled | MissingKey => (h, false)
  }

  predicate Usable(h: Health, now: Time) {
    && !h.state.Decommissioned? && !h.state.Disabled? && !h.state.MissingKey?
    && h.quarantinedUntil <= now
    && !(h.circuitOpen && h.circuitOpenUntil > now)
    && !h.state.RateLimited?
  }

  /** The gate at the head of send_to_model, which reads the clock at `first`
      and again at `second`: the refusal, or None when the attempt goes out. */
  function Refusal(h: Health, first: Time, second: Time): Option<ErrorCode> {
    if Usable(h, first) then None
    else if h.state.Decommissioned? then Some(DecommissionedError)
    else if h.circuitOpen then Some(CircuitOpenError)
    else if h.quarantinedUntil > second then Some(QuarantinedError)
    else if h.state.RateLimited? then Some(RateLimitError)
    else None
  }

  function AfterSuccess(h: Health, err: ErrorCode, now: Time): Health {
    var h1 := h.(failures := 0, successes := h.successes + 1, lastSuccess := now);
    var h2 :=
      if h1.circuitOpen && h1.successes >= HALF_OPEN_MAX then
        h1.(circuitOpen := false, circuitOpenUntil := 0, circuitFailures := 0, windowStartUs := 0,
            state := Healthy, quarantinedUntil := 0)
      else h1;
    if err.RateLimitError? then h2.(state := RateLimited, quarantinedUntil := now + 5)
    else if h2.state.RateLimited? then h2.(state := Healthy, quarantinedUntil := 0)
    else h2
  }

  /** Whether a failure at `now` falls into the current failure window. */
  predicate InWindow(h: Health, now: Time) {
    h.windowStartUs != 0 && Wrap64(now * US_PER_S - h.windowStartUs) < CIRCUIT_WINDOW_US
  }

  function Counted(h: Health, now: Time): Health {
    if InWindow(h, now) then h.(circuitFailures := h.circuitFailures + 1)
    else h.(windowStartUs := now * US_PER_S, circuitFailures := 1)
  }

  predicate Trips(h: Health, now: Time) {
    InWindow(h, now) && h.circuitFailures + 1 >= CIRCUIT_BREAK_THRESHOLD
  }

  function AfterFailure(h: Health, err: ErrorCode, now: Time): Health {
    var h1 := h.(failures := h.failures + 1, successes := 0, lastFailure := now);
    if err.DecommissionedError? then h1.(state := Decommissioned)
    else if err.RateLimitError? then h1.(state := RateLimited, quarantinedUntil := now + 10)
    else
      var h2 := Counted(h1, now);
      if Trips(h1, now) then
        h2.(circuitOpen := true, circuitOpenUntil := now + CIRCUIT_OPEN_DURATION, state := Quarantined)
      else if h2.failures >= 2 then
        h2.(state := Quarantined, quarantinedUntil := now + QUARANTINE_DURATION)
      else h2
  }

  function Updated(h: Health, success: bool, err: ErrorCode, now: Time): Health {
    if success then AfterSuccess(h, err, now) else AfterFailure(h, err, now)
  }

  /** prompt_router_hot_reload, for one model. */
  function Reloaded(h: Health, keySet: bool): Health {
    if !keySet then h.(state := MissingKey)
    else if h.state.MissingKey? then h.(state := Healthy)
    else h
  }

  // ---------------------------------------------------------------- the model

  /** How one transfer ended; `Transport` is a libcurl error, `HttpError` a
      completed transfer with a status of 400 or more. */
  datatype Outcome = Delivered | HttpError(err: ErrorCode) | Transport(err: ErrorCode) {
    function Error(): ErrorCode {
      if Delivered? then NoError else err
    }
  }

  /** What a model's requests have used. The cost of each is an integer quotient,
      so that of a small one is lost. */
  datatype Account = Account(inTokens: nat, outTokens: nat, requests: nat, errors: nat, costUsd: nat)

  class AIModel {
    const name: string
    const tier: int
    var isAvailable: bool
    var healthOk: bool
    var totalLatencyUs: nat
    var totalCalls: nat
    var totalCostUsd: real
    var lastLatencyUs: nat
    var minLatencyUs: nat  // 0 until the first call
    var maxLatencyUs: nat
    var account: Account
    var health: Health  // the embedded ModelHealth record

    constructor (name: string, tier: int, keySet: bool)
      ensures this.name == name && this.tier == (if 1 <= tier <= 4 then tier else 2)
      ensures health == if keySet then FRESH else FRESH.(state := MissingKey)
      ensures isAvailable == keySet && healthOk && totalCalls == totalLatencyUs == 0 && totalCostUsd == 0.0
      ensures lastLatencyUs == minLatencyUs == maxLatencyUs == 0 && account == Account(0, 0, 0, 0, 0)
    {
      this.name := name;
      this.tier := if 1 <= tier <= 4 then tier else 2;
      isAvailable, healthOk := keySet, true;
      totalLatencyUs, totalCalls, totalCostUsd := 0, 0, 0.0;
      lastLatencyUs, minLatencyUs, maxLatencyUs, account := 0, 0, 0, Account(0, 0, 0, 0, 0);
      health := if keySet then FRESH else FRESH.(state := MissingKey);
    }

    method ProviderIsEligible(now: Time) returns (ok: bool)
      modifies `health
      ensures (health, ok) == Checked(old(health), now)
    {
      match health.state {
        case Healthy =>
          ok := true;
        case Degraded =>
          ok := true;
        case RateLimited =>
          if health.quarantinedUntil > now { return false; }
          health := health.(state := Healthy);
          ok := true;
        case Quarantined =>
          if health.quarantinedUntil > now { return false; }
          health := health.(state := Healthy);
          health := health.(failures := 0);
          ok := true;
        case _ =>
          ok := false;
      }
    }

    method IsModelUsable(now: Time) returns (ok: bool)
      ensures ok == Usable(health, now)
    {
      if health.state == Decommissioned || health.state == Disabled { return false; }
      if health.state == MissingKey { return false; }
      if health.quarantinedUntil > now { return false; }
      if health.circuitOpen && health.circuitOpenUntil > now { return false; }
      if health.state == RateLimited { return false; }
      if health.state == Quarantined && health.quarantinedUntil > now { return false; }
      return true;
    }

    method Gate(first: Time, second: Time) returns (refusal: Option<ErrorCode>)
      ensures refusal == Refusal(health, first, second)
    {
      var usable := IsModelUsable(first);
      if !usable {
        if health.state == Decommissioned { return Some(DecommissionedError); }
        if health.circuitOpen { return Some(CircuitOpenError); }
        if health.quarantinedUntil > second { return Some(QuarantinedError); }
        if health.state == RateLimited { return Some(RateLimitError); }
      }
      return None;
    }

    method UpdateModelHealth(success: bool, err: ErrorCode, now: Time)
      modifies `health, `healthOk
      ensures health == Updated(old(health), success, err, now)
      ensures healthOk == (success && (old(healthOk) || old(health.circuitOpen)))
    {
      if success {
        health := health.(failures := 0, successes := health.successes + 1, lastSuccess := now);
        if health.circuitOpen && health.successes >= HALF_OPEN_MAX {
          health := health.(circuitOpen := false, circuitOpenUntil := 0);
          health := health.(circuitFailures := 0, windowStartUs := 0);
          health := health.(state := Healthy, quarantinedUntil := 0);
          healthOk := true;
        }
        if err == RateLimitError {
          health := health.(state := RateLimited, quarantinedUntil := now + 5);
        } else if health.state == RateLimited {
          health := health.(state := Healthy, quarantinedUntil := 0);
        }
      } else {
        health := health.(failures := health.failures + 1, successes := 0, lastFailure := now);
        if err == DecommissionedError {
          health := health.(state := Decommissioned);
          healthOk := false;
          return;
        }
        if err == RateLimitError {
          health := health.(state := RateLimited, quarantinedUntil := now + 10);
          healthOk := false;
          return;
        }
        var nowUs := now * US_PER_S;
        if health.windowStartUs == 0 {
          health := health.(windowStartUs := nowUs, circuitFailures := 1);
        } else if Wrap64(nowUs - health.windowStartUs) < CIRCUIT_WINDOW_US {
          health := health.(circuitFailures := health.circuitFailures + 1);
          if health.circuitFailures >= CIRCUIT_BREAK_THRESHOLD {
            health := health.(circuitOpen := true, circuitOpenUntil := now + CIRCUIT_OPEN_DURATION);
            health := health.(state := Quarantined);
            healthOk := false;
            return;
          }
        } else {
          health := health.(windowStartUs := nowUs, circuitFailures := 1);
        }
        if health.failures >= 2 {
          health := health.(state := Quarantined, quarantinedUntil := now + QUARANTINE_DURATION);
        }
        healthOk := false;
      }
    }

    /** One attempt: the gate, then the transfer that `outcome` stands for, then
        the health update. Only a transport error makes it fail. */
    method SendToModel(first: Time, second: Time, finish: Time, outcome: Outcome, latencyUs: nat, costUsd: real,
                       inTokens: nat, outTokens: nat)
      returns (result: int)
      modifies this
      ensures old(Refusal(health, first, second)).Some? ==> result == -1 && unchanged(this)
      ensures old(Refusal(health, first, second)).None? ==>
                && result == (if outcome.Transport? then -1 else 0)
                && health == Updated(old(health), outcome.Delivered?, outcome.Error(), finish)
                && totalCalls == old(totalCalls) + 1
                && totalLatencyUs == old(totalLatencyUs) + latencyUs
                && totalCostUsd == old(totalCostUsd) + (if outcome.Delivered? then costUsd else 0.0)
                && healthOk == outcome.Delivered?
                && lastLatencyUs == latencyUs
                && minLatencyUs == (if latencyUs < old(minLatencyUs) || old(minLatencyUs) == 0 then latencyUs else old(minLatencyUs))
                && maxLatencyUs == (if latencyUs > old(maxLatencyUs) then latencyUs else old(maxLatencyUs))
                && account.requests == old(account).requests + 1
                && account.errors == old(account).errors + (if outcome.Delivered? then 0 else 1)
                && account.inTokens == old(account).inTokens + (if outcome.Delivered? then inTokens else 0)
                && account.outTokens == old(account).outTokens + (if outcome.Delivered? then outTokens else 0)
                && account.costUsd == old(account).costUsd + (if outcome.Delivered? then (inTokens * 5 + outTokens * 15) / 1000000 else 0)
      ensures isAvailable == old(isAvailable)
    {
      hide Refusal, AfterSuccess, AfterFailure;
      var refusal := Gate(first, second);
      if refusal.Some? { return -1; }
      totalLatencyUs := totalLatencyUs + latencyUs;
      totalCalls := totalCalls + 1;
      lastLatencyUs := latencyUs;
      if latencyUs < minLatencyUs || minLatencyUs == 0 { minLatencyUs := latencyUs; }
      if latencyUs > maxLatencyUs { maxLatencyUs := latencyUs; }
      match outcome {
        case Transport(err) =>
          account := account.(errors := account.errors + 1, requests := account.requests + 1);
          UpdateModelHealth(false, err, finish);
          return -1;
        case HttpError(err) =>
          account := account.(errors := account.errors + 1, requests := account.requests + 1);
          UpdateModelHealth(false, err, finish);
          return 0;
        case Delivered =>
          healthOk := true;
          account := account.(inTokens := account.inTokens + inTokens, outTokens := account.outTokens + outTokens);
          account := account.(requests := account.requests + 1);
          account := account.(costUsd := account.costUsd + (inTokens * 5 + outTokens * 15) / 1000000);
          totalCostUsd := totalCostUsd + costUsd;
          UpdateModelHealth(true, NoError, finish);
          return 0;
      }
    }

    method HotReload(keySet: bool)
      modifies `isAvailable, `health
      ensures health == Reloaded(old(health), keySet) && isAvailable == keySet
    {
      isAvailable := keySet;
      if !isAvailable {
        health := health.(state := MissingKey);
      } else if health.state == MissingKey {
        health := health.(state := Healthy);
      }
    }

    method SetModelState(s: ModelState)
      modifies `health, `healthOk
      ensures health == old(health).(state := s)
      ensures healthOk == (old(healthOk) && s != Decommissioned && s != Disabled)
    {
      health := health.(state := s);
      if s == Decommissioned || s == Disabled {
        healthOk := false;
      }
    }
  }
}
