// The arbitration that the reader finds, on every run of the oracle, and what it
// accepts of any logs.
module OracleArbitration {
  import opened Wrappers
  import opened EthTypes
  import opened SolAbi
  import opened SolAbiTheorems
  import opened SafenetTypes
  import opened OracleLogs
  import opened Oracle
  import opened OracleVotes

  // ---- What is accepted of any logs -------------------------------------------------

  function SettlingEvent(outcome: Outcome): Event {
    match outcome
    case PendingOutcome => DisputeTriggered
    case Secure => DisputeResolved
    case Insecure => DisputeResolved
    case OutOfScope => DisputeOutOfScope
    case TimedOut => ArbitrationTimedOut
  }

  // A log of logs triggers the dispute, with the deadline.
  predicate Triggers(logs: seq<Log>, deadline: nat) {
    exists log :: log in logs && IsTrigger(log, deadline)
  }

  predicate IsTrigger(log: Log, deadline: nat) {
    !log.removed && log.event == DisputeTriggered && ReadUint64(log.data, 0) == Some(deadline)
  }

  // A log of logs has the outcome and the record.
  predicate Records(logs: seq<Log>, outcome: Outcome, record: Record) {
    exists log :: log in logs && IsRecorded(log, outcome, record)
  }

  predicate IsRecorded(log: Log, outcome: Outcome, record: Record) {
    !log.removed && log.event == SettlingEvent(outcome) && Record(log.block, log.txHash) == record
  }

  // What holds of the reading of logs.
  predicate Grounded(r: Reading, logs: seq<Log>, deadline: nat, timeout: nat) {
    && r.arbitration.deadline == deadline && r.arbitration.frozenBlock + timeout == deadline
    && (r.frozen ==> Triggers(logs, deadline))
    && (r.arbitration.outcome == PendingOutcome ==> r.arbitration.record.None?)
    && (r.arbitration.outcome != PendingOutcome ==>
          r.arbitration.record.Some? && Records(logs, r.arbitration.outcome, r.arbitration.record.value))
  }

  lemma GroundedNext(r: Reading, logs: seq<Log>, log: Log, deadline: nat, timeout: nat)
    requires Grounded(r, logs, deadline, timeout) && r.arbitration.outcome == PendingOutcome
    requires NextReading(r, log).Ok?
    ensures Grounded(NextReading(r, log).value, logs + [log], deadline, timeout)
  {
    assert log in logs + [log];
    var next := NextReading(r, log).value;
    if next.arbitration.outcome != PendingOutcome {
      assert IsRecorded(log, next.arbitration.outcome, next.arbitration.record.value);
    }
    if !r.frozen && next.frozen {
      assert IsTrigger(log, deadline);
    }
  }

  lemma {:induction false} ReadingsAreGrounded(logs: seq<Log>, deadline: nat, timeout: nat)
    requires timeout <= deadline
    requires Readings(StartReading(deadline, timeout), logs).Ok?
    ensures Grounded(Readings(StartReading(deadline, timeout), logs).value, logs, deadline, timeout)
  {
    if logs != [] {
      var before, last := logs[..|logs| - 1], logs[|logs| - 1];
      ReadingsAreGrounded(before, deadline, timeout);
      var r := Readings(StartReading(deadline, timeout), before).value;
      assert logs == before + [last];
      if r.arbitration.outcome == PendingOutcome {
        GroundedNext(r, before, last, deadline, timeout);
      }
    }
  }

  // Whatever the logs are, an arbitration that is accepted is the one of the oracle's
  // state and deadline, a log triggers it, and it has a record, of the log with its
  // outcome, exactly when it is settled.
  lemma Accepted(logs: seq<Log>, state: State, deadline: nat, timeout: nat)
    requires ArbitrationOf(logs, state, deadline, timeout).Ok?
    ensures var a := ArbitrationOf(logs, state, deadline, timeout).value;
            && OutcomeState(a.outcome) == state
            && a.deadline == deadline == a.frozenBlock + timeout
            && Triggers(logs, deadline)
            && (a.record.Some? <==> a.outcome != PendingOutcome)
            && (a.record.Some? ==> Records(logs, a.outcome, a.record.value))
  {
    ReadingsAreGrounded(logs, deadline, timeout);
  }

  // ---- What the logs' data reads as ---------------------------------------------------

  lemma TriggeredReads(deadline: nat)
    requires deadline < UINT64
    ensures ReadUint64(Encode([UintValue(deadline)]), 0) == Some(deadline)
  {
    var values := [UintValue(deadline)];
    SmallRoundTrip(values);
    assert DecodesAt(Encode(values), 0, values[0]);
  }

  lemma ResolvedReads(state: State, slashed: nat, context: Bytes)
    requires slashed < UINT256 && |context| < MAX_TEXT
    ensures var data := Encode([UintValue(state), UintValue(slashed), BytesValue(context)]);
            && ReadUint64(data, 0) == Some(state) && ReadUint(data, 1) == Some(slashed)
            && ReadBytes(data, 2) == Some(context)
  {
    var values := [UintValue(state), UintValue(slashed), BytesValue(context)];
    SmallRoundTrip(values);
    assert DecodesAt(Encode(values), 0, values[0]) && DecodesAt(Encode(values), 1, values[1]);
    assert DecodesAt(Encode(values), 2, values[2]);
  }

  lemma OutOfScopeReads(context: Bytes)
    requires |context| < MAX_TEXT
    ensures ReadBytes(Encode([BytesValue(context)]), 0) == Some(context)
  {
    var values := [BytesValue(context)];
    SmallRoundTrip(values);
    assert DecodesAt(Encode(values), 0, values[0]);
  }

  // ---- The arbitration of a run ---------------------------------------------------------

  predicate IsFreeze(step: Step, id: Word) {
    step.Freeze? && step.id == id
  }

  predicate IsSettlement(step: Step, id: Word) {
    (step.Rule? || step.Decline? || step.TimeOut?) && step.id == id
  }

  predicate Arbitrates(step: Step, id: Word) {
    IsFreeze(step, id) || IsSettlement(step, id)
  }

  predicate NeverArbitrated(steps: seq<Step>, id: Word) {
    forall step :: step in steps ==> !Arbitrates(step, id)
  }

  predicate FrozenIn(steps: seq<Step>, id: Word, block: nat) {
    exists step :: step in steps && IsFreeze(step, id) && step.block == block
  }

  predicate Settled(steps: seq<Step>, id: Word) {
    exists step :: step in steps && IsSettlement(step, id)
  }

  // Whether an arbitration is what a settlement made of it.
  predicate ShowsSettlement(a: Arbitration, step: Step)
    requires step.Rule? || step.Decline? || step.TimeOut?
  {
    && a.record == Some(Record(step.block, step.txHash))
    && a.outcome == (if step.Rule? then (if step.secure then Secure else Insecure)
                     else if step.Decline? then OutOfScope else TimedOut)
    && a.slashed == (if step.Rule? then step.slashed else 0)
    && a.context == if step.TimeOut? then [] else step.context
  }

  // Whether an arbitration is the one of a request in a run: it is pending, from
  // the block that froze the request, until it is settled, and shows that then.
  predicate ShowsArbitration(a: Arbitration, steps: seq<Step>, id: Word, timeout: nat) {
    && FrozenIn(steps, id, a.frozenBlock) && a.deadline == a.frozenBlock + timeout
    && (a.outcome == PendingOutcome <==> !Settled(steps, id))
    && (a.outcome == PendingOutcome ==> a.slashed == 0 && a.context == [] && a.record.None?)
    && forall step :: step in steps && IsSettlement(step, id) ==> ShowsSettlement(a, step)
  }

  // What holds of a frozen request, and of the logs of its arbitration.
  predicate ArbitrationHolds(steps: seq<Step>, r: Request, of: seq<Log>, id: Word, timeout: nat, block: nat) {
    && timeout <= r.arbitrationDeadline
    && Readings(StartReading(r.arbitrationDeadline, timeout), of).Ok?
    && var reading := Readings(StartReading(r.arbitrationDeadline, timeout), of).value;
    && reading.frozen && OutcomeState(reading.arbitration.outcome) == r.state
    && reading.arbitration.deadline == r.arbitrationDeadline
    && ShowsArbitration(reading.arbitration, steps, id, timeout)
    && forall log :: log in of ==>
         && r.arbitrationDeadline - timeout <= log.block <= block
         && (r.state == STATE_FROZEN ==> log.block == r.arbitrationDeadline - timeout)
  }

  // What holds of each request after each run.
  predicate Holds(config: Config, steps: seq<Step>, m: Machine, id: Word) {
    var of := LogsOf(m.logs, ARBITRATION_EVENTS, id);
    if id in m.requests && m.requests[id].arbitrationDeadline != 0 then
      ArbitrationHolds(steps, m.requests[id], of, id, config.timeout, m.block)
    else
      of == [] && NeverArbitrated(steps, id) && (id in m.requests ==> m.requests[id].state != STATE_FROZEN)
  }

  lemma EmitsArbitration(config: Config, step: Step, id: Word)
    ensures |Emits(config, step)| <= 1
    ensures Arbitrates(step, id) <==> |Emits(config, step)| == 1 && IsOf(Emits(config, step)[0], ARBITRATION_EVENTS, id)
  {
  }

  // A step that doesn't freeze or settle the request changes nothing of it.
  lemma OtherStepKeeps(config: Config, steps: seq<Step>, m: Machine, step: Step, next: Machine, id: Word)
    requires Holds(config, steps, m, id) && StepsTo(config, m, step, next) && !Arbitrates(step, id)
    ensures Holds(config, steps + [step], next, id)
  {
    var of := LogsOf(m.logs, ARBITRATION_EVENTS, id);
    EmitsArbitration(config, step, id);
    LogsOfNext(m.logs, Emits(config, step), ARBITRATION_EVENTS, id);
    assert of + [] == of;
    if id in m.requests && m.requests[id].arbitrationDeadline != 0 {
      assert m.requests[id].state != STATE_PENDING;
      assert next.requests[id] == m.requests[id];
      OtherStepHolds(steps, m.requests[id], of, step, id, config.timeout, m.block, next.block);
    }
  }

  lemma OtherStepHolds(
    steps: seq<Step>, r: Request, of: seq<Log>, step: Step, id: Word, timeout: nat, block: nat, now: nat)
    requires ArbitrationHolds(steps, r, of, id, timeout, block) && !Arbitrates(step, id) && block <= now
    ensures ArbitrationHolds(steps + [step], r, of, id, timeout, now)
  {
    var a := Readings(StartReading(r.arbitrationDeadline, timeout), of).value.arbitration;
  }

  lemma FreezeHolds(config: Config, steps: seq<Step>, m: Machine, step: Step, next: Machine, id: Word)
    requires Holds(config, steps, m, id) && StepsTo(config, m, step, next) && IsFreeze(step, id)
    requires id in m.requests && m.requests[id].arbitrationDeadline == 0
    ensures Holds(config, steps + [step], next, id)
  {
    var deadline := step.block + config.timeout;
    EmitsArbitration(config, step, id);
    LogsOfNext(m.logs, Emits(config, step), ARBITRATION_EVENTS, id);
    var of := LogsOf(next.logs, ARBITRATION_EVENTS, id);
    assert of == Emits(config, step);
    TriggeredReads(deadline);
    FreezeShows(steps, step, id, config.timeout);
  }

  lemma FreezeShows(steps: seq<Step>, step: Step, id: Word, timeout: nat)
    requires NeverArbitrated(steps, id) && IsFreeze(step, id)
    ensures ShowsArbitration(
              Arbitration(step.block, step.block + timeout, PendingOutcome, 0, [], None), steps + [step], id, timeout)
  {
    assert step in steps + [step];
    assert forall s :: s in steps + [step] <==> s in steps || s == step;
  }

  function SettledBy(a: Arbitration, step: Step): Arbitration
    requires step.Rule? || step.Decline? || step.TimeOut?
  {
    var b := a.(record := Some(Record(step.block, step.txHash)));
    match step
    case Rule(_, _, _, secure, slashed, context) =>
      b.(outcome := if secure then Secure else Insecure, slashed := slashed, context := context)
    case Decline(_, _, _, context) => b.(outcome := OutOfScope, context := context)
    case TimeOut(_, _, _) => b.(outcome := TimedOut)
  }

  lemma {:induction false} RuleReads(r: Reading, log: Log, secure: bool, slashed: nat, context: Bytes)
    requires slashed < UINT256 && |context| < MAX_TEXT
    requires !log.removed && |log.topics| == 1 && log.event == DisputeResolved
    requires var state := if secure then STATE_APPROVED else STATE_DENIED;
             log.data == Encode([UintValue(state), UintValue(slashed), BytesValue(context)])
    ensures NextReading(r, log) == Ok(r.(arbitration := r.arbitration.(
                                           outcome := if secure then Secure else Insecure, slashed := slashed,
                                           context := context, record := Some(Record(log.block, log.txHash)))))
  {
    ResolvedReads(if secure then STATE_APPROVED else STATE_DENIED, slashed, context);
  }

  lemma {:induction false} SettlementReads(r: Reading, config: Config, q: Request, step: Step, id: Word)
    requires IsSettlement(step, id) && EnabledOn(q, step)
    ensures |Emits(config, step)| == 1
    ensures NextReading(r, Emits(config, step)[0]) == Ok(r.(arbitration := SettledBy(r.arbitration, step)))
    ensures OutcomeState(SettledBy(r.arbitration, step).outcome) == NextRequest(config, q, step).state
  {
    match step
    case Rule(_, _, _, secure, slashed, context) => RuleReads(r, Emits(config, step)[0], secure, slashed, context);
    case Decline(_, _, _, context) => OutOfScopeReads(context);
    case _ =>
  }

  lemma SettlementShows(a: Arbitration, steps: seq<Step>, step: Step, id: Word, timeout: nat)
    requires ShowsArbitration(a, steps, id, timeout) && a.outcome == PendingOutcome && IsSettlement(step, id)
    ensures ShowsArbitration(SettledBy(a, step), steps + [step], id, timeout)
  {
    var b := SettledBy(a, step);
    var freeze :| freeze in steps && IsFreeze(freeze, id) && freeze.block == a.frozenBlock;
    assert freeze in steps + [step] && step in steps + [step];
    forall s | s in steps + [step] && IsSettlement(s, id) ensures ShowsSettlement(b, s) {
      assert s in steps || s == step;
    }
  }

  lemma {:induction false} ReadingsGrow(start: Reading, of: seq<Log>, log: Log)
    requires Readings(start, of).Ok? && Readings(start, of).value.arbitration.outcome == PendingOutcome
    ensures Readings(start, of + [log]) == NextReading(Readings(start, of).value, log)
  {
    assert (of + [log])[..|of + [log]| - 1] == of;
  }

  lemma {:induction false} SettlementIsHeld(
    config: Config, steps: seq<Step>, q: Request, of: seq<Log>, step: Step, id: Word, block: nat)
    requires ArbitrationHolds(steps, q, of, id, config.timeout, block) && block <= step.block
    requires IsSettlement(step, id) && EnabledOn(q, step)
    ensures ArbitrationHolds(
              steps + [step], NextRequest(config, q, step), of + Emits(config, step), id, config.timeout, step.block)
  {
    var start := StartReading(q.arbitrationDeadline, config.timeout);
    var r := Readings(start, of).value;
    SettlementReads(r, config, q, step, id);
    assert Emits(config, step) == [Emits(config, step)[0]];
    ReadingsGrow(start, of, Emits(config, step)[0]);
    SettlementShows(r.arbitration, steps, step, id, config.timeout);
  }

  lemma {:induction false} SettlementHolds(
    config: Config, steps: seq<Step>, m: Machine, step: Step, next: Machine, id: Word)
    requires Holds(config, steps, m, id) && StepsTo(config, m, step, next) && IsSettlement(step, id)
    ensures Holds(config, steps + [step], next, id)
  {
    EmitsArbitration(config, step, id);
    LogsOfNext(m.logs, Emits(config, step), ARBITRATION_EVENTS, id);
    SettlementIsHeld(config, steps, m.requests[id], LogsOf(m.logs, ARBITRATION_EVENTS, id), step, id, m.block);
  }

  lemma {:induction false} HoldsOnEachRun(config: Config, steps: seq<Step>, id: Word)
    requires Run(config, steps).Some?
    ensures Holds(config, steps, Run(config, steps).value, id)
  {
    if steps != [] {
      var before, step := steps[..|steps| - 1], steps[|steps| - 1];
      assert steps == before + [step];
      HoldsOnEachRun(config, before, id);
      var m, next := Run(config, before).value, Run(config, steps).value;
      if IsFreeze(step, id) {
        FreezeHolds(config, before, m, step, next, id);
      } else if IsSettlement(step, id) {
        SettlementHolds(config, before, m, step, next, id);
      } else {
        OtherStepKeeps(config, before, m, step, next, id);
      }
    }
  }

  lemma {:induction false} LogsOfAre(logs: seq<Log>, events: set<Event>, id: Word)
    ensures forall log :: log in LogsOf(logs, events, id) <==> log in logs && IsOf(log, events, id)
  {
    if logs != [] {
      LogsOfAre(logs[..|logs| - 1], events, id);
    }
  }

  // The logs of the arbitration are in the blocks that are scanned.
  lemma {:induction false} HeldIsScanned(
    steps: seq<Step>, r: Request, logs: seq<Log>, id: Word, timeout: nat, block: nat, now: nat)
    requires ArbitrationHolds(steps, r, LogsOf(logs, ARBITRATION_EVENTS, id), id, timeout, block) && block <= now
    ensures Select(logs, r.arbitrationDeadline - timeout, ArbitrationTo(r.state, r.arbitrationDeadline, timeout, now),
                   ARBITRATION_EVENTS, Some(id))
         == LogsOf(logs, ARBITRATION_EVENTS, id)
  {
    LogsOfAre(logs, ARBITRATION_EVENTS, id);
    var to := ArbitrationTo(r.state, r.arbitrationDeadline, timeout, now);
    SelectsAll(logs, r.arbitrationDeadline - timeout, to, ARBITRATION_EVENTS, id);
  }

  // What the reader finds of a frozen request is the arbitration of the run.
  predicate FindsArbitration(config: Config, steps: seq<Step>, m: Machine, id: Word, now: nat)
    requires id in m.requests
  {
    var r := m.requests[id];
    var found := FindArbitration(m.logs, id, r.state, r.arbitrationDeadline, config.timeout, now);
    found.Ok? && ShowsArbitration(found.value, steps, id, config.timeout)
  }

  lemma {:induction false} HoldingIsFinding(config: Config, steps: seq<Step>, m: Machine, id: Word, now: nat)
    requires Holds(config, steps, m, id) && id in m.requests && m.requests[id].arbitrationDeadline != 0
    requires m.block <= now
    ensures FindsArbitration(config, steps, m, id, now)
  {
    HeldIsScanned(steps, m.requests[id], m.logs, id, config.timeout, m.block, now);
  }

  // On every run of the oracle, for every request that was frozen, and as of any
  // block from the run's last one on: scanning the blocks from the one that froze it
  // to that block, or only the one that froze it while it is frozen, gives the
  // arbitration of the run.
  lemma {:induction false} ArbitrationAgrees(config: Config, steps: seq<Step>, id: Word, now: nat)
    requires Run(config, steps).Some? && id in Run(config, steps).value.requests
    requires Run(config, steps).value.requests[id].arbitrationDeadline != 0
    requires Run(config, steps).value.block <= now
    ensures FindsArbitration(config, steps, Run(config, steps).value, id, now)
  {
    HoldsOnEachRun(config, steps, id);
    HoldingIsFinding(config, steps, Run(config, steps).value, id, now);
  }
}
