// The rulings that are listed for the corpus: Rulings of internal/safenet/safenet.go,
// on every run of the oracle.
module OracleRulings {
  import opened Wrappers
  import opened EthTypes
  import opened SafenetTypes
  import opened OracleLogs
  import opened Oracle
  import opened OracleVotes
  import opened OracleArbitration
  import opened Rules

  const RULING_EVENTS := {DisputeResolved, DisputeOutOfScope}

  // The requests of the logs of rulings, in order.
  function RulingIds(logs: seq<Log>): Result<seq<Word>> {
    if logs == [] then Ok([])
    else
      match RulingIds(logs[..|logs| - 1])
      case Err => Err
      case Ok(ids) =>
        var log := logs[|logs| - 1];
        if log.removed then Ok(ids) else if |log.topics| != 1 then Err else Ok(ids + [log.topics[0]])
  }

  lemma {:induction false} RulingIdsErrSticks(logs: seq<Log>, n: nat)
    requires n <= |logs| && RulingIds(logs[..n]).Err?
    ensures RulingIds(logs).Err?
  {
    if n < |logs| {
      assert logs[..|logs| - 1][..n] == logs[..n];
      RulingIdsErrSticks(logs[..|logs| - 1], n);
    } else {
      assert logs[..n] == logs;
    }
  }

  method RunRulings(logs: seq<Log>) returns (result: Result<seq<Word>>)
    ensures result == RulingIds(logs)
  {
    var ids: seq<Word> := [];
    for i := 0 to |logs|
      invariant RulingIds(logs[..i]) == Ok(ids)
    {
      assert logs[..i + 1][..i] == logs[..i];
      if logs[i].removed { continue; }
      if |logs[i].topics| != 1 {
        RulingIdsErrSticks(logs, i + 1);
        return Err;
      }
      ids := ids + [logs[i].topics[0]];
    }
    assert logs[..|logs|] == logs;
    return Ok(ids);
  }

  // What reading each of the requests gives, or an error if one can't be read.
  function ReadAll<R>(read: Word -> Result<R>, ids: seq<Word>): Result<seq<R>> {
    if ids == [] then Ok([])
    else
      match ReadAll(read, ids[..|ids| - 1])
      case Err => Err
      case Ok(before) =>
        match read(ids[|ids| - 1])
        case Err => Err
        case Ok(r) => Ok(before + [r])
  }

  // The requests are what reading each of them gives, in the order of the rulings, if each
  // can be read.
  lemma {:induction false} ReadsEachInOrder<R>(read: Word -> Result<R>, ids: seq<Word>)
    ensures ReadAll(read, ids).Err? <==> exists i :: 0 <= i < |ids| && read(ids[i]).Err?
    ensures ReadAll(read, ids).Ok? ==>
      var requests := ReadAll(read, ids).value;
      |requests| == |ids| && forall i :: 0 <= i < |ids| ==> read(ids[i]) == Ok(requests[i])
  {
    if ids != [] {
      var n := |ids| - 1;
      ReadsEachInOrder(read, ids[..n]);
      assert forall i :: 0 <= i < n ==> ids[..n][i] == ids[i];
    }
  }

  lemma {:induction false} ReadAllErrSticks<R>(read: Word -> Result<R>, ids: seq<Word>, n: nat)
    requires n <= |ids| && ReadAll(read, ids[..n]).Err?
    ensures ReadAll(read, ids).Err?
  {
    if n < |ids| {
      assert ids[..|ids| - 1][..n] == ids[..n];
      ReadAllErrSticks(read, ids[..|ids| - 1], n);
    } else {
      assert ids[..n] == ids;
    }
  }

  // Rulings: the requests that the logs of a scan list, each read, or an error if the
  // range isn't over yet, the scan failed, or a request can't be read.
  method Rulings<R>(
    logs: Result<seq<Log>>, to: nat, latest: nat, read: Word -> Result<R>) returns (rulings: Result<seq<R>>)
    ensures rulings ==
      if to > latest || logs.Err? || RulingIds(logs.value).Err? then Err else ReadAll(read, RulingIds(logs.value).value)
  {
    if to > latest || logs.Err? { return Err; }
    var ids := RunRulings(logs.value);
    if ids.Err? { return Err; }
    var requests: seq<R> := [];
    for i := 0 to |ids.value|
      invariant ReadAll(read, ids.value[..i]) == Ok(requests)
    {
      assert ids.value[..i + 1][..i] == ids.value[..i];
      var r := read(ids.value[i]);
      if r.Err? {
        ReadAllErrSticks(read, ids.value, i + 1);
        return Err;
      }
      requests := requests + [r.value];
    }
    assert ids.value[..|ids.value|] == ids.value;
    return Ok(requests);
  }

  // ---- The rulings of a run ------------------------------------------------------------

  predicate IsRuling(step: Step, from: nat, to: nat) {
    (step.Rule? || step.Decline?) && from <= step.block <= to
  }

  // The requests that a run rules on, or marks out of scope, in some blocks, in order.
  function Ruled(steps: seq<Step>, from: nat, to: nat): seq<Word> {
    if steps == [] then []
    else
      var before, last := Ruled(steps[..|steps| - 1], from, to), steps[|steps| - 1];
      if IsRuling(last, from, to) then before + [last.id] else before
  }

  lemma EmitsRuling(config: Config, step: Step, from: nat, to: nat)
    ensures |Emits(config, step)| <= 1
    ensures IsRuling(step, from, to) <==>
      |Emits(config, step)| == 1 && InFilter(Emits(config, step)[0], from, to, RULING_EVENTS, None)
    ensures IsRuling(step, from, to) ==>
      !Emits(config, step)[0].removed && Emits(config, step)[0].topics == [step.id]
  {
  }

  lemma {:induction false} RulingIdsNext(logs: seq<Log>, emitted: seq<Log>, from: nat, to: nat)
    requires |emitted| <= 1
    ensures Select(logs + emitted, from, to, RULING_EVENTS, None)
         == Select(logs, from, to, RULING_EVENTS, None)
            + if |emitted| == 1 && InFilter(emitted[0], from, to, RULING_EVENTS, None) then emitted else []
  {
    if emitted == [] {
      assert logs + emitted == logs;
    } else {
      assert (logs + emitted)[..|logs + emitted| - 1] == logs;
    }
  }

  lemma {:induction false} StepIsListed(config: Config, logs: seq<Log>, step: Step, from: nat, to: nat)
    requires RulingIds(Select(logs, from, to, RULING_EVENTS, None)).Ok?
    ensures var ids := RulingIds(Select(logs, from, to, RULING_EVENTS, None)).value;
            RulingIds(Select(logs + Emits(config, step), from, to, RULING_EVENTS, None))
            == Ok(if IsRuling(step, from, to) then ids + [step.id] else ids)
  {
    var of, emitted := Select(logs, from, to, RULING_EVENTS, None), Emits(config, step);
    EmitsRuling(config, step, from, to);
    RulingIdsNext(logs, emitted, from, to);
    if IsRuling(step, from, to) {
      assert emitted == [emitted[0]];
    } else {
      assert of + [] == of;
    }
  }

  lemma {:induction false} RuledAreSettled(steps: seq<Step>, from: nat, to: nat, id: Word)
    requires id in Ruled(steps, from, to)
    ensures Settled(steps, id)
  {
    var before, last := steps[..|steps| - 1], steps[|steps| - 1];
    assert steps == before + [last];
    if id in Ruled(before, from, to) {
      RuledAreSettled(before, from, to, id);
      var step :| step in before && IsSettlement(step, id);
      assert step in steps;
    } else {
      assert last in steps && IsSettlement(last, id);
    }
  }

  // A settled request isn't frozen.
  lemma {:induction false} SettledIsNotFrozen(config: Config, steps: seq<Step>, id: Word)
    requires Run(config, steps).Some? && Settled(steps, id)
    ensures var m := Run(config, steps).value;
            id in m.requests && m.requests[id].state in {STATE_APPROVED, STATE_DENIED, STATE_TIMED_OUT}
  {
    HoldsOnEachRun(config, steps, id);
    var step :| step in steps && IsSettlement(step, id);
    assert Arbitrates(step, id);
  }

  // On every run of the oracle, the logs of some blocks list exactly the requests that
  // were ruled on or marked out of scope in them, in order, each once.
  lemma {:induction false} RulingsAgree(config: Config, steps: seq<Step>, from: nat, to: nat)
    requires Run(config, steps).Some?
    ensures RulingIds(Select(Run(config, steps).value.logs, from, to, RULING_EVENTS, None)) == Ok(Ruled(steps, from, to))
    ensures NoRepeats(Ruled(steps, from, to))
  {
    if steps != [] {
      var before, step := steps[..|steps| - 1], steps[|steps| - 1];
      RulingsAgree(config, before, from, to);
      var m := Run(config, before).value;
      StepIsListed(config, m.logs, step, from, to);
      if IsRuling(step, from, to) && step.id in Ruled(before, from, to) {
        RuledAreSettled(before, from, to, step.id);
        SettledIsNotFrozen(config, before, step.id);
      }
    }
  }

  // ---- Settled for good -------------------------------------------------------------------

  predicate IsSettled(m: Machine, id: Word) {
    id in m.requests && m.requests[id].state in {STATE_APPROVED, STATE_DENIED, STATE_TIMED_OUT}
  }

  // Two machines have the same record of a request, and the same logs of it.
  predicate SameRequest(m: Machine, n: Machine, id: Word) {
    && id in m.requests && id in n.requests && m.requests[id] == n.requests[id]
    && LogsOf(m.logs, VOTE_EVENTS, id) == LogsOf(n.logs, VOTE_EVENTS, id)
    && LogsOf(m.logs, ARBITRATION_EVENTS, id) == LogsOf(n.logs, ARBITRATION_EVENTS, id)
  }

  lemma SettledStep(config: Config, m: Machine, step: Step, id: Word)
    requires Enabled(config, m, step) && IsSettled(m, id)
    ensures SameRequest(m, Next(config, m, step), id) && IsSettled(Next(config, m, step), id)
  {
    EmitsVotes(config, step, id);
    EmitsArbitration(config, step, id);
    LogsOfNext(m.logs, Emits(config, step), VOTE_EVENTS, id);
    LogsOfNext(m.logs, Emits(config, step), ARBITRATION_EVENTS, id);
  }

  // Once a request is settled, the oracle's record of it and its logs never change.
  lemma {:induction false} SettledForGood(config: Config, steps: seq<Step>, more: seq<Step>, id: Word)
    requires Run(config, steps + more).Some? && Run(config, steps).Some? && IsSettled(Run(config, steps).value, id)
    ensures SameRequest(Run(config, steps).value, Run(config, steps + more).value, id)
    ensures IsSettled(Run(config, steps + more).value, id)
    decreases |more|
  {
    if more == [] {
      assert steps + more == steps;
    } else {
      var fewer, last := more[..|more| - 1], more[|more| - 1];
      assert (steps + more)[..|steps + more| - 1] == steps + fewer && (steps + more)[|steps + more| - 1] == last;
      SettledForGood(config, steps, fewer, id);
      SettledStep(config, Run(config, steps + fewer).value, last, id);
    }
  }

  // The oracle's parameters that a request is read with: the name of the Charter, and
  // the window that gives the proposal's block.
  datatype Parameters = Parameters(charter: string, commitWindow: nat)

  // How requests are read: the form of the texts in logs, and the parameters as of each
  // block. That the parameters stay as they are is not one of the oracle's rules.
  datatype RequestReader = RequestReader(rt: RuleText, parameters: nat -> Parameters)

  // What is read of a request as of a block: the oracle's record and parameters, the
  // votes, and the arbitration.
  datatype RequestRead = RequestRead(
    record: Oracle.Request, parameters: Parameters, votes: Result<seq<Commitment>>, arbitration: Result<Arbitration>)

  function ReadVotes(rt: RuleText, m: Machine, r: Oracle.Request, id: Word, now: nat): Result<seq<Commitment>> {
    var to := if r.revealDeadline < now then r.revealDeadline else now;
    Votes(rt, Select(m.logs, r.posted, to, VOTE_EVENTS, Some(id)))
  }

  function ReadRequest(reader: RequestReader, config: Config, m: Machine, id: Word, now: nat): RequestRead
    requires id in m.requests
  {
    var r := m.requests[id];
    RequestRead(r, reader.parameters(now), ReadVotes(reader.rt, m, r, id, now),
                FindArbitration(m.logs, id, r.state, r.arbitrationDeadline, config.timeout, now))
  }

  // As of any block from the run's last one on, the votes are those in all of the logs.
  lemma {:induction false} VotesAreOfAllLogs(rt: RuleText, config: Config, steps: seq<Step>, id: Word, now: nat)
    requires Run(config, steps).Some? && id in Run(config, steps).value.requests
    requires Run(config, steps).value.block <= now
    ensures var m := Run(config, steps).value;
            ReadVotes(rt, m, m.requests[id], id, now) == Votes(rt, LogsOf(m.logs, VOTE_EVENTS, id))
  {
    var m := Run(config, steps).value;
    var r := m.requests[id];
    var to := if r.revealDeadline < now then r.revealDeadline else now;
    VoteLogsAreInTime(config, steps, id);
    SelectsAll(m.logs, r.posted, to, VOTE_EVENTS, id);
  }

  // And so is the arbitration of a request that was frozen.
  lemma {:induction false} ArbitrationIsOfAllLogs(config: Config, steps: seq<Step>, m: Machine, id: Word, now: nat)
    requires Holds(config, steps, m, id) && id in m.requests && m.requests[id].arbitrationDeadline != 0
    requires m.block <= now
    ensures var r := m.requests[id];
            FindArbitration(m.logs, id, r.state, r.arbitrationDeadline, config.timeout, now)
            == ArbitrationOf(LogsOf(m.logs, ARBITRATION_EVENTS, id), r.state, r.arbitrationDeadline, config.timeout)
  {
    HeldIsScanned(steps, m.requests[id], m.logs, id, config.timeout, m.block, now);
  }

  lemma {:induction false} SameRecordReadsTheSame(
    reader: RequestReader, config: Config, steps: seq<Step>, others: seq<Step>, id: Word, now: nat, later: nat)
    requires Run(config, steps).Some? && Run(config, others).Some?
    requires SameRequest(Run(config, steps).value, Run(config, others).value, id)
    requires Run(config, steps).value.requests[id].arbitrationDeadline != 0
    requires Run(config, steps).value.block <= now && Run(config, others).value.block <= later
    ensures ReadRequest(reader, config, Run(config, steps).value, id, now)
         == ReadRequest(reader, config, Run(config, others).value, id, later).(parameters := reader.parameters(now))
  {
    VotesAreOfAllLogs(reader.rt, config, steps, id, now);
    VotesAreOfAllLogs(reader.rt, config, others, id, later);
    HoldsOnEachRun(config, steps, id);
    HoldsOnEachRun(config, others, id);
    ArbitrationIsOfAllLogs(config, steps, Run(config, steps).value, id, now);
    ArbitrationIsOfAllLogs(config, others, Run(config, others).value, id, later);
  }

  lemma {:induction false} RuledWasFrozen(config: Config, steps: seq<Step>, id: Word)
    requires Run(config, steps).Some? && Settled(steps, id)
    ensures IsSettled(Run(config, steps).value, id)
    ensures Run(config, steps).value.requests[id].arbitrationDeadline != 0
  {
    HoldsOnEachRun(config, steps, id);
    SettledIsNotFrozen(config, steps, id);
    var step :| step in steps && IsSettlement(step, id);
    assert Arbitrates(step, id);
  }

  // A ruling settles a request for good: whatever happens after it, and as of whatever
  // later block it is read, the record, the votes and the arbitration are the same. But
  // the request is the same exactly when the oracle's parameters are, which are read as
  // of that block too.
  lemma {:induction false} RulingReadsTheSame(
    reader: RequestReader, config: Config, steps: seq<Step>, more: seq<Step>, id: Word, now: nat, later: nat)
    requires Run(config, steps).Some? && Run(config, steps + more).Some? && Settled(steps, id)
    requires Run(config, steps).value.block <= now && Run(config, steps + more).value.block <= later
    ensures IsSettled(Run(config, steps).value, id) && IsSettled(Run(config, steps + more).value, id)
    ensures var before := ReadRequest(reader, config, Run(config, steps).value, id, now);
            var after := ReadRequest(reader, config, Run(config, steps + more).value, id, later);
            && before == after.(parameters := reader.parameters(now))
            && (before == after <==> reader.parameters(now) == reader.parameters(later))
  {
    RuledWasFrozen(config, steps, id);
    SettledForGood(config, steps, more, id);
    SameRecordReadsTheSame(reader, config, steps, steps + more, id, now, later);
  }

  // What happens after some blocks doesn't change which requests were ruled on in them.
  lemma {:induction false} RuledStays(steps: seq<Step>, more: seq<Step>, from: nat, to: nat)
    requires forall step :: step in more ==> to < step.block
    ensures Ruled(steps + more, from, to) == Ruled(steps, from, to)
    decreases |more|
  {
    if more == [] {
      assert steps + more == steps;
    } else {
      var fewer, last := more[..|more| - 1], more[|more| - 1];
      assert (steps + more)[..|steps + more| - 1] == steps + fewer && (steps + more)[|steps + more| - 1] == last;
      RuledStays(steps, fewer, from, to);
    }
  }
}
