// The queries of internal/safenet/safenet.go, end to end: the chunked scan of a node
// that may refuse ranges, the readers of the logs it yields, and the oracle's runs.
module OracleQueries {
  import opened Wrappers
  import opened EthTypes
  import opened SafenetTypes
  import opened Rules
  import opened OracleLogs
  import opened Oracle
  import opened OracleVotes
  import opened OracleArbitration
  import opened OraclePending
  import ScanLogs

  type LogNode = ScanLogs.Node<Log>

  // Logs in the order of their blocks.
  predicate InBlockOrder(logs: seq<Log>) {
    forall i, j :: 0 <= i < j < |logs| ==> logs[i].block <= logs[j].block
  }

  // The logs that a filter selects of each block.
  function ChainOf(logs: seq<Log>, events: set<Event>, id: Option<Word>): ScanLogs.Chain<Log> {
    (block: nat) => Select(logs, block, block, events, id)
  }

  lemma {:induction false} SelectsNothing(logs: seq<Log>, from: nat, to: nat, events: set<Event>, id: Option<Word>)
    requires forall log :: log in logs ==> log.block < from || to < log.block
    ensures Select(logs, from, to, events, id) == []
  {
    if logs != [] {
      SelectsNothing(logs[..|logs| - 1], from, to, events, id);
    }
  }

  lemma {:induction false} SelectSplits(logs: seq<Log>, from: nat, to: nat, events: set<Event>, id: Option<Word>)
    requires InBlockOrder(logs) && from <= to
    ensures Select(logs, from, to, events, id)
         == Select(logs, from, from, events, id) + Select(logs, from + 1, to, events, id)
  {
    if logs != [] {
      var before, last := logs[..|logs| - 1], logs[|logs| - 1];
      SelectSplits(before, from, to, events, id);
      if last.block == from {
        SelectsNothing(before, from + 1, to, events, id);
        SelectsNothing(logs, from + 1, to, events, id);
      }
    }
  }

  // The answer to one big query of a range is what the filter selects of all logs.
  lemma {:induction false} QueryIsSelection(logs: seq<Log>, from: nat, to: nat, events: set<Event>, id: Option<Word>)
    requires InBlockOrder(logs)
    ensures ScanLogs.LogsIn(ChainOf(logs, events, id), from, to) == Select(logs, from, to, events, id)
    decreases if from <= to then to + 1 - from else 0
  {
    if from > to {
      SelectsNothing(logs, from, to, events, id);
    } else {
      SelectSplits(logs, from, to, events, id);
      QueryIsSelection(logs, from + 1, to, events, id);
    }
  }

  lemma {:induction false} RunsLogInOrder(config: Config, steps: seq<Step>)
    requires Run(config, steps).Some?
    ensures InBlockOrder(Run(config, steps).value.logs)
    ensures forall log :: log in Run(config, steps).value.logs ==> log.block <= Run(config, steps).value.block
  {
    if steps != [] {
      var before, step := steps[..|steps| - 1], steps[|steps| - 1];
      RunsLogInOrder(config, before);
      EmitsInBlock(config, step);
    }
  }

  lemma EmitsInBlock(config: Config, step: Step)
    ensures |Emits(config, step)| <= 1 && forall log :: log in Emits(config, step) ==> log.block == step.block
  {
  }

  // A node that, if it answers a query with a filter, answers it with the oracle's logs.
  ghost predicate Serves(node: LogNode, logs: seq<Log>, events: set<Event>, id: Option<Word>) {
    ScanLogs.Honest(node, ChainOf(logs, events, id))
  }

  // All the logs of a range of blocks, or an error.
  method Query(ghost logs: seq<Log>, node: LogNode, from: nat, to: nat, ghost events: set<Event>, ghost id: Option<Word>)
    returns (found: Result<seq<Log>>)
    requires InBlockOrder(logs) && Serves(node, logs, events, id)
    requires to + ScanLogs.MAX_LOG_RANGE <= UINT64
    ensures found.Ok? ==> found.value == Select(logs, from, to, events, id)
    ensures (forall k, a, b :: node(k, a, b).Logs?) ==> found.Ok?
  {
    ScanLogs.FarFromTop(from, to);
    var yielded, end, queries := ScanLogs.Scan(ChainOf(logs, events, id), node, from, to, _ => true);
    QueryIsSelection(logs, from, to, events, id);
    return if end.Done? then Ok(yielded) else Err;
  }

  // The votes on a request, as of a block: an error of the node, or those of the run.
  method QueryVotes(
    rt: RuleText, ghost config: Config, ghost steps: seq<Step>, node: LogNode, id: Word, r: Request, now: nat)
    returns (votes: Result<seq<Commitment>>)
    requires Run(config, steps).Some? && Run(config, steps).value.block <= now
    requires id in Run(config, steps).value.requests && r == Run(config, steps).value.requests[id]
    requires Serves(node, Run(config, steps).value.logs, VOTE_EVENTS, Some(id))
    requires now + ScanLogs.MAX_LOG_RANGE <= UINT64
    ensures votes.Ok? ==> Agrees(rt, votes.value, steps, id) && ProgressOf(votes.value) == r.progress
    ensures (forall k, a, b :: node(k, a, b).Logs?) ==> votes.Ok?
  {
    RunsLogInOrder(config, steps);
    VotesAgree(rt, config, steps, id, now);
    var to := if r.revealDeadline < now then r.revealDeadline else now;
    var logs := Query(Run(config, steps).value.logs, node, r.posted, to, VOTE_EVENTS, Some(id));
    if logs.Err? { return Err; }
    votes := RunVotes(rt, logs.value);
    if votes.Ok? {
      var ok := CheckProgress(r.progress, votes.value);
      if !ok { return Err; }
    }
  }

  // The arbitration that is found of all the logs, or an error of the node.
  method ScanArbitration(ghost logs: seq<Log>, node: LogNode, id: Word, r: Request, timeout: nat, now: nat)
    returns (arbitration: Result<Arbitration>)
    requires InBlockOrder(logs) && Serves(node, logs, ARBITRATION_EVENTS, Some(id))
    requires r.arbitrationDeadline <= now + timeout && now + ScanLogs.MAX_LOG_RANGE <= UINT64
    ensures var found := FindArbitration(logs, id, r.state, r.arbitrationDeadline, timeout, now);
            && (arbitration.Ok? ==> arbitration == found)
            && ((forall k, a, b :: node(k, a, b).Logs?) ==> arbitration == found)
  {
    if timeout > r.arbitrationDeadline { return Err; }
    var to := ArbitrationTo(r.state, r.arbitrationDeadline, timeout, now);
    var selected := Query(logs, node, r.arbitrationDeadline - timeout, to, ARBITRATION_EVENTS, Some(id));
    if selected.Err? { return Err; }
    arbitration := RunArbitration(selected.value, r.state, r.arbitrationDeadline, timeout);
  }

  // The arbitration of a frozen request, as of a block: an error of the node, or that
  // of the run.
  method QueryArbitration(
    ghost config: Config, ghost steps: seq<Step>, node: LogNode, id: Word, r: Request, timeout: nat, now: nat)
    returns (arbitration: Result<Arbitration>)
    requires Run(config, steps).Some? && Run(config, steps).value.block <= now && timeout == config.timeout
    requires id in Run(config, steps).value.requests && r == Run(config, steps).value.requests[id]
    requires r.arbitrationDeadline != 0
    requires Serves(node, Run(config, steps).value.logs, ARBITRATION_EVENTS, Some(id))
    requires now + ScanLogs.MAX_LOG_RANGE <= UINT64
    ensures arbitration.Ok? ==> ShowsArbitration(arbitration.value, steps, id, timeout)
    ensures (forall k, a, b :: node(k, a, b).Logs?) ==> arbitration.Ok?
  {
    RunsLogInOrder(config, steps);
    ArbitrationAgrees(config, steps, id, now);
    FrozenByNow(config, steps, id);
    arbitration := ScanArbitration(Run(config, steps).value.logs, node, id, r, timeout, now);
  }

  // A request was frozen by the last block of the run.
  lemma {:induction false} FrozenByNow(config: Config, steps: seq<Step>, id: Word)
    requires Run(config, steps).Some? && id in Run(config, steps).value.requests
    requires Run(config, steps).value.requests[id].arbitrationDeadline != 0
    ensures Run(config, steps).value.requests[id].arbitrationDeadline <= Run(config, steps).value.block + config.timeout
  {
    HoldsOnEachRun(config, steps, id);
    StepsAreInOrder(config, steps);
    var m := Run(config, steps).value;
    HeldBy(steps, m.requests[id], LogsOf(m.logs, ARBITRATION_EVENTS, id), id, config.timeout, m.block);
  }

  lemma {:induction false} HeldBy(steps: seq<Step>, r: Request, of: seq<Log>, id: Word, timeout: nat, block: nat)
    requires ArbitrationHolds(steps, r, of, id, timeout, block) && forall step :: step in steps ==> step.block <= block
    ensures r.arbitrationDeadline <= block + timeout
  {
    var a := Readings(StartReading(r.arbitrationDeadline, timeout), of).value.arbitration;
    var g :| g in steps && IsFreeze(g, id) && g.block == a.frozenBlock;
  }

  // The disputes that await a ruling, as of a block: an error of the node, or exactly
  // the ones that the oracle has.
  method QueryPending(ghost config: Config, ghost steps: seq<Step>, node: LogNode, timeout: nat, now: nat)
    returns (pending: Result<seq<Dispute>>)
    requires Run(config, steps).Some? && Run(config, steps).value.block <= now && timeout == config.timeout
    requires Serves(node, Run(config, steps).value.logs, ARBITRATION_EVENTS, None)
    requires now + ScanLogs.MAX_LOG_RANGE <= UINT64
    ensures pending.Ok? ==>
      && (forall d :: d in pending.value <==> AwaitsRuling(Run(config, steps).value, d, timeout, now))
      && OneEach(pending.value) && SortedByDeadline(pending.value)
    ensures (forall k, a, b :: node(k, a, b).Logs?) ==> pending.Ok?
  {
    RunsLogInOrder(config, steps);
    PendingAgrees(config, steps, now);
    var logs := Query(Run(config, steps).value.logs, node, PendingFrom(now, timeout), now, ARBITRATION_EVENTS, None);
    if logs.Err? { return Err; }
    pending := RunPending(logs.value);
  }
}
