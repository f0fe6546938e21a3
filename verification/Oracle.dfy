// The SentinelOracle as a step machine that emits logs, by the rules that the
// comments of internal/safenet state: a sentinel commits a vote once, and reveals it
// once after that, each by its deadline; a request is frozen once, until a deadline
// that is a fixed number of blocks later; and it is settled once, by a ruling, an
// out-of-scope decision or a timeout. The contract itself is not part of this model.
module Oracle {
  import opened Wrappers
  import opened EthTypes
  import opened SolAbi
  import opened SafenetTypes
  import opened OracleLogs

  datatype Config = Config(timeout: nat, commitWindow: nat, revealWindow: nat)

  datatype Step =
    | Post(block: nat, id: Word)
    | Commit(block: nat, id: Word, txHash: Word, sentinel: Address, bond: nat)
    | Reveal(block: nat, id: Word, txHash: Word, sentinel: Address, approve: bool, amount: nat, reason: Bytes)
    | Decide(block: nat, id: Word, state: State)
    | Freeze(block: nat, id: Word, txHash: Word)
    | Rule(block: nat, id: Word, txHash: Word, secure: bool, slashed: nat, context: Bytes)
    | Decline(block: nat, id: Word, txHash: Word, context: Bytes)
    | TimeOut(block: nat, id: Word, txHash: Word)

  // The oracle's record of a request.
  datatype Request = Request(
    state: State, posted: nat, commitDeadline: nat, revealDeadline: nat, votes: map<Address, Vote>,
    progress: Progress, arbitrationDeadline: nat)

  // The oracle as of a block, and the logs that it has emitted.
  datatype Machine = Machine(block: nat, requests: map<Word, Request>, logs: seq<Log>)

  const START := Machine(0, map[], [])

  predicate Enabled(config: Config, m: Machine, step: Step) {
    && m.block <= step.block && 0 < step.block + config.timeout < UINT64
    && (if step.Post? then step.id !in m.requests
        else step.id in m.requests && EnabledOn(m.requests[step.id], step))
  }

  predicate EnabledOn(r: Request, step: Step)
    requires !step.Post?
  {
    match step
    case Commit(block, _, _, sentinel, bond) =>
      r.state == STATE_PENDING && block <= r.commitDeadline && sentinel !in r.votes && bond < UINT256
    case Reveal(block, _, _, sentinel, _, amount, reason) =>
      && r.state == STATE_PENDING && block <= r.revealDeadline && amount < UINT256 && |reason| < MAX_TEXT
      && sentinel in r.votes && r.votes[sentinel] == Pending
    case Decide(_, _, state) =>
      r.state == STATE_PENDING && state in {STATE_APPROVED, STATE_DENIED, STATE_TIMED_OUT}
    case Freeze(_, _, _) => r.state == STATE_PENDING
    case Rule(_, _, _, _, slashed, context) => r.state == STATE_FROZEN && slashed < UINT256 && |context| < MAX_TEXT
    case Decline(_, _, _, context) => r.state == STATE_FROZEN && |context| < MAX_TEXT
    case TimeOut(block, _, _) => r.state == STATE_FROZEN && block > r.arbitrationDeadline
  }

  function Revealed(p: Progress, approve: bool): Progress {
    p.(revealed := p.revealed + 1, approvals := p.approvals + if approve then 1 else 0,
       denials := p.denials + if approve then 0 else 1)
  }

  function NextRequest(config: Config, r: Request, step: Step): Request
    requires !step.Post?
  {
    match step
    case Commit(_, _, _, sentinel, _) =>
      r.(votes := r.votes[sentinel := Pending], progress := r.progress.(committed := r.progress.committed + 1))
    case Reveal(_, _, _, sentinel, approve, _, _) =>
      r.(votes := r.votes[sentinel := if approve then Approved else Denied], progress := Revealed(r.progress, approve))
    case Decide(_, _, state) => r.(state := state)
    case Freeze(block, _, _) => r.(state := STATE_FROZEN, arbitrationDeadline := block + config.timeout)
    case Rule(_, _, _, secure, _, _) => r.(state := if secure then STATE_APPROVED else STATE_DENIED)
    case Decline(_, _, _, _) => r.(state := STATE_TIMED_OUT)
    case TimeOut(_, _, _) => r.(state := STATE_TIMED_OUT)
  }

  function Posted(config: Config, block: nat): Request {
    Request(STATE_PENDING, block, block + config.commitWindow, block + config.commitWindow + config.revealWindow, map[],
            Progress(0, 0, 0, 0), 0)
  }

  function SentinelTopic(sentinel: Address): Word {
    Zeros(12) + sentinel
  }

  // The log that a step emits, if any.
  function Emits(config: Config, step: Step): seq<Log> {
    match step
    case Post(_, _) => []
    case Commit(block, id, txHash, sentinel, bond) =>
      [Log(block, txHash, Committed, [id, SentinelTopic(sentinel)], Encode([UintValue(bond)]), false)]
    case Reveal(block, id, txHash, sentinel, approve, amount, reason) =>
      [Log(block, txHash, OracleLogs.Revealed, [id, SentinelTopic(sentinel)],
           Encode([BoolValue(approve), UintValue(amount), BytesValue(reason)]), false)]
    case Decide(_, _, _) => []
    case Freeze(block, id, txHash) =>
      [Log(block, txHash, DisputeTriggered, [id], Encode([UintValue(block + config.timeout)]), false)]
    case Rule(block, id, txHash, secure, slashed, context) =>
      var state := if secure then STATE_APPROVED else STATE_DENIED;
      [Log(block, txHash, DisputeResolved, [id], Encode([UintValue(state), UintValue(slashed), BytesValue(context)]), false)]
    case Decline(block, id, txHash, context) =>
      [Log(block, txHash, DisputeOutOfScope, [id], Encode([BytesValue(context)]), false)]
    case TimeOut(block, id, txHash) => [Log(block, txHash, ArbitrationTimedOut, [id], [], false)]
  }

  function Next(config: Config, m: Machine, step: Step): Machine
    requires Enabled(config, m, step)
  {
    var r := if step.Post? then Posted(config, step.block) else NextRequest(config, m.requests[step.id], step);
    Machine(step.block, m.requests[step.id := r], m.logs + Emits(config, step))
  }

  // The machine after a run of steps, or None if a step isn't enabled.
  function Run(config: Config, steps: seq<Step>): Option<Machine> {
    if steps == [] then Some(START)
    else
      match Run(config, steps[..|steps| - 1])
      case None => None
      case Some(m) => if Enabled(config, m, steps[|steps| - 1]) then Some(Next(config, m, steps[|steps| - 1])) else None
  }
}
