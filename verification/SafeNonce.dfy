// A Safe's executions as a step machine that emits logs, by the rules that
// internal/executions states: an execution uses the Safe's nonce and raises it by one;
// SafeL2 logs the transaction before executing it; and the Safe logs its hash when it
// is over. An execution may begin while another is still open, as the call that a Safe
// transaction makes can lead back to the Safe, but only in the same onchain
// transaction; the Safe logs that one first. The contract itself is not part of this
// model.
module SafeNonce {
  import opened Wrappers
  import opened EthTypes
  import opened SolAbi
  import opened Calls
  import opened SafeTxHash
  import opened Executions
  import opened ExecutionsTheorems

  // Where a step happens: the onchain transaction, and the index of the step's log.
  datatype Place = Place(block: nat, txHash: Word, logIndex: nat)

  // The beginning of an execution.
  datatype Start = Start(at: Place, tx: SafeTransaction, event: Option<MultiSig>)

  // What happens to a Safe. What is undone by a revert isn't part of a history. Safe
  // 1.3.0 doesn't index the hash that it logs.
  datatype Step = Begin(start: Start) | End(at: Place, success: bool, payment: nat, indexed: bool)

  datatype Config = Config(keccak: Hash, safe: Address, chainId: nat)

  // The Safe's nonce, its open executions, and where its last step was.
  datatype Safe = Safe(nonce: nat, open: seq<Start>, last: Place)

  const NEW_SAFE := Safe(0, [], Place(0, ZERO_WORD, 0))

  function PlaceOf(step: Step): Place {
    match step
    case Begin(start) => start.at
    case End(at, _, _, _) => at
  }

  predicate SameOnchain(p: Place, q: Place) {
    p.block == q.block && p.txHash == q.txHash
  }

  predicate IsExecutable(c: Config, tx: SafeTransaction) {
    InRange(tx) && tx.operation <= DELEGATE_CALL && tx.safe == c.safe && tx.chainId == c.chainId && |tx.data| < MAX_TEXT
  }

  predicate Enabled(c: Config, s: Safe, step: Step) {
    && s.last.block <= PlaceOf(step).block
    && (s.open != [] ==> SameOnchain(PlaceOf(step), s.last))
    && match step
       case Begin(start) =>
         && IsExecutable(c, start.tx) && start.tx.nonce == s.nonce
         && (start.event.Some? ==> IsLoggable(start.tx, start.event.value))
       case End(_, _, payment, _) => s.open != [] && payment < UINT256
  }

  function Next(c: Config, s: Safe, step: Step): Safe
    requires Enabled(c, s, step)
  {
    match step
    case Begin(start) => Safe(s.nonce + 1, s.open + [start], start.at)
    case End(at, _, _, _) => Safe(s.nonce, s.open[..|s.open| - 1], at)
  }

  predicate IsRun(c: Config, s: Safe, steps: seq<Step>)
    decreases steps
  {
    steps == [] || (Enabled(c, s, steps[0]) && IsRun(c, Next(c, s, steps[0]), steps[1..]))
  }

  function Run(c: Config, s: Safe, steps: seq<Step>): Safe
    requires IsRun(c, s, steps)
    decreases steps
  {
    if steps == [] then s else Run(c, Next(c, s, steps[0]), steps[1..])
  }

  // ---- What is logged ------------------------------------------------------------------

  function EndLog(c: Config, tx: SafeTransaction, at: Place, success: bool, payment: nat, indexed: bool): Log
    requires InRange(tx)
  {
    var hash, paid := SafeTransactionHash(c.keccak, tx), FromNat(payment, 32);
    var event := Some(if success then ExecutionSuccess else ExecutionFailure);
    if indexed then Log(at.block, at.txHash, at.logIndex, event, [hash], paid, false)
    else Log(at.block, at.txHash, at.logIndex, event, [], hash + paid, false)
  }

  function BeginLog(start: Start): Log
    requires InRange(start.tx) && start.event.Some?
  {
    Log(start.at.block, start.at.txHash, start.at.logIndex, Some(MultiSigTransaction), [],
        Encode(EventValues(start.tx, start.event.value)), false)
  }

  // The open executions are ones that the Safe could begin, in the onchain transaction
  // of its last step, with rising nonces below its own.
  predicate Valid(c: Config, s: Safe) {
    && (forall i :: 0 <= i < |s.open| ==> IsOpen(c, s, s.open[i]))
    && forall i, j :: 0 <= i < j < |s.open| ==> s.open[i].tx.nonce < s.open[j].tx.nonce
  }

  predicate IsOpen(c: Config, s: Safe, start: Start) {
    IsExecutable(c, start.tx) && start.tx.nonce < s.nonce && SameOnchain(start.at, s.last)
  }

  lemma NextIsValid(c: Config, s: Safe, step: Step)
    requires Valid(c, s) && Enabled(c, s, step)
    ensures Valid(c, Next(c, s, step))
  {
    var next := Next(c, s, step);
    forall i | 0 <= i < |next.open| ensures IsOpen(c, next, next.open[i]) {
      assert i < |s.open| ==> IsOpen(c, s, s.open[i]);
    }
    if step.Begin? {
      forall i, j | 0 <= i < j < |next.open| ensures next.open[i].tx.nonce < next.open[j].tx.nonce {
        assert IsOpen(c, s, s.open[i]);
      }
    }
  }

  // The start of the execution that a step ends.
  function Ended(s: Safe): Start
    requires s.open != []
  {
    s.open[|s.open| - 1]
  }

  function Emits(c: Config, s: Safe, step: Step): seq<Log>
    requires Valid(c, s) && Enabled(c, s, step)
  {
    match step
    case Begin(start) => if start.event.Some? then [BeginLog(start)] else []
    case End(at, success, payment, indexed) =>
      assert IsOpen(c, s, Ended(s));
      [EndLog(c, Ended(s).tx, at, success, payment, indexed)]
  }

  function Logs(c: Config, s: Safe, steps: seq<Step>): seq<Log>
    requires Valid(c, s) && IsRun(c, s, steps)
    decreases steps
  {
    if steps == [] then []
    else
      NextIsValid(c, s, steps[0]);
      Emits(c, s, steps[0]) + Logs(c, Next(c, s, steps[0]), steps[1..])
  }

  // The executions of a run, in the order of their logs.
  function Logged(c: Config, s: Safe, steps: seq<Step>): seq<Start>
    requires IsRun(c, s, steps)
    decreases steps
  {
    if steps == [] then []
    else
      var rest := Logged(c, Next(c, s, steps[0]), steps[1..]);
      if steps[0].End? then [Ended(s)] + rest else rest
  }

  // ---- Nonces ------------------------------------------------------------------------------

  // No execution begins while another is open.
  predicate NoNesting(c: Config, s: Safe, steps: seq<Step>)
    requires IsRun(c, s, steps)
    decreases steps
  {
    steps == [] || ((steps[0].Begin? ==> s.open == []) && NoNesting(c, Next(c, s, steps[0]), steps[1..]))
  }

  // Each nonce used since s is of an execution that was logged, or is still open.
  lemma {:induction false} NoncesAreCounted(c: Config, s: Safe, steps: seq<Step>)
    requires IsRun(c, s, steps)
    ensures var t := Run(c, s, steps); t.nonce + |s.open| == s.nonce + |t.open| + |Logged(c, s, steps)|
    decreases steps
  {
    if steps != [] {
      NoncesAreCounted(c, Next(c, s, steps[0]), steps[1..]);
    }
  }

  // The logs are in the order of the nonces, from the first one on.
  predicate Consecutive(logged: seq<Start>, first: int) {
    forall i :: 0 <= i < |logged| ==> logged[i].tx.nonce == first + i
  }

  // The open execution, if any, has the last nonce.
  predicate OneOpen(s: Safe) {
    |s.open| <= 1 && (s.open != [] ==> s.open[0].tx.nonce == s.nonce - 1)
  }

  lemma {:induction false} StaysInOrder(c: Config, s: Safe, steps: seq<Step>)
    requires IsRun(c, s, steps) && OneOpen(s) && NoNesting(c, s, steps)
    ensures Consecutive(Logged(c, s, steps), s.nonce - |s.open|)
    decreases steps
  {
    if steps != [] {
      StaysInOrder(c, Next(c, s, steps[0]), steps[1..]);
    }
  }

  // A later log has an earlier nonce.
  predicate Inverted(logged: seq<Start>) {
    exists i, j :: 0 <= i < j < |logged| && logged[i].tx.nonce > logged[j].tx.nonce
  }

  lemma InvertedRest(first: Start, rest: seq<Start>)
    requires Inverted(rest)
    ensures Inverted([first] + rest)
  {
    var i, j :| 0 <= i < j < |rest| && rest[i].tx.nonce > rest[j].tx.nonce;
    var all := [first] + rest;
    assert all[i + 1] == rest[i] && all[j + 1] == rest[j];
  }

  // An execution that is open is logged, if none is open in the end.
  lemma {:induction false} OpenIsLogged(c: Config, s: Safe, steps: seq<Step>, start: Start)
    requires IsRun(c, s, steps) && Run(c, s, steps).open == [] && start in s.open
    ensures start in Logged(c, s, steps)
    decreases steps
  {
    var next := Next(c, s, steps[0]);
    if steps[0].Begin? || start != Ended(s) {
      assert start in next.open by {
        var i :| 0 <= i < |s.open| && s.open[i] == start;
        assert next.open[i] == start;
      }
      OpenIsLogged(c, next, steps[1..], start);
    }
  }

  // Of two open executions, the later one is logged first.
  lemma {:induction false} NestedIsInverted(c: Config, s: Safe, steps: seq<Step>)
    requires Valid(c, s) && |s.open| >= 2 && IsRun(c, s, steps) && Run(c, s, steps).open == []
    ensures Inverted(Logged(c, s, steps))
    decreases steps
  {
    var next := Next(c, s, steps[0]);
    var rest := Logged(c, next, steps[1..]);
    NextIsValid(c, s, steps[0]);
    if |next.open| >= 2 {
      NestedIsInverted(c, next, steps[1..]);
      if steps[0].End? {
        InvertedRest(Ended(s), rest);
      }
    } else {
      OpenIsLogged(c, next, steps[1..], next.open[0]);
      var j :| 0 <= j < |rest| && rest[j] == next.open[0];
      var all := [Ended(s)] + rest;
      assert s.open[0].tx.nonce < s.open[1].tx.nonce;
      assert all[0].tx.nonce > all[j + 1].tx.nonce;
    }
  }

  lemma {:induction false} NestingInverts(c: Config, s: Safe, steps: seq<Step>)
    requires Valid(c, s) && IsRun(c, s, steps) && Run(c, s, steps).open == [] && !NoNesting(c, s, steps)
    ensures Inverted(Logged(c, s, steps))
    decreases steps
  {
    var next := Next(c, s, steps[0]);
    NextIsValid(c, s, steps[0]);
    if steps[0].Begin? && s.open != [] {
      NestedIsInverted(c, next, steps[1..]);
    } else {
      NestingInverts(c, next, steps[1..]);
      if steps[0].End? {
        InvertedRest(Ended(s), Logged(c, next, steps[1..]));
      }
    }
  }

  // After any state with no open execution, the logs of a run that leaves none open are
  // in the order of the nonces exactly when no execution began while another was open.
  lemma {:induction false} InOrderIffNoNesting(c: Config, s: Safe, steps: seq<Step>)
    requires Valid(c, s) && s.open == [] && IsRun(c, s, steps) && Run(c, s, steps).open == []
    ensures Consecutive(Logged(c, s, steps), s.nonce) <==> NoNesting(c, s, steps)
  {
    if NoNesting(c, s, steps) {
      StaysInOrder(c, s, steps);
    } else {
      NestingInverts(c, s, steps);
    }
  }

  // ---- How far a nonce is off ----------------------------------------------------------------

  // How many of some executions began before one with a nonce: with a lower nonce, as
  // each execution uses the next one when it begins.
  function Earlier(logged: seq<Start>, nonce: int): (n: nat)
    ensures n <= |logged|
  {
    if logged == [] then 0 else Earlier(logged[1..], nonce) + if logged[0].tx.nonce < nonce then 1 else 0
  }

  // And how many began after it.
  function Later(logged: seq<Start>, nonce: int): (n: nat)
    ensures n <= |logged|
  {
    if logged == [] then 0 else Later(logged[1..], nonce) + if logged[0].tx.nonce > nonce then 1 else 0
  }

  lemma {:induction false} EarlierConcat(a: seq<Start>, b: seq<Start>, nonce: int)
    ensures Earlier(a + b, nonce) == Earlier(a, nonce) + Earlier(b, nonce)
  {
    if a == [] {
      assert a + b == b;
    } else {
      assert (a + b)[1..] == a[1..] + b;
      EarlierConcat(a[1..], b, nonce);
    }
  }

  lemma {:induction false} EarlierOrLater(logged: seq<Start>, nonce: int)
    ensures Earlier(logged, nonce + 1) + Later(logged, nonce) == |logged|
    ensures Earlier(logged, nonce) <= Earlier(logged, nonce + 1)
  {
    if logged != [] {
      EarlierOrLater(logged[1..], nonce);
    }
  }

  // Each nonce from one on is used once, up to another.
  function Between(first: nat, end: nat, nonce: int): nat
    requires first <= end
  {
    if nonce <= first then 0 else (if nonce < end then nonce else end) - first
  }

  // Each execution that was open or began is logged or still open, once.
  lemma {:induction false} EarlierAreCounted(c: Config, s: Safe, steps: seq<Step>, nonce: int)
    requires IsRun(c, s, steps)
    ensures var t := Run(c, s, steps);
            && s.nonce <= t.nonce
            && Earlier(Logged(c, s, steps), nonce) + Earlier(t.open, nonce)
               == Earlier(s.open, nonce) + Between(s.nonce, t.nonce, nonce)
    decreases steps
  {
    if steps != [] {
      var next := Next(c, s, steps[0]);
      EarlierAreCounted(c, next, steps[1..], nonce);
      match steps[0]
      case Begin(start) => EarlierConcat(s.open, [start], nonce);
      case End(_, _, _, _) =>
        EarlierConcat(next.open, [Ended(s)], nonce);
        assert s.open == next.open + [Ended(s)];
    }
  }

  // What is logged was open before the run, or uses a nonce of the run.
  lemma {:induction false} LoggedAreInRun(c: Config, s: Safe, steps: seq<Step>, start: Start)
    requires Valid(c, s) && IsRun(c, s, steps) && start in Logged(c, s, steps)
    ensures start in s.open || s.nonce <= start.tx.nonce
    ensures start.tx.nonce < Run(c, s, steps).nonce
    decreases steps
  {
    var next := Next(c, s, steps[0]);
    NextIsValid(c, s, steps[0]);
    if steps[0].End? && start == Ended(s) {
      assert IsOpen(c, s, start);
      EarlierAreCounted(c, s, steps, 0);
    } else {
      LoggedAreInRun(c, next, steps[1..], start);
    }
  }

  // After any state with no open execution, in a run that leaves none open, the nonce of
  // each logged execution is the one that its place gives, less those that began after
  // it and were logged before it, and plus those that began before it and were logged
  // after it.
  lemma {:induction false} NonceByPlace(c: Config, s: Safe, steps: seq<Step>, i: nat)
    requires Valid(c, s) && s.open == [] && IsRun(c, s, steps) && Run(c, s, steps).open == []
    requires i < |Logged(c, s, steps)|
    ensures var logged := Logged(c, s, steps);
            var nonce := logged[i].tx.nonce;
            nonce == s.nonce + i - Later(logged[..i], nonce) + Earlier(logged[i + 1..], nonce)
  {
    var logged := Logged(c, s, steps);
    var nonce := logged[i].tx.nonce;
    LoggedAreInRun(c, s, steps, logged[i]);
    EarlierAreCounted(c, s, steps, nonce);
    EarlierAreCounted(c, s, steps, nonce + 1);
    CountsAround(logged, i, nonce);
    CountsAround(logged, i, nonce + 1);
    EarlierOrLater(logged[..i], nonce);
    EarlierOrLater(logged[i + 1..], nonce);
  }

  lemma {:induction false} CountsAround(logged: seq<Start>, i: nat, nonce: int)
    requires i < |logged|
    ensures Earlier(logged, nonce)
         == Earlier(logged[..i], nonce) + (if logged[i].tx.nonce < nonce then 1 else 0) + Earlier(logged[i + 1..], nonce)
  {
    assert logged == logged[..i] + logged[i..] && logged[i..][1..] == logged[i + 1..];
    EarlierConcat(logged[..i], logged[i..], nonce);
  }
}
