// What a search of a range of blocks finds of the executions of a Safe, on every run of
// it: the logs that the Safe emits, the executions and events that are read from them,
// the nonces that are worked out, and what is reported.
module SafeSearch {
  import opened Wrappers
  import opened EthTypes
  import opened SolAbi
  import opened SolAbiTheorems
  import opened Calls
  import opened SafeTxHash
  import opened Executions
  import opened ExecutionsTheorems
  import opened SafeNonce
  import ScanLogs

  // ---- The executions in the logs -----------------------------------------------------

  // The log of an end of an execution, as it is listed.
  function ListedAs(c: Config, start: Start, end: Step): Execution
    requires InRange(start.tx) && end.End?
  {
    Execution(end.at.block, end.at.txHash, end.at.logIndex, SafeTransactionHash(c.keccak, start.tx), end.success, end.payment)
  }

  // The executions of a run, as they are listed.
  function Listed(c: Config, s: Safe, steps: seq<Step>): seq<Execution>
    requires Valid(c, s) && IsRun(c, s, steps)
    decreases steps
  {
    if steps == [] then []
    else
      NextIsValid(c, s, steps[0]);
      var rest := Listed(c, Next(c, s, steps[0]), steps[1..]);
      if steps[0].End? then
        assert IsOpen(c, s, Ended(s));
        [ListedAs(c, Ended(s), steps[0])] + rest
      else rest
  }

  lemma {:induction false} ExecutionsInConcat(a: seq<Log>, b: seq<Log>)
    ensures ExecutionsIn(a + b) == ExecutionsIn(a) + ExecutionsIn(b)
  {
    if b == [] {
      assert a + b == a;
    } else {
      assert (a + b)[..|a + b| - 1] == a + b[..|b| - 1];
      ExecutionsInConcat(a, b[..|b| - 1]);
    }
  }

  lemma EndIsListed(c: Config, start: Start, end: Step)
    requires InRange(start.tx) && end.End? && end.payment < UINT256
    ensures DecodeExecution(EndLog(c, start.tx, end.at, end.success, end.payment, end.indexed))
         == Some(ListedAs(c, start, end))
  {
    var hash, paid := SafeTransactionHash(c.keccak, start.tx), FromNat(end.payment, 32);
    var data: Bytes := hash + paid;
    NumberWord(end.payment);
    assert data[..32] == hash && data[32..] == paid;
  }

  lemma OneExecution(log: Log)
    ensures ExecutionsIn([log]) == if || log.removed || log.event.None? || log.event == Some(MultiSigTransaction)
                                      || DecodeExecution(log).None? then []
                                   else [DecodeExecution(log).value]
  {
    assert [log][..0] == [];
  }

  // The executions listed of the logs of a run are those of the run.
  lemma {:induction false} LogsListExecutions(c: Config, s: Safe, steps: seq<Step>)
    requires Valid(c, s) && IsRun(c, s, steps)
    ensures ExecutionsIn(Logs(c, s, steps)) == Listed(c, s, steps)
    decreases steps
  {
    if steps != [] {
      NextIsValid(c, s, steps[0]);
      LogsListExecutions(c, Next(c, s, steps[0]), steps[1..]);
      ExecutionsInConcat(Emits(c, s, steps[0]), Logs(c, Next(c, s, steps[0]), steps[1..]));
      StepIsListed(c, s, steps[0]);
    }
  }

  lemma StepIsListed(c: Config, s: Safe, step: Step)
    requires Valid(c, s) && Enabled(c, s, step)
    ensures ExecutionsIn(Emits(c, s, step))
         == if step.End? then [ListedAs(c, Ended(s), step)] else []
  {
    match step
    case Begin(start) =>
      if start.event.Some? {
        OneExecution(BeginLog(start));
      }
    case End(at, success, payment, indexed) =>
      assert IsOpen(c, s, Ended(s));
      EndIsListed(c, Ended(s), step);
      OneExecution(EndLog(c, Ended(s).tx, at, success, payment, indexed));
  }

  // An execution is listed with its transaction's hash, in its onchain transaction.
  predicate IsListing(c: Config, e: Execution, start: Start) {
    && IsExecutable(c, start.tx) && e.safeTxHash == SafeTransactionHash(c.keccak, start.tx)
    && e.block == start.at.block && e.txHash == start.at.txHash
  }

  lemma {:induction false} ListingsMatch(c: Config, s: Safe, steps: seq<Step>)
    requires Valid(c, s) && IsRun(c, s, steps)
    ensures |Listed(c, s, steps)| == |Logged(c, s, steps)|
    ensures forall i :: 0 <= i < |Logged(c, s, steps)| ==> IsListing(c, Listed(c, s, steps)[i], Logged(c, s, steps)[i])
    decreases steps
  {
    if steps != [] {
      NextIsValid(c, s, steps[0]);
      ListingsMatch(c, Next(c, s, steps[0]), steps[1..]);
      if steps[0].End? {
        assert IsOpen(c, s, Ended(s));
        assert IsListing(c, ListedAs(c, Ended(s), steps[0]), Ended(s));
      }
    }
  }

  // ---- The events in the logs ------------------------------------------------------------

  lemma {:induction false} EventsStay(logs: seq<Log>, safe: Address, chainId: nat, n: nat, txHash: Word, c: Candidate)
    requires n <= |logs| && c in EventsOf(EventsIn(logs[..n], safe, chainId), txHash)
    ensures c in EventsOf(EventsIn(logs, safe, chainId), txHash)
  {
    if n < |logs| {
      assert logs[..|logs| - 1][..n] == logs[..n];
      EventsStay(logs[..|logs| - 1], safe, chainId, n, txHash, c);
    } else {
      assert logs[..n] == logs;
    }
  }

  lemma {:induction false} EventIsIn(logs: seq<Log>, safe: Address, chainId: nat, log: Log, c: Candidate)
    requires log in logs && !log.removed && log.event == Some(MultiSigTransaction)
    requires EventCandidate(safe, chainId, log.data) == Some(c)
    ensures c in EventsOf(EventsIn(logs, safe, chainId), log.txHash)
  {
    var i :| 0 <= i < |logs| && logs[i] == log;
    assert logs[..i + 1][..i] == logs[..i];
    EventsStay(logs, safe, chainId, i + 1, log.txHash, c);
  }

  // The execution that begins is open, or logged, later; with its event in the logs.
  lemma {:induction false} StartIsLogged(c: Config, s: Safe, steps: seq<Step>, start: Start)
    requires Valid(c, s) && IsRun(c, s, steps) && Begin(start) in steps && start.event.Some?
    ensures IsLoggable(start.tx, start.event.value) && BeginLog(start) in Logs(c, s, steps)
    decreases steps
  {
    NextIsValid(c, s, steps[0]);
    if steps[0] != Begin(start) {
      StartIsLogged(c, Next(c, s, steps[0]), steps[1..], start);
    }
  }

  // Each execution that is logged began in the run, or was open before it.
  lemma {:induction false} LoggedBegan(c: Config, s: Safe, steps: seq<Step>, start: Start)
    requires IsRun(c, s, steps) && start in Logged(c, s, steps)
    ensures start in s.open || Begin(start) in steps
    decreases steps
  {
    var next := Next(c, s, steps[0]);
    if !(steps[0].End? && start == Ended(s)) {
      LoggedBegan(c, next, steps[1..], start);
      assert forall step :: step in steps[1..] ==> step in steps;
    }
  }

  // ---- The blocks that are searched --------------------------------------------------------

  // The logs of the blocks from from to to.
  function InBlocks(logs: seq<Log>, from: nat, to: nat): seq<Log> {
    if logs == [] then []
    else
      var rest := InBlocks(logs[1..], from, to);
      if from <= logs[0].block <= to then [logs[0]] + rest else rest
  }

  // What the search sees: no execution begins in the blocks from from on while another
  // is open.
  predicate NoNestingSince(c: Config, s: Safe, steps: seq<Step>, from: nat)
    requires IsRun(c, s, steps)
    decreases steps
  {
    steps == []
    || (&& (steps[0].Begin? && from <= PlaceOf(steps[0]).block ==> s.open == [])
        && NoNestingSince(c, Next(c, s, steps[0]), steps[1..], from))
  }

  // The executions of a run that are logged in the blocks from from on.
  function LoggedSince(c: Config, s: Safe, steps: seq<Step>, from: nat): seq<Start>
    requires IsRun(c, s, steps)
    decreases steps
  {
    if steps == [] then []
    else
      var rest := LoggedSince(c, Next(c, s, steps[0]), steps[1..], from);
      if steps[0].End? && from <= PlaceOf(steps[0]).block then [Ended(s)] + rest else rest
  }

  lemma {:induction false} InBlocksConcat(a: seq<Log>, b: seq<Log>, from: nat, to: nat)
    ensures InBlocks(a + b, from, to) == InBlocks(a, from, to) + InBlocks(b, from, to)
  {
    if a == [] {
      assert a + b == b;
    } else {
      assert (a + b)[1..] == a[1..] + b;
      InBlocksConcat(a[1..], b, from, to);
    }
  }

  lemma {:induction false} OneInBlocks(logs: seq<Log>, block: nat, from: nat, to: nat)
    requires |logs| <= 1 && forall log :: log in logs ==> log.block == block
    ensures InBlocks(logs, from, to) == if from <= block <= to then logs else []
  {
    if logs != [] {
      assert logs[1..] == [];
    }
  }

  lemma EmitsThere(c: Config, s: Safe, step: Step)
    requires Valid(c, s) && Enabled(c, s, step)
    ensures |Emits(c, s, step)| <= 1 && forall log :: log in Emits(c, s, step) ==> log.block == PlaceOf(step).block
  {
  }

  lemma {:induction false} LastIsLater(c: Config, s: Safe, steps: seq<Step>)
    requires IsRun(c, s, steps)
    ensures s.last.block <= Run(c, s, steps).last.block
    decreases steps
  {
    if steps != [] {
      LastIsLater(c, Next(c, s, steps[0]), steps[1..]);
    }
  }

  // Nothing of a run is before the blocks that are searched, or after them.
  lemma {:induction false} AllIsSearched(c: Config, s: Safe, steps: seq<Step>, from: nat, to: nat)
    requires Valid(c, s) && IsRun(c, s, steps) && Run(c, s, steps).last.block <= to
    requires steps == [] || from <= PlaceOf(steps[0]).block
    ensures InBlocks(Logs(c, s, steps), from, to) == Logs(c, s, steps)
    ensures LoggedSince(c, s, steps, from) == Logged(c, s, steps)
    ensures NoNestingSince(c, s, steps, from) <==> NoNesting(c, s, steps)
    decreases steps
  {
    if steps != [] {
      var next, rest := Next(c, s, steps[0]), steps[1..];
      NextIsValid(c, s, steps[0]);
      LastIsLater(c, next, rest);
      AllIsSearched(c, next, rest, from, to);
      EmitsThere(c, s, steps[0]);
      OneInBlocks(Emits(c, s, steps[0]), PlaceOf(steps[0]).block, from, to);
      InBlocksConcat(Emits(c, s, steps[0]), Logs(c, next, rest), from, to);
    }
  }

  // The searched blocks have a run of their own, from a state with no open execution, as
  // an execution is over when its onchain transaction is: what is searched of the whole
  // run is that run.
  ghost predicate IsSearched(c: Config, s: Safe, steps: seq<Step>, from: nat, to: nat, t: Safe, window: seq<Step>)
    requires Valid(c, s) && IsRun(c, s, steps)
  {
    && Valid(c, t) && t.open == [] && IsRun(c, t, window) && Run(c, t, window) == Run(c, s, steps)
    && InBlocks(Logs(c, s, steps), from, to) == Logs(c, t, window)
    && LoggedSince(c, s, steps, from) == Logged(c, t, window)
    && (NoNestingSince(c, s, steps, from) <==> NoNesting(c, t, window))
    && forall step :: step in window <==> step in steps && from <= PlaceOf(step).block
  }

  lemma {:induction false} BlocksRise(c: Config, s: Safe, steps: seq<Step>, step: Step)
    requires IsRun(c, s, steps) && step in steps
    ensures PlaceOf(steps[0]).block <= PlaceOf(step).block
    decreases steps
  {
    if step != steps[0] {
      BlocksRise(c, Next(c, s, steps[0]), steps[1..], step);
    }
  }

  lemma {:induction false} SearchIsRun(c: Config, s: Safe, steps: seq<Step>, from: nat, to: nat)
    returns (t: Safe, window: seq<Step>)
    requires Valid(c, s) && IsRun(c, s, steps) && Run(c, s, steps).open == [] && Run(c, s, steps).last.block <= to
    requires s.open == [] || s.last.block < from
    ensures IsSearched(c, s, steps, from, to, t, window)
    decreases steps
  {
    if steps == [] || from <= PlaceOf(steps[0]).block {
      t, window := s, steps;
      AllIsSearched(c, s, steps, from, to);
      forall step | step in steps ensures from <= PlaceOf(step).block {
        BlocksRise(c, s, steps, step);
      }
    } else {
      var next, rest := Next(c, s, steps[0]), steps[1..];
      NextIsValid(c, s, steps[0]);
      t, window := SearchIsRun(c, next, rest, from, to);
      EmitsThere(c, s, steps[0]);
      OneInBlocks(Emits(c, s, steps[0]), PlaceOf(steps[0]).block, from, to);
      InBlocksConcat(Emits(c, s, steps[0]), Logs(c, next, rest), from, to);
    }
  }

  // ---- What a search finds -------------------------------------------------------------------

  // A run of the Safe up to a block, that leaves no execution open.
  predicate IsHistory(c: Config, steps: seq<Step>, to: nat) {
    && IsRun(c, NEW_SAFE, steps) && Run(c, NEW_SAFE, steps).open == []
    && Run(c, NEW_SAFE, steps).last.block <= to
  }

  function Searched(c: Config, steps: seq<Step>, from: nat, to: nat): seq<Log>
    requires IsHistory(c, steps, to)
  {
    InBlocks(Logs(c, NEW_SAFE, steps), from, to)
  }

  // The executions that the Safe logged in the blocks from from on.
  function Used(c: Config, steps: seq<Step>, from: nat): seq<Start>
    requires IsRun(c, NEW_SAFE, steps)
  {
    LoggedSince(c, NEW_SAFE, steps, from)
  }

  // The search lists exactly the executions that the Safe logged in the blocks, in order,
  // each with the hash of its transaction.
  lemma SearchListsExecutions(c: Config, steps: seq<Step>, from: nat, to: nat)
    requires IsHistory(c, steps, to)
    ensures var executions, used := ExecutionsIn(Searched(c, steps, from, to)), Used(c, steps, from);
            && |executions| == |used|
            && forall i :: 0 <= i < |used| ==> IsListing(c, executions[i], used[i])
  {
    var t, window := SearchIsRun(c, NEW_SAFE, steps, from, to);
    LogsListExecutions(c, t, window);
    ListingsMatch(c, t, window);
  }

  // A world whose node answers the read of the nonce as of the last block truthfully.
  ghost predicate KnowsNonce(w: World, c: Config, steps: seq<Step>)
    requires IsRun(c, NEW_SAFE, steps)
  {
    && w.keccak == c.keccak && w.chainId == c.chainId
    && Run(c, NEW_SAFE, steps).nonce < UINT256
    && w.nonceResult == Some(Encode([UintValue(Run(c, NEW_SAFE, steps).nonce)]))
  }

  lemma NonceReads(w: World, nonce: nat)
    requires nonce < UINT256 && w.nonceResult == Some(Encode([UintValue(nonce)]))
    ensures NonceNext(w) == Some(nonce)
  {
    var values := [UintValue(nonce)];
    SmallRoundTrip(values);
    assert DecodesAt(Encode(values), 0, values[0]);
  }

  // The nonce worked out for each of the listed executions is the one that it used.
  predicate NoncesAreRight(w: World, used: seq<Start>) {
    forall i :: 0 <= i < |used| ==> NonceOf(w, |used|, i) == Some(used[i].tx.nonce)
  }

  lemma NoncesAreConsecutive(w: World, used: seq<Start>, first: nat)
    requires NonceNext(w) == Some(first + |used|)
    ensures NoncesAreRight(w, used) <==> Consecutive(used, first)
  {
    forall i | 0 <= i < |used| ensures NonceOf(w, |used|, i) == Some(first + i) {
    }
  }

  // The nonces worked out for the executions of a search are the ones that they used
  // exactly when, in the blocks that are searched, none began while another was open;
  // whatever happened before those blocks.
  lemma {:induction false} NoncesRightIffNoNesting(w: World, c: Config, steps: seq<Step>, from: nat, to: nat)
    requires IsHistory(c, steps, to) && KnowsNonce(w, c, steps)
    ensures NoncesAreRight(w, Used(c, steps, from)) <==> NoNestingSince(c, NEW_SAFE, steps, from)
  {
    var t, window := SearchIsRun(c, NEW_SAFE, steps, from, to);
    NonceReads(w, Run(c, t, window).nonce);
    NoncesAreCounted(c, t, window);
    NoncesAreConsecutive(w, Logged(c, t, window), t.nonce);
    InOrderIffNoNesting(c, t, window);
  }

  // The nonce worked out for an execution of a search is the one that it used exactly when
  // as many began before it and were logged after it as began after it and were logged
  // before it, of those that are searched.
  predicate IsBalanced(used: seq<Start>, i: nat)
    requires i < |used|
  {
    Earlier(used[i + 1..], used[i].tx.nonce) == Later(used[..i], used[i].tx.nonce)
  }

  lemma {:induction false} BalancedInRun(w: World, c: Config, t: Safe, window: seq<Step>, i: nat)
    requires Valid(c, t) && t.open == [] && IsRun(c, t, window) && Run(c, t, window).open == []
    requires NonceNext(w) == Some(Run(c, t, window).nonce) && i < |Logged(c, t, window)|
    ensures var used := Logged(c, t, window);
            NonceOf(w, |used|, i) == Some(used[i].tx.nonce) <==> IsBalanced(used, i)
  {
    NoncesAreCounted(c, t, window);
    NonceByPlace(c, t, window, i);
  }

  lemma {:induction false} NonceRightIffBalanced(w: World, c: Config, steps: seq<Step>, from: nat, to: nat, i: nat)
    requires IsHistory(c, steps, to) && KnowsNonce(w, c, steps) && i < |Used(c, steps, from)|
    ensures var used := Used(c, steps, from);
            NonceOf(w, |used|, i) == Some(used[i].tx.nonce) <==> IsBalanced(used, i)
  {
    var t, window := SearchIsRun(c, NEW_SAFE, steps, from, to);
    NonceReads(w, Run(c, t, window).nonce);
    BalancedInRun(w, c, t, window, i);
  }

  // ---- What is reported ------------------------------------------------------------------------

  // What is reported for execution i of the search.
  function ReportedAt(w: World, c: Config, logs: seq<Log>, i: nat): Option<(Source, Candidate)>
    requires i < |ExecutionsIn(logs)|
  {
    Reported(w, c.safe, ExecutionsIn(logs), EventsIn(logs, c.safe, w.chainId), i)
  }

  // A report of a transaction, or a collision of the hash function.
  predicate IsReported(w: World, found: Option<(Source, Candidate)>, t: SafeTransaction, a: Bytes, b: Bytes) {
    found.Some? && (found.value.1 == CandidateOf(t) || Collision(w.keccak, a, b))
  }

  lemma ReportIsOf(w: World, c: Config, logs: seq<Log>, i: nat, start: Start) returns (a: Bytes, b: Bytes)
    requires i < |ExecutionsIn(logs)| && ReportedAt(w, c, logs, i).Some? && w.keccak == c.keccak
    requires IsListing(c, ExecutionsIn(logs)[i], start)
    ensures IsReported(w, ReportedAt(w, c, logs, i), start.tx, a, b)
  {
    var executions := ExecutionsIn(logs);
    ReportedMatches(w, c.safe, executions, EventsIn(logs, c.safe, w.chainId), i);
    a, b := MatchesHave(w, ReportedAt(w, c, logs, i).value.1, start.tx, executions[i].safeTxHash);
  }

  // Each execution that SafeL2 logged the transaction of is reported from that event,
  // with its own transaction, also if executions are nested, and if nothing else answers.
  lemma EventIsReported(w: World, c: Config, steps: seq<Step>, from: nat, to: nat, i: nat)
    returns (a: Bytes, b: Bytes)
    requires IsHistory(c, steps, to) && w.keccak == c.keccak && w.chainId == c.chainId
    requires i < |Used(c, steps, from)| && Used(c, steps, from)[i].event.Some?
    ensures var logs := Searched(c, steps, from, to);
            && i < |ExecutionsIn(logs)|
            && var found := ReportedAt(w, c, logs, i);
            IsReported(w, found, Used(c, steps, from)[i].tx, a, b) && found.value.0 == EventSource
  {
    SearchListsExecutions(c, steps, from, to);
    var t, window := SearchIsRun(c, NEW_SAFE, steps, from, to);
    var logs, start := Searched(c, steps, from, to), Used(c, steps, from)[i];
    LoggedBegan(c, t, window, start);
    StartIsLogged(c, t, window, start);
    EventIsFound(w, c, logs, start, ExecutionsIn(logs)[i]);
    a, b := ReportIsOf(w, c, logs, i, start);
  }

  lemma {:induction false} EventIsFound(w: World, c: Config, logs: seq<Log>, start: Start, e: Execution)
    requires IsListing(c, e, start) && start.event.Some? && IsLoggable(start.tx, start.event.value)
    requires BeginLog(start) in logs && w.keccak == c.keccak && w.chainId == c.chainId
    ensures FirstMatching(w.keccak, EventsOf(EventsIn(logs, c.safe, w.chainId), e.txHash), e.safeTxHash).Some?
  {
    EventDecodes(start.tx, start.event.value);
    EventIsIn(logs, c.safe, w.chainId, BeginLog(start), CandidateOf(start.tx));
    assert Complete(CandidateOf(start.tx)) == Some(start.tx);
    FirstMatchingIsFound(
      w.keccak, EventsOf(EventsIn(logs, c.safe, w.chainId), e.txHash), CandidateOf(start.tx), e.safeTxHash);
  }

  // So, in every history in which no execution began while another was open in the blocks
  // that are searched, each direct call is reported, with its own transaction.
  lemma DirectCallsAreDecoded(
    w: World, c: Config, steps: seq<Step>, from: nat, to: nat, i: nat, signatures: Bytes) returns (a: Bytes, b: Bytes)
    requires IsHistory(c, steps, to) && KnowsNonce(w, c, steps) && NoNestingSince(c, NEW_SAFE, steps, from)
    requires i < |ExecutionsIn(Searched(c, steps, from, to))| && i < |Used(c, steps, from)|
    requires IsDirectCall(w, c.safe, ExecutionsIn(Searched(c, steps, from, to))[i], Used(c, steps, from)[i].tx, signatures)
    ensures IsReported(w, ReportedAt(w, c, Searched(c, steps, from, to), i), Used(c, steps, from)[i].tx, a, b)
  {
    var logs, start := Searched(c, steps, from, to), Used(c, steps, from)[i];
    SearchListsExecutions(c, steps, from, to);
    NoncesRightIffNoNesting(w, c, steps, from, to);
    DirectCallIsReported(
      w, c.safe, ExecutionsIn(logs), EventsIn(logs, c.safe, w.chainId), i, start.tx, signatures);
    a, b := ReportIsOf(w, c, logs, i, start);
  }

  // Without a matching event, and without the service, a direct call is reported exactly
  // when the nonce worked out for it is the one that it used, or there is a collision.
  lemma DirectCallNeedsNonce(
    w: World, safe: Address, executions: seq<Execution>, events: map<Word, seq<Candidate>>, i: nat,
    t: SafeTransaction, signatures: Bytes) returns (a: Bytes, b: Bytes)
    requires i < |executions| && IsDirectCall(w, safe, executions[i], t, signatures) && w.service.None?
    requires FirstMatching(w.keccak, EventsOf(events, executions[i].txHash), executions[i].safeTxHash).None?
    ensures || Reported(w, safe, executions, events, i)
               == (if NonceOf(w, |executions|, i) == Some(t.nonce) then Some((CalldataSource, CandidateOf(t))) else None)
            || Collision(w.keccak, a, b)
  {
    a, b := [], [];
    var nonce := NonceOf(w, |executions|, i);
    if nonce == Some(t.nonce) {
      DirectCallIsReported(w, safe, executions, events, i, t, signatures);
    } else if nonce.Some? {
      a, b := WrongNonceLoses(w, safe, executions[i], t, nonce.value);
    }
  }

  // So, of any run, exactly the direct calls that are balanced are reported, if no event
  // matches and the service doesn't answer, or there is a collision.
  lemma {:induction false} DirectCallReportedIffBalanced(
    w: World, c: Config, steps: seq<Step>, from: nat, to: nat, i: nat, signatures: Bytes) returns (a: Bytes, b: Bytes)
    requires IsHistory(c, steps, to) && KnowsNonce(w, c, steps) && w.service.None?
    requires i < |ExecutionsIn(Searched(c, steps, from, to))| && i < |Used(c, steps, from)|
    requires IsDirectCall(w, c.safe, ExecutionsIn(Searched(c, steps, from, to))[i], Used(c, steps, from)[i].tx, signatures)
    requires var logs := Searched(c, steps, from, to);
             var e := ExecutionsIn(logs)[i];
             FirstMatching(w.keccak, EventsOf(EventsIn(logs, c.safe, w.chainId), e.txHash), e.safeTxHash).None?
    ensures || ReportedAt(w, c, Searched(c, steps, from, to), i)
               == (if IsBalanced(Used(c, steps, from), i) then
                     Some((CalldataSource, CandidateOf(Used(c, steps, from)[i].tx)))
                   else None)
            || Collision(w.keccak, a, b)
  {
    var logs, used := Searched(c, steps, from, to), Used(c, steps, from);
    SearchListsExecutions(c, steps, from, to);
    NonceRightIffBalanced(w, c, steps, from, to, i);
    a, b := DirectCallNeedsNonce(
      w, c.safe, ExecutionsIn(logs), EventsIn(logs, c.safe, w.chainId), i, used[i].tx, signatures);
  }

  // ---- One execution in another ------------------------------------------------------------------

  // The run of an execution that a second one begins and ends in.
  function Nested(outer: Start, inner: Start, innerEnd: Step, outerEnd: Step): seq<Step> {
    [Begin(outer)] + ([Begin(inner)] + ([innerEnd] + [outerEnd]))
  }

  lemma {:induction false} OneStep(c: Config, s: Safe, step: Step, rest: seq<Step>)
    requires IsRun(c, s, [step] + rest)
    ensures Enabled(c, s, step) && IsRun(c, Next(c, s, step), rest)
    ensures Logged(c, s, [step] + rest) == (if step.End? then [Ended(s)] else []) + Logged(c, Next(c, s, step), rest)
  {
    assert ([step] + rest)[1..] == rest;
  }

  lemma {:induction false} EndsAreLogged(c: Config, s: Safe, outer: Start, inner: Start, innerEnd: Step, outerEnd: Step)
    requires s.open == [outer, inner] && innerEnd.End? && outerEnd.End? && IsRun(c, s, [innerEnd] + [outerEnd])
    ensures Logged(c, s, [innerEnd] + [outerEnd]) == [inner, outer]
  {
    OneStep(c, s, innerEnd, [outerEnd]);
    var next := Next(c, s, innerEnd);
    assert next.open == [outer] && [outerEnd] + [] == [outerEnd];
    OneStep(c, next, outerEnd, []);
    assert Logged(c, Next(c, next, outerEnd), []) == [];
  }

  lemma {:induction false} InnerIsLogged(c: Config, s: Safe, outer: Start, inner: Start, innerEnd: Step, outerEnd: Step)
    requires s.open == [outer] && innerEnd.End? && outerEnd.End?
    requires IsRun(c, s, [Begin(inner)] + ([innerEnd] + [outerEnd]))
    ensures Logged(c, s, [Begin(inner)] + ([innerEnd] + [outerEnd])) == [inner, outer] && inner.tx.nonce == s.nonce
  {
    OneStep(c, s, Begin(inner), [innerEnd] + [outerEnd]);
    EndsAreLogged(c, Next(c, s, Begin(inner)), outer, inner, innerEnd, outerEnd);
  }

  // After every state with no open execution, one execution in another is logged first,
  // although it has the later nonce. So the nonces worked out for the two are swapped.
  lemma {:induction false} NestedPairIsSwapped(
    w: World, c: Config, s: Safe, outer: Start, inner: Start, innerEnd: Step, outerEnd: Step)
    requires Valid(c, s) && s.open == [] && innerEnd.End? && outerEnd.End?
    requires IsRun(c, s, Nested(outer, inner, innerEnd, outerEnd)) && NonceNext(w) == Some(s.nonce + 2)
    ensures Logged(c, s, Nested(outer, inner, innerEnd, outerEnd)) == [inner, outer]
    ensures NonceOf(w, 2, 0) == Some(outer.tx.nonce) && NonceOf(w, 2, 1) == Some(inner.tx.nonce)
    ensures outer.tx.nonce < inner.tx.nonce
  {
    OneStep(c, s, Begin(outer), [Begin(inner)] + ([innerEnd] + [outerEnd]));
    InnerIsLogged(c, Next(c, s, Begin(outer)), outer, inner, innerEnd, outerEnd);
  }

  // Such a pair is lost to the calldata and the trace, whatever they are, or there is a
  // collision of the hash function.
  lemma NestedPairIsLost(
    w: World, safe: Address, inner: Execution, outer: Execution, t: SafeTransaction, u: SafeTransaction)
    returns (a: Bytes, b: Bytes)
    requires InRange(t) && InRange(u) && t.nonce != u.nonce
    requires SafeTransactionHash(w.keccak, t) == outer.safeTxHash && SafeTransactionHash(w.keccak, u) == inner.safeTxHash
    requires NonceOf(w, 2, 0) == Some(t.nonce) && NonceOf(w, 2, 1) == Some(u.nonce)
    ensures || (FromCalls(w, safe, inner, NonceOf(w, 2, 0)).None? && FromCalls(w, safe, outer, NonceOf(w, 2, 1)).None?)
            || Collision(w.keccak, a, b)
  {
    a, b := WrongNonceLoses(w, safe, inner, u, t.nonce);
    if FromCalls(w, safe, inner, Some(t.nonce)).None? {
      a, b := WrongNonceLoses(w, safe, outer, t, u.nonce);
    }
  }

  // ---- Through the chunked scan ---------------------------------------------------------------------

  predicate InBlockOrder(logs: seq<Log>) {
    forall i, j :: 0 <= i < j < |logs| ==> logs[i].block <= logs[j].block
  }

  // The logs of each block.
  function ChainOf(logs: seq<Log>): ScanLogs.Chain<Log> {
    (block: nat) => InBlocks(logs, block, block)
  }

  lemma {:induction false} NoneInBlocks(logs: seq<Log>, from: nat, to: nat)
    requires forall log :: log in logs ==> log.block < from || to < log.block
    ensures InBlocks(logs, from, to) == []
  {
    if logs != [] {
      NoneInBlocks(logs[1..], from, to);
    }
  }

  lemma {:induction false} FirstBlockFirst(logs: seq<Log>, from: nat, to: nat)
    requires InBlockOrder(logs) && from <= to
    ensures InBlocks(logs, from, to) == InBlocks(logs, from, from) + InBlocks(logs, from + 1, to)
  {
    if logs != [] {
      FirstBlockFirst(logs[1..], from, to);
      if logs[0].block > from {
        NoneInBlocks(logs, from, from);
      }
    }
  }

  // The answer to one big query of a range is the logs of its blocks.
  lemma {:induction false} QueryIsInBlocks(logs: seq<Log>, from: nat, to: nat)
    requires InBlockOrder(logs)
    ensures ScanLogs.LogsIn(ChainOf(logs), from, to) == InBlocks(logs, from, to)
    decreases if from <= to then to + 1 - from else 0
  {
    if from > to {
      NoneInBlocks(logs, from, to);
    } else {
      FirstBlockFirst(logs, from, to);
      QueryIsInBlocks(logs, from + 1, to);
    }
  }

  lemma {:induction false} RunLogsInOrder(c: Config, s: Safe, steps: seq<Step>)
    requires Valid(c, s) && IsRun(c, s, steps)
    ensures InBlockOrder(Logs(c, s, steps))
    ensures forall log :: log in Logs(c, s, steps) ==> s.last.block <= log.block
    decreases steps
  {
    if steps != [] {
      NextIsValid(c, s, steps[0]);
      RunLogsInOrder(c, Next(c, s, steps[0]), steps[1..]);
      EmitsThere(c, s, steps[0]);
    }
  }

  // The search, end to end: with a node that answers truthfully or refuses ranges, an
  // error of the node, or each execution that the Safe logged in the blocks, in order,
  // with what is reported for it.
  method Search(
    ghost c: Config, ghost steps: seq<Step>, w: World, safe: Address, node: ScanLogs.Node<Log>, from: nat, to: nat)
    returns (executions: Result<seq<Execution>>, found: seq<Option<(Source, Candidate)>>)
    requires IsHistory(c, steps, to) && safe == c.safe
    requires ScanLogs.Honest(node, ChainOf(Logs(c, NEW_SAFE, steps)))
    requires from <= to ==> ScanLogs.AllAdvance(ScanLogs.LAST_LEVEL, from, to)
    ensures executions.Ok? ==>
      var used := Used(c, steps, from);
      && |executions.value| == |found| == |used| == |ExecutionsIn(Searched(c, steps, from, to))|
      && (forall i :: 0 <= i < |used| ==> IsListing(c, executions.value[i], used[i]))
      && forall i :: 0 <= i < |used| ==> found[i] == ReportedAt(w, c, Searched(c, steps, from, to), i)
    ensures (forall k, a, b :: node(k, a, b).Logs?) ==> executions.Ok?
  {
    RunLogsInOrder(c, NEW_SAFE, steps);
    QueryIsInBlocks(Logs(c, NEW_SAFE, steps), from, to);
    SearchListsExecutions(c, steps, from, to);
    var yielded, end, queries := ScanLogs.Scan(ChainOf(Logs(c, NEW_SAFE, steps)), node, from, to, _ => true);
    executions, found := Find(w, safe, if end.Done? then Ok(yielded) else Err);
  }
}
