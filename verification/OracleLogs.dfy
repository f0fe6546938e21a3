// The readers of the oracle's logs in internal/safenet/safenet.go: votes, the check
// of its counts, arbitration, and pending.
module OracleLogs {
  import opened Wrappers
  import opened EthTypes
  import opened SolAbi
  import opened SafenetTypes
  import opened Rules

  datatype Event =
    | Committed
    | Revealed
    | DisputeTriggered
    | DisputeResolved
    | DisputeOutOfScope
    | ArbitrationTimedOut

  const VOTE_EVENTS := {Committed, Revealed}
  const ARBITRATION_EVENTS := {DisputeTriggered, DisputeResolved, DisputeOutOfScope, ArbitrationTimedOut}

  // A log of the oracle, with the topics that follow the one of its event.
  datatype Log = Log(block: nat, txHash: Word, event: Event, topics: seq<Word>, data: Bytes, removed: bool)

  // The filter of a query: a range of blocks, events, and a request, if any.
  predicate InFilter(log: Log, from: nat, to: nat, events: set<Event>, id: Option<Word>) {
    && from <= log.block <= to && log.event in events
    && (id.Some? ==> log.topics != [] && log.topics[0] == id.value)
  }

  // The logs that a filter selects, in order.
  function Select(logs: seq<Log>, from: nat, to: nat, events: set<Event>, id: Option<Word>): seq<Log> {
    if logs == [] then []
    else
      var before, last := Select(logs[..|logs| - 1], from, to, events, id), logs[|logs| - 1];
      if InFilter(last, from, to, events, id) then before + [last] else before
  }

  // ---- votes -----------------------------------------------------------------

  // The index of the commitment of sentinel, or the number of votes.
  function IndexOf(votes: seq<Commitment>, sentinel: Address): (i: nat)
    ensures i <= |votes|
    ensures i < |votes| ==> votes[i].sentinel == sentinel
    ensures forall k :: 0 <= k < i ==> votes[k].sentinel != sentinel
  {
    if votes == [] || votes[0].sentinel == sentinel then 0 else 1 + IndexOf(votes[1..], sentinel)
  }

  // The votes after a log that follows the ones they are from.
  function NextVotes(rt: RuleText, votes: seq<Commitment>, log: Log): Result<seq<Commitment>> {
    if log.removed then Ok(votes)
    else if |log.topics| != 2 then Err
    else
      var sentinel: Address := log.topics[1][12..];
      var i := IndexOf(votes, sentinel);
      if log.event == Committed then
        if i < |votes| || ReadUint(log.data, 0).None? then Err
        else Ok(votes + [Commitment(sentinel, ReadUint(log.data, 0).value, Pending, [], [])])
      else if i == |votes| || votes[i].vote != Pending then Err
      else if ReadBool(log.data, 0).None? || ReadBytes(log.data, 2).None? then Err
      else
        var approved, reason := ReadBool(log.data, 0).value, ReadBytes(log.data, 2).value;
        Ok(votes[i := votes[i].(vote := if approved then Approved else Denied, reason := reason,
                                rules := if approved then [] else CitedRules(rt, reason))])
  }

  function Votes(rt: RuleText, logs: seq<Log>): Result<seq<Commitment>> {
    if logs == [] then Ok([])
    else
      match Votes(rt, logs[..|logs| - 1])
      case Err => Err
      case Ok(votes) => NextVotes(rt, votes, logs[|logs| - 1])
  }

  lemma {:induction false} VotesErrSticks(rt: RuleText, logs: seq<Log>, n: nat)
    requires n <= |logs| && Votes(rt, logs[..n]).Err?
    ensures Votes(rt, logs).Err?
  {
    if n < |logs| {
      assert logs[..|logs| - 1][..n] == logs[..n];
      VotesErrSticks(rt, logs[..|logs| - 1], n);
    } else {
      assert logs[..n] == logs;
    }
  }

  // Where votes has each sentinel, as its map has it.
  ghost predicate Indexes(index: map<Address, nat>, votes: seq<Commitment>) {
    && (forall s :: s in index ==> index[s] < |votes| && votes[index[s]].sentinel == s && IndexOf(votes, s) == index[s])
    && (forall i :: 0 <= i < |votes| ==> votes[i].sentinel in index)
  }

  lemma {:induction false} IndexOfGrows(votes: seq<Commitment>, c: Commitment, s: Address)
    ensures IndexOf(votes + [c], s)
         == if IndexOf(votes, s) < |votes| then IndexOf(votes, s) else if c.sentinel == s then |votes| else |votes| + 1
  {
    if votes != [] {
      assert (votes + [c])[1..] == votes[1..] + [c];
      IndexOfGrows(votes[1..], c, s);
    }
  }

  lemma {:induction false} IndexOfUpdate(votes: seq<Commitment>, i: nat, c: Commitment, s: Address)
    requires i < |votes| && c.sentinel == votes[i].sentinel
    ensures IndexOf(votes[i := c], s) == IndexOf(votes, s)
  {
    if i > 0 {
      assert votes[i := c][1..] == votes[1..][i - 1 := c];
      IndexOfUpdate(votes[1..], i - 1, c, s);
    } else {
      assert votes[i := c][1..] == votes[1..];
    }
  }

  lemma IndexesGrow(index: map<Address, nat>, votes: seq<Commitment>, c: Commitment)
    requires Indexes(index, votes) && c.sentinel !in index
    ensures Indexes(index[c.sentinel := |votes|], votes + [c])
  {
    var now := index[c.sentinel := |votes|];
    forall s | s in now ensures now[s] <= |votes| && IndexOf(votes + [c], s) == now[s] {
      IndexOfGrows(votes, c, s);
    }
  }

  lemma IndexesUpdate(index: map<Address, nat>, votes: seq<Commitment>, i: nat, c: Commitment)
    requires Indexes(index, votes) && i < |votes| && c.sentinel == votes[i].sentinel
    ensures Indexes(index, votes[i := c])
  {
    forall s | s in index ensures IndexOf(votes[i := c], s) == index[s] {
      IndexOfUpdate(votes, i, c, s);
    }
  }

  // One log of votes: the updated votes and index, or an error.
  method AddVote(rt: RuleText, votes: seq<Commitment>, index: map<Address, nat>, log: Log)
    returns (now: Result<seq<Commitment>>, indexNow: map<Address, nat>)
    requires Indexes(index, votes)
    ensures now == NextVotes(rt, votes, log)
    ensures now.Ok? ==> Indexes(indexNow, now.value)
  {
    indexNow := index;
    if log.removed { return Ok(votes), index; }
    if |log.topics| != 2 { return Err, index; }
    var d := new Decoder(log.data);
    var sentinel: Address := log.topics[1][12..];
    var committed := sentinel in index;
    if log.event == Committed {
      if committed { return Err, index; }
      var bond := d.Uint(0);
      var c := Commitment(sentinel, bond, Pending, [], []);
      IndexesGrow(index, votes, c);
      indexNow := index[sentinel := |votes|];
      now := Ok(votes + [c]);
    } else {
      if !committed || votes[index[sentinel]].vote != Pending { return Err, index; }
      var i := index[sentinel];
      var approved := d.Bool(0);
      var reason := d.Bytes(2);
      var rules: seq<Bytes> := [];
      if !approved {
        rules := RunCitedRules(rt, reason);
      }
      var c := votes[i].(vote := if approved then Approved else Denied, reason := reason, rules := rules);
      IndexesUpdate(index, votes, i, c);
      now := Ok(votes[i := c]);
    }
    if d.err.failed { return Err, indexNow; }
  }

  method RunVotes(rt: RuleText, logs: seq<Log>) returns (result: Result<seq<Commitment>>)
    ensures result == Votes(rt, logs)
  {
    var votes: seq<Commitment>, index: map<Address, nat> := [], map[];
    for i := 0 to |logs|
      invariant Votes(rt, logs[..i]) == Ok(votes) && Indexes(index, votes)
    {
      assert logs[..i + 1][..i] == logs[..i];
      var now, indexNow := AddVote(rt, votes, index, logs[i]);
      if now.Err? {
        VotesErrSticks(rt, logs, i + 1);
        return Err;
      }
      votes, index := now.value, indexNow;
    }
    assert logs[..|logs|] == logs;
    return Ok(votes);
  }

  // ---- progress.check ---------------------------------------------------------

  datatype Progress = Progress(committed: nat, revealed: nat, approvals: nat, denials: nat)

  function CountVotes(votes: seq<Commitment>, vote: Vote): (n: nat)
    ensures n <= |votes|
  {
    if votes == [] then 0
    else CountVotes(votes[..|votes| - 1], vote) + if votes[|votes| - 1].vote == vote then 1 else 0
  }

  function ProgressOf(votes: seq<Commitment>): Progress {
    var approvals, denials := CountVotes(votes, Approved), CountVotes(votes, Denied);
    Progress(|votes|, approvals + denials, approvals, denials)
  }

  method CheckProgress(progress: Progress, votes: seq<Commitment>) returns (ok: bool)
    ensures ok <==> progress == ProgressOf(votes)
  {
    var revealed, approvals, denials := 0, 0, 0;
    for i := 0 to |votes|
      invariant approvals == CountVotes(votes[..i], Approved) && denials == CountVotes(votes[..i], Denied)
      invariant revealed == approvals + denials
    {
      assert votes[..i + 1][..i] == votes[..i];
      match votes[i].vote
      case Approved => revealed, approvals := revealed + 1, approvals + 1;
      case Denied => revealed, denials := revealed + 1, denials + 1;
      case Pending =>
    }
    assert votes[..|votes|] == votes;
    ok := Progress(|votes|, revealed, approvals, denials) == progress;
  }

  // ---- arbitration ---------------------------------------------------------------

  function OutcomeState(outcome: Outcome): State {
    match outcome
    case PendingOutcome => STATE_FROZEN
    case Secure => STATE_APPROVED
    case Insecure => STATE_DENIED
    case OutOfScope => STATE_TIMED_OUT
    case TimedOut => STATE_TIMED_OUT
  }

  // What arbitration has read: whether a log says that the request was frozen, and
  // the arbitration so far.
  datatype Reading = Reading(frozen: bool, arbitration: Arbitration)

  // The reading after a log that doesn't follow the one that settled it.
  function NextReading(r: Reading, log: Log): Result<Reading> {
    if log.removed then Ok(r)
    else if |log.topics| != 1 then Err
    else
      var record := Some(Record(log.block, log.txHash));
      match log.event
      case DisputeTriggered =>
        if ReadUint64(log.data, 0) != Some(r.arbitration.deadline) then Err
        else Ok(r.(frozen := true))
      case DisputeResolved =>
        if ReadUint64(log.data, 0).None? || ReadUint(log.data, 1).None? || ReadBytes(log.data, 2).None? then Err
        else
          var state := ReadUint64(log.data, 0).value % 256;
          if state != STATE_APPROVED && state != STATE_DENIED then Err
          else Ok(r.(arbitration := r.arbitration.(
                    outcome := if state == STATE_APPROVED then Secure else Insecure,
                    slashed := ReadUint(log.data, 1).value, context := ReadBytes(log.data, 2).value, record := record)))
      case DisputeOutOfScope =>
        if ReadBytes(log.data, 0).None? then Err
        else Ok(r.(arbitration := r.arbitration.(
                  outcome := OutOfScope, context := ReadBytes(log.data, 0).value, record := record)))
      case ArbitrationTimedOut =>
        Ok(r.(arbitration := r.arbitration.(outcome := TimedOut, record := record)))
      case _ => Ok(r)
  }

  // The reading of logs, which ends at the first one that settles the arbitration.
  function Readings(start: Reading, logs: seq<Log>): Result<Reading> {
    if logs == [] then Ok(start)
    else
      match Readings(start, logs[..|logs| - 1])
      case Err => Err
      case Ok(r) => if r.arbitration.outcome != PendingOutcome then Ok(r) else NextReading(r, logs[|logs| - 1])
  }

  lemma {:induction false} ReadingsStick(start: Reading, logs: seq<Log>, n: nat)
    requires n <= |logs|
    requires var r := Readings(start, logs[..n]); r.Err? || r.value.arbitration.outcome != PendingOutcome
    ensures Readings(start, logs) == Readings(start, logs[..n])
  {
    if n < |logs| {
      assert logs[..|logs| - 1][..n] == logs[..n];
      ReadingsStick(start, logs[..|logs| - 1], n);
    } else {
      assert logs[..n] == logs;
    }
  }

  function StartReading(deadline: nat, timeout: nat): Reading
    requires timeout <= deadline
  {
    Reading(false, Arbitration(deadline - timeout, deadline, PendingOutcome, 0, [], None))
  }

  // The arbitration that the logs from the block that froze the request on say,
  // checked against the oracle's state and deadline.
  function ArbitrationOf(logs: seq<Log>, state: State, deadline: nat, timeout: nat): Result<Arbitration> {
    if timeout > deadline then Err
    else
      match Readings(StartReading(deadline, timeout), logs)
      case Err => Err
      case Ok(r) => if !r.frozen || OutcomeState(r.arbitration.outcome) != state then Err else Ok(r.arbitration)
  }

  // The blocks that arbitration queries.
  function ArbitrationTo(state: State, deadline: nat, timeout: nat, block: nat): nat
    requires timeout <= deadline
  {
    if state == STATE_FROZEN then deadline - timeout else block
  }

  // The arbitration of request id as of a block, from all of the oracle's logs.
  function FindArbitration(logs: seq<Log>, id: Word, state: State, deadline: nat, timeout: nat, block: nat)
    : Result<Arbitration>
  {
    if timeout > deadline then Err
    else
      var to := ArbitrationTo(state, deadline, timeout, block);
      ArbitrationOf(Select(logs, deadline - timeout, to, ARBITRATION_EVENTS, Some(id)), state, deadline, timeout)
  }

  // One log of arbitration.
  method AddReading(r: Reading, log: Log) returns (now: Result<Reading>)
    ensures now == NextReading(r, log)
  {
    if log.removed { return Ok(r); }
    if |log.topics| != 1 { return Err; }
    var d := new Decoder(log.data);
    var frozen, a := r.frozen, r.arbitration;
    match log.event {
      case DisputeTriggered =>
        frozen := true;
        var logged := d.Uint64(0);
        if !d.err.failed && logged != a.deadline { return Err; }
      case DisputeResolved =>
        var state := d.Uint64(0);
        if state % 256 == STATE_APPROVED {
          a := a.(outcome := Secure);
        } else if state % 256 == STATE_DENIED {
          a := a.(outcome := Insecure);
        } else {
          return Err;
        }
        var slashed := d.Uint(1);
        var context := d.Bytes(2);
        a := a.(slashed := slashed, context := context);
      case DisputeOutOfScope =>
        var context := d.Bytes(0);
        a := a.(outcome := OutOfScope, context := context);
      case ArbitrationTimedOut =>
        a := a.(outcome := TimedOut);
      case _ =>
    }
    if d.err.failed { return Err; }
    if log.event in {DisputeResolved, DisputeOutOfScope, ArbitrationTimedOut} {
      a := a.(record := Some(Record(log.block, log.txHash)));
    }
    return Ok(Reading(frozen, a));
  }

  method RunArbitration(logs: seq<Log>, state: State, deadline: nat, timeout: nat) returns (result: Result<Arbitration>)
    ensures result == ArbitrationOf(logs, state, deadline, timeout)
  {
    if timeout > deadline { return Err; }
    ghost var start := StartReading(deadline, timeout);
    var r := StartReading(deadline, timeout);
    var i := 0;
    while i < |logs| && r.arbitration.outcome == PendingOutcome
      invariant 0 <= i <= |logs| && Readings(start, logs[..i]) == Ok(r)
    {
      assert logs[..i + 1][..i] == logs[..i];
      var now := AddReading(r, logs[i]);
      if now.Err? {
        ReadingsStick(start, logs, i + 1);
        return Err;
      }
      r := now.value;
      i := i + 1;
    }
    if i < |logs| {
      ReadingsStick(start, logs, i);
    } else {
      assert logs[..i] == logs;
    }
    if !r.frozen || OutcomeState(r.arbitration.outcome) != state { return Err; }
    return Ok(r.arbitration);
  }

  // ---- pending ----------------------------------------------------------------------

  // The disputes that logs trigger, and the requests that they settle.
  datatype Disputes = Disputes(triggered: seq<Dispute>, settled: set<Word>)

  function NextDisputes(d: Disputes, log: Log): Result<Disputes> {
    if log.removed then Ok(d)
    else if |log.topics| != 1 then Err
    else if log.event != DisputeTriggered then Ok(d.(settled := d.settled + {log.topics[0]}))
    else
      match ReadUint64(log.data, 0)
      case None => Err
      case Some(deadline) => Ok(d.(triggered := d.triggered + [Dispute(log.topics[0], log.block, deadline)]))
  }

  function DisputesIn(logs: seq<Log>): Result<Disputes> {
    if logs == [] then Ok(Disputes([], {}))
    else
      match DisputesIn(logs[..|logs| - 1])
      case Err => Err
      case Ok(d) => NextDisputes(d, logs[|logs| - 1])
  }

  function Unsettled(disputes: seq<Dispute>, settled: set<Word>): seq<Dispute> {
    if disputes == [] then []
    else
      var before, last := Unsettled(disputes[..|disputes| - 1], settled), disputes[|disputes| - 1];
      if last.id in settled then before else before + [last]
  }

  // The library's stable sort: each dispute goes after the ones that aren't later.
  function SortByDeadline(disputes: seq<Dispute>): seq<Dispute> {
    if disputes == [] then []
    else InsertByDeadline(SortByDeadline(disputes[..|disputes| - 1]), disputes[|disputes| - 1])
  }

  function InsertByDeadline(sorted: seq<Dispute>, d: Dispute): seq<Dispute> {
    if sorted != [] && d.deadline < sorted[|sorted| - 1].deadline then
      InsertByDeadline(sorted[..|sorted| - 1], d) + [sorted[|sorted| - 1]]
    else
      sorted + [d]
  }

  function PendingOf(logs: seq<Log>): Result<seq<Dispute>> {
    match DisputesIn(logs)
    case Err => Err
    case Ok(d) => Ok(SortByDeadline(Unsettled(d.triggered, d.settled)))
  }

  // The first block that pending queries.
  function PendingFrom(block: nat, timeout: nat): nat {
    block - if timeout < block then timeout else block
  }

  lemma {:induction false} DisputesErrSticks(logs: seq<Log>, n: nat)
    requires n <= |logs| && DisputesIn(logs[..n]).Err?
    ensures DisputesIn(logs).Err?
  {
    if n < |logs| {
      assert logs[..|logs| - 1][..n] == logs[..n];
      DisputesErrSticks(logs[..|logs| - 1], n);
    } else {
      assert logs[..n] == logs;
    }
  }

  method RunPending(logs: seq<Log>) returns (result: Result<seq<Dispute>>)
    ensures result == PendingOf(logs)
  {
    var disputes: seq<Dispute>, settled: set<Word> := [], {};
    for i := 0 to |logs|
      invariant DisputesIn(logs[..i]) == Ok(Disputes(disputes, settled))
    {
      assert logs[..i + 1][..i] == logs[..i];
      var log := logs[i];
      if log.removed { continue; }
      if |log.topics| != 1 {
        DisputesErrSticks(logs, i + 1);
        return Err;
      }
      var id := log.topics[0];
      if log.event != DisputeTriggered {
        settled := settled + {id};
        continue;
      }
      var d := new Decoder(log.data);
      var deadline := d.Uint64(0);
      if d.err.failed {
        DisputesErrSticks(logs, i + 1);
        return Err;
      }
      disputes := disputes + [Dispute(id, log.block, deadline)];
    }
    assert logs[..|logs|] == logs;
    var unsettled: seq<Dispute> := [];
    for i := 0 to |disputes|
      invariant unsettled == Unsettled(disputes[..i], settled)
    {
      assert disputes[..i + 1][..i] == disputes[..i];
      if disputes[i].id !in settled {
        unsettled := unsettled + [disputes[i]];
      }
    }
    assert disputes[..|disputes|] == disputes;
    return Ok(SortByDeadline(unsettled));
  }
}
