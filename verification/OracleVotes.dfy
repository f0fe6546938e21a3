// The votes that the reader finds, on every run of the oracle.
module OracleVotes {
  import opened Wrappers
  import opened EthTypes
  import opened SolAbi
  import opened SolAbiTheorems
  import opened SafenetTypes
  import opened Rules
  import opened OracleLogs
  import opened Oracle

  // ---- Logs of a request, in any block ---------------------------------------------

  predicate IsOf(log: Log, events: set<Event>, id: Word) {
    log.event in events && log.topics != [] && log.topics[0] == id
  }

  function LogsOf(logs: seq<Log>, events: set<Event>, id: Word): seq<Log> {
    if logs == [] then []
    else
      var before, last := LogsOf(logs[..|logs| - 1], events, id), logs[|logs| - 1];
      if IsOf(last, events, id) then before + [last] else before
  }

  lemma {:induction false} SelectsAll(logs: seq<Log>, from: nat, to: nat, events: set<Event>, id: Word)
    requires forall log :: log in logs && IsOf(log, events, id) ==> from <= log.block <= to
    ensures Select(logs, from, to, events, Some(id)) == LogsOf(logs, events, id)
  {
    if logs != [] {
      SelectsAll(logs[..|logs| - 1], from, to, events, id);
    }
  }

  lemma {:induction false} LogsOfNext(logs: seq<Log>, emitted: seq<Log>, events: set<Event>, id: Word)
    requires |emitted| <= 1
    ensures LogsOf(logs + emitted, events, id)
         == LogsOf(logs, events, id) + if |emitted| == 1 && IsOf(emitted[0], events, id) then emitted else []
  {
    if emitted == [] {
      assert logs + emitted == logs;
    } else {
      assert (logs + emitted)[..|logs + emitted| - 1] == logs;
    }
  }

  // ---- What the logs' data reads as ---------------------------------------------------

  lemma CommittedReads(bond: nat)
    requires bond < UINT256
    ensures ReadUint(Encode([UintValue(bond)]), 0) == Some(bond)
  {
    var values := [UintValue(bond)];
    SmallRoundTrip(values);
    assert DecodesAt(Encode(values), 0, values[0]);
  }

  lemma RevealedReads(approve: bool, amount: nat, reason: Bytes)
    requires amount < UINT256 && |reason| < MAX_TEXT
    ensures ReadBool(Encode([BoolValue(approve), UintValue(amount), BytesValue(reason)]), 0) == Some(approve)
    ensures ReadBytes(Encode([BoolValue(approve), UintValue(amount), BytesValue(reason)]), 2) == Some(reason)
  {
    var values := [BoolValue(approve), UintValue(amount), BytesValue(reason)];
    SmallRoundTrip(values);
    assert DecodesAt(Encode(values), 0, values[0]) && DecodesAt(Encode(values), 2, values[2]);
  }

  // ---- The votes of a run ----------------------------------------------------------------

  predicate IsCommit(step: Step, id: Word) {
    step.Commit? && step.id == id
  }

  // The commits on a request, in order.
  function Commits(steps: seq<Step>, id: Word): (commits: seq<Step>)
    ensures forall c :: c in commits ==> IsCommit(c, id)
  {
    if steps == [] then []
    else
      var before, last := Commits(steps[..|steps| - 1], id), steps[|steps| - 1];
      if IsCommit(last, id) then before + [last] else before
  }

  predicate IsReveal(step: Step, id: Word, sentinel: Address) {
    step.Reveal? && step.id == id && step.sentinel == sentinel
  }

  predicate HasReveal(steps: seq<Step>, id: Word, sentinel: Address) {
    exists step :: step in steps && IsReveal(step, id, sentinel)
  }

  // Whether a commitment is what a reveal made of it.
  predicate ShowsReveal(rt: RuleText, c: Commitment, shown: Step)
    requires shown.Reveal?
  {
    && c.vote == (if shown.approve then Approved else Denied)
    && c.reason == shown.reason
    && c.rules == if shown.approve then [] else CitedRules(rt, shown.reason)
  }

  // Whether a commitment is the one that a commit on a request in a run made: it is
  // pending until the sentinel reveals its vote, and shows that reveal then.
  predicate ShowsCommit(rt: RuleText, c: Commitment, commit: Step, steps: seq<Step>, id: Word)
    requires commit.Commit?
  {
    && c.sentinel == commit.sentinel && c.bond == commit.bond
    && (c.vote == Pending <==> !HasReveal(steps, id, c.sentinel))
    && (c.vote == Pending ==> c.reason == [] && c.rules == [])
    && forall step :: step in steps && IsReveal(step, id, c.sentinel) ==> ShowsReveal(rt, c, step)
  }

  // One entry for each commit, in the order of the commits.
  predicate Agrees(rt: RuleText, votes: seq<Commitment>, steps: seq<Step>, id: Word) {
    var commits := Commits(steps, id);
    && |votes| == |commits|
    && forall i :: 0 <= i < |votes| ==> commits[i].Commit? && ShowsCommit(rt, votes[i], commits[i], steps, id)
  }

  // The oracle's record of the votes, against the ones that the reader finds.
  ghost predicate Linked(votes: seq<Commitment>, r: Request) {
    HasSentinels(votes, r.votes) && HasVotes(votes, r.votes) && r.progress == ProgressOf(votes)
  }

  ghost predicate HasSentinels(votes: seq<Commitment>, record: map<Address, Vote>) {
    forall s :: s in record <==> IndexOf(votes, s) < |votes|
  }

  predicate HasVotes(votes: seq<Commitment>, record: map<Address, Vote>) {
    forall i :: 0 <= i < |votes| ==> HasVote(votes, record, i)
  }

  predicate HasVote(votes: seq<Commitment>, record: map<Address, Vote>, i: nat)
    requires i < |votes|
  {
    var s := votes[i].sentinel;
    s in record && record[s] == votes[i].vote && IndexOf(votes, s) == i
  }

  lemma {:induction false} CountUpdate(votes: seq<Commitment>, i: nat, c: Commitment, vote: Vote)
    requires i < |votes|
    ensures CountVotes(votes[i := c], vote)
         == CountVotes(votes, vote) - (if votes[i].vote == vote then 1 else 0) + (if c.vote == vote then 1 else 0)
  {
    var n := |votes| - 1;
    if i < n {
      assert votes[i := c][..n] == votes[..n][i := c];
      CountUpdate(votes[..n], i, c, vote);
    } else {
      assert votes[i := c][..n] == votes[..n];
    }
  }

  lemma LinkedCommit(votes: seq<Commitment>, r: Request, c: Commitment)
    requires Linked(votes, r) && c.sentinel !in r.votes && c.vote == Pending
    ensures HasSentinels(votes + [c], r.votes[c.sentinel := Pending])
    ensures HasVotes(votes + [c], r.votes[c.sentinel := Pending])
    ensures ProgressOf(votes + [c]) == r.progress.(committed := r.progress.committed + 1)
  {
    var now, record := votes + [c], r.votes[c.sentinel := Pending];
    forall s ensures s in record <==> IndexOf(now, s) < |now| {
      IndexOfGrows(votes, c, s);
    }
    forall i | 0 <= i < |now| ensures HasVote(now, record, i) {
      IndexOfGrows(votes, c, now[i].sentinel);
      assert i < |votes| ==> HasVote(votes, r.votes, i);
    }
  }

  lemma RecordUpdate(votes: seq<Commitment>, record: map<Address, Vote>, i: nat, c: Commitment)
    requires HasSentinels(votes, record) && HasVotes(votes, record)
    requires i < |votes| && c.sentinel == votes[i].sentinel
    ensures HasSentinels(votes[i := c], record[c.sentinel := c.vote])
    ensures HasVotes(votes[i := c], record[c.sentinel := c.vote])
  {
    var now, recordNow := votes[i := c], record[c.sentinel := c.vote];
    assert HasVote(votes, record, i);
    forall s ensures s in recordNow <==> IndexOf(now, s) < |now| {
      IndexOfUpdate(votes, i, c, s);
    }
    forall k | 0 <= k < |now| ensures HasVote(now, recordNow, k) {
      assert HasVote(votes, record, k);
      IndexOfUpdate(votes, i, c, now[k].sentinel);
    }
  }

  lemma ProgressReveal(votes: seq<Commitment>, i: nat, c: Commitment, approve: bool)
    requires i < |votes| && votes[i].vote == Pending && c.vote == if approve then Approved else Denied
    ensures ProgressOf(votes[i := c]) == Oracle.Revealed(ProgressOf(votes), approve)
  {
    CountUpdate(votes, i, c, Approved);
    CountUpdate(votes, i, c, Denied);
  }

  // A step that neither commits nor reveals a vote on a request changes none of them.
  lemma AgreesOther(rt: RuleText, votes: seq<Commitment>, steps: seq<Step>, step: Step, id: Word)
    requires Agrees(rt, votes, steps, id)
    requires !IsCommit(step, id) && !(step.Reveal? && step.id == id)
    ensures Agrees(rt, votes, steps + [step], id)
  {
    forall s: Address ensures HasReveal(steps + [step], id, s) <==> HasReveal(steps, id, s) {
    }
  }

  lemma AgreesCommit(rt: RuleText, votes: seq<Commitment>, steps: seq<Step>, step: Step, id: Word)
    requires Agrees(rt, votes, steps, id) && IsCommit(step, id) && !HasReveal(steps, id, step.sentinel)
    ensures Agrees(rt, votes + [Commitment(step.sentinel, step.bond, Pending, [], [])], steps + [step], id)
  {
    forall s: Address ensures HasReveal(steps + [step], id, s) <==> HasReveal(steps, id, s) {
    }
    assert !HasReveal(steps + [step], id, step.sentinel);
  }

  lemma AgreesReveal(rt: RuleText, votes: seq<Commitment>, steps: seq<Step>, step: Step, id: Word, i: nat, c: Commitment)
    requires Agrees(rt, votes, steps, id) && step.Reveal? && step.id == id
    requires i < |votes| && votes[i].sentinel == step.sentinel && votes[i].vote == Pending
    requires forall k :: 0 <= k < |votes| && k != i ==> votes[k].sentinel != step.sentinel
    requires c.sentinel == step.sentinel && c.bond == votes[i].bond && ShowsReveal(rt, c, step)
    ensures Agrees(rt, votes[i := c], steps + [step], id)
  {
    var commits, now, run := Commits(steps, id), votes[i := c], steps + [step];
    forall k | 0 <= k < |now| ensures ShowsCommit(rt, now[k], commits[k], run, id) {
      assert ShowsCommit(rt, votes[k], commits[k], steps, id);
      if k == i {
        ShowsItsReveal(rt, c, commits[k], votes[k], steps, step, id);
      } else {
        ShowsOther(rt, votes[k], commits[k], steps, step, id);
      }
    }
  }

  lemma ShowsItsReveal(
    rt: RuleText, c: Commitment, commit: Step, before: Commitment, steps: seq<Step>, step: Step, id: Word)
    requires commit.Commit? && ShowsCommit(rt, before, commit, steps, id) && before.vote == Pending
    requires IsReveal(step, id, before.sentinel) && c.sentinel == before.sentinel && c.bond == before.bond
    requires ShowsReveal(rt, c, step)
    ensures ShowsCommit(rt, c, commit, steps + [step], id)
  {
    assert step in steps + [step];
    assert forall s :: s in steps + [step] <==> s in steps || s == step;
  }

  lemma ShowsOther(rt: RuleText, c: Commitment, commit: Step, steps: seq<Step>, step: Step, id: Word)
    requires commit.Commit? && ShowsCommit(rt, c, commit, steps, id) && !IsReveal(step, id, c.sentinel)
    ensures ShowsCommit(rt, c, commit, steps + [step], id)
  {
    assert forall s :: s in steps + [step] <==> s in steps || s == step;
  }

  // What holds of each request after each run: the reader succeeds on its votes, and
  // they are the run's, and the oracle's record of them.
  ghost predicate VotesHold(rt: RuleText, steps: seq<Step>, m: Machine, id: Word) {
    var read := Votes(rt, LogsOf(m.logs, VOTE_EVENTS, id));
    && read.Ok? && Agrees(rt, read.value, steps, id) && RevealsHaveVotes(read.value, steps, id)
    && (if id in m.requests then Linked(read.value, m.requests[id]) else read.value == [] && NoSteps(steps, id))
  }

  // Only sentinels that committed a vote have revealed one.
  predicate RevealsHaveVotes(votes: seq<Commitment>, steps: seq<Step>, id: Word) {
    forall step :: step in steps && step.Reveal? && step.id == id ==> IndexOf(votes, step.sentinel) < |votes|
  }

  predicate NoSteps(steps: seq<Step>, id: Word) {
    forall step :: step in steps ==> step.id != id
  }

  lemma {:induction false} VotesNext(rt: RuleText, logs: seq<Log>, emitted: seq<Log>, id: Word)
    requires |emitted| <= 1
    ensures |emitted| == 1 && IsOf(emitted[0], VOTE_EVENTS, id) && Votes(rt, LogsOf(logs, VOTE_EVENTS, id)).Ok? ==>
      Votes(rt, LogsOf(logs + emitted, VOTE_EVENTS, id))
      == NextVotes(rt, Votes(rt, LogsOf(logs, VOTE_EVENTS, id)).value, emitted[0])
    ensures !(|emitted| == 1 && IsOf(emitted[0], VOTE_EVENTS, id)) ==>
      LogsOf(logs + emitted, VOTE_EVENTS, id) == LogsOf(logs, VOTE_EVENTS, id)
  {
    LogsOfNext(logs, emitted, VOTE_EVENTS, id);
    var of := LogsOf(logs, VOTE_EVENTS, id);
    if |emitted| == 1 && IsOf(emitted[0], VOTE_EVENTS, id) {
      assert (of + emitted)[..|of + emitted| - 1] == of;
    } else {
      assert of + [] == of;
    }
  }

  // ---- Each step keeps them --------------------------------------------------------------

  // The machine after a step of the run that led to m.
  predicate StepsTo(config: Config, m: Machine, step: Step, next: Machine) {
    Enabled(config, m, step) && next == Next(config, m, step)
  }

  // A step emits a log of votes on a request exactly when it commits or reveals one.
  predicate IsVote(step: Step, id: Word) {
    (step.Commit? || step.Reveal?) && step.id == id
  }

  lemma EmitsVotes(config: Config, step: Step, id: Word)
    ensures |Emits(config, step)| <= 1
    ensures IsVote(step, id) <==> |Emits(config, step)| == 1 && IsOf(Emits(config, step)[0], VOTE_EVENTS, id)
  {
  }

  lemma OtherStepKeepsVotes(
    rt: RuleText, config: Config, steps: seq<Step>, m: Machine, step: Step, next: Machine, id: Word)
    requires VotesHold(rt, steps, m, id) && StepsTo(config, m, step, next) && !IsVote(step, id)
    ensures VotesHold(rt, steps + [step], next, id)
  {
    var votes := Votes(rt, LogsOf(m.logs, VOTE_EVENTS, id)).value;
    EmitsVotes(config, step, id);
    VotesNext(rt, m.logs, Emits(config, step), id);
    AgreesOther(rt, votes, steps, step, id);
    OtherStepLinked(votes, config, m, step, next, id);
  }

  lemma OtherStepLinked(votes: seq<Commitment>, config: Config, m: Machine, step: Step, next: Machine, id: Word)
    requires StepsTo(config, m, step, next) && !IsVote(step, id)
    requires if id in m.requests then Linked(votes, m.requests[id]) else votes == []
    ensures if id in next.requests then Linked(votes, next.requests[id]) else votes == [] && step.id != id
  {
  }

  lemma CommitKeepsVotes(rt: RuleText, config: Config, steps: seq<Step>, m: Machine, step: Step, next: Machine, id: Word)
    requires VotesHold(rt, steps, m, id) && StepsTo(config, m, step, next) && IsCommit(step, id)
    ensures VotesHold(rt, steps + [step], next, id)
  {
    var votes := Votes(rt, LogsOf(m.logs, VOTE_EVENTS, id)).value;
    var c := Commitment(step.sentinel, step.bond, Pending, [], []);
    EmitsVotes(config, step, id);
    VotesNext(rt, m.logs, Emits(config, step), id);
    CommitReads(rt, votes, config, step);
    AgreesCommit(rt, votes, steps, step, id);
    LinkedCommit(votes, m.requests[id], c);
    RevealsCommit(votes, steps, step, c, id);
  }

  lemma {:induction false} CommitReads(rt: RuleText, votes: seq<Commitment>, config: Config, step: Step)
    requires step.Commit? && step.bond < UINT256 && IndexOf(votes, step.sentinel) == |votes|
    ensures |Emits(config, step)| == 1
    ensures NextVotes(rt, votes, Emits(config, step)[0])
         == Ok(votes + [Commitment(step.sentinel, step.bond, Pending, [], [])])
  {
    assert SentinelTopic(step.sentinel)[12..] == step.sentinel;
    CommittedReads(step.bond);
  }

  lemma RevealsCommit(votes: seq<Commitment>, steps: seq<Step>, step: Step, c: Commitment, id: Word)
    requires RevealsHaveVotes(votes, steps, id) && !step.Reveal?
    ensures RevealsHaveVotes(votes + [c], steps + [step], id)
  {
    forall s | s in steps + [step] && s.Reveal? && s.id == id ensures IndexOf(votes + [c], s.sentinel) < |votes| + 1 {
      assert s in steps;
      IndexOfGrows(votes, c, s.sentinel);
    }
  }

  lemma RevealKeepsVotes(rt: RuleText, config: Config, steps: seq<Step>, m: Machine, step: Step, next: Machine, id: Word)
    requires VotesHold(rt, steps, m, id) && StepsTo(config, m, step, next) && step.Reveal? && step.id == id
    ensures VotesHold(rt, steps + [step], next, id)
  {
    var votes, r := Votes(rt, LogsOf(m.logs, VOTE_EVENTS, id)).value, m.requests[id];
    var i := IndexOf(votes, step.sentinel);
    assert HasVote(votes, r.votes, i);
    var c := RevealedVote(rt, votes[i], step);
    EmitsVotes(config, step, id);
    VotesNext(rt, m.logs, Emits(config, step), id);
    RevealReads(rt, votes, config, step);
    OneEntry(votes, r.votes, i);
    AgreesReveal(rt, votes, steps, step, id, i, c);
    RecordUpdate(votes, r.votes, i, c);
    ProgressReveal(votes, i, c, step.approve);
  }

  function RevealedVote(rt: RuleText, c: Commitment, step: Step): Commitment
    requires step.Reveal?
  {
    c.(vote := if step.approve then Approved else Denied, reason := step.reason,
       rules := if step.approve then [] else CitedRules(rt, step.reason))
  }

  lemma {:induction false} RevealReads(rt: RuleText, votes: seq<Commitment>, config: Config, step: Step)
    requires step.Reveal? && step.amount < UINT256 && |step.reason| < MAX_TEXT
    requires IndexOf(votes, step.sentinel) < |votes| && votes[IndexOf(votes, step.sentinel)].vote == Pending
    ensures |Emits(config, step)| == 1
    ensures var i := IndexOf(votes, step.sentinel);
            NextVotes(rt, votes, Emits(config, step)[0]) == Ok(votes[i := RevealedVote(rt, votes[i], step)])
  {
    var log := Emits(config, step)[0];
    assert log.topics[1][12..] == step.sentinel;
    RevealedReads(step.approve, step.amount, step.reason);
  }

  lemma OneEntry(votes: seq<Commitment>, record: map<Address, Vote>, i: nat)
    requires HasVotes(votes, record) && i < |votes|
    ensures forall k :: 0 <= k < |votes| && k != i ==> votes[k].sentinel != votes[i].sentinel
  {
    assert HasVote(votes, record, i);
    forall k | 0 <= k < |votes| && k != i ensures votes[k].sentinel != votes[i].sentinel {
      assert HasVote(votes, record, k);
    }
  }

  lemma {:induction false} VotesHoldOnEachRun(rt: RuleText, config: Config, steps: seq<Step>, id: Word)
    requires Run(config, steps).Some?
    ensures VotesHold(rt, steps, Run(config, steps).value, id)
  {
    if steps != [] {
      var before, step := steps[..|steps| - 1], steps[|steps| - 1];
      assert steps == before + [step];
      VotesHoldOnEachRun(rt, config, before, id);
      var m, next := Run(config, before).value, Run(config, steps).value;
      if IsCommit(step, id) {
        CommitKeepsVotes(rt, config, before, m, step, next, id);
      } else if IsVote(step, id) {
        RevealKeepsVotes(rt, config, before, m, step, next, id);
      } else {
        OtherStepKeepsVotes(rt, config, before, m, step, next, id);
      }
    }
  }

  // ---- In the blocks that are scanned ------------------------------------------------------

  // The logs of votes on a request are from its proposal on, and by its deadlines.
  predicate VoteLogsInTime(config: Config, m: Machine, id: Word) {
    && (id in m.requests ==>
          && m.requests[id].posted <= m.block
          && m.requests[id].commitDeadline == m.requests[id].posted + config.commitWindow <= m.requests[id].revealDeadline)
    && forall log :: log in m.logs && IsOf(log, VOTE_EVENTS, id) ==>
        && id in m.requests && log.block <= m.block
        && m.requests[id].posted <= log.block <= m.requests[id].revealDeadline
  }

  lemma {:induction false} VoteLogsAreInTime(config: Config, steps: seq<Step>, id: Word)
    requires Run(config, steps).Some?
    ensures VoteLogsInTime(config, Run(config, steps).value, id)
  {
    if steps != [] {
      var before, step := steps[..|steps| - 1], steps[|steps| - 1];
      VoteLogsAreInTime(config, before, id);
      VoteLogStaysInTime(config, Run(config, before).value, step, id);
    }
  }

  lemma VoteLogStaysInTime(config: Config, m: Machine, step: Step, id: Word)
    requires VoteLogsInTime(config, m, id) && Enabled(config, m, step)
    ensures VoteLogsInTime(config, Next(config, m, step), id)
  {
    var next := Next(config, m, step);
    EmitsVotes(config, step, id);
    forall log | log in next.logs && IsOf(log, VOTE_EVENTS, id)
      ensures && id in next.requests && log.block <= next.block
              && next.requests[id].posted <= log.block <= next.requests[id].revealDeadline
    {
      if log !in m.logs {
        assert log in Emits(config, step);
      }
    }
  }

  // On every run of the oracle, for every request, and as of any block from the
  // run's last one on: scanning the blocks from its proposal to its reveal deadline,
  // or to that block, gives one entry for each commit, in the order of the commits,
  // which is pending until it is revealed, and shows the reveal then; and their
  // counts are the ones that the oracle keeps.
  lemma VotesAgree(rt: RuleText, config: Config, steps: seq<Step>, id: Word, now: nat)
    requires Run(config, steps).Some? && id in Run(config, steps).value.requests
    requires Run(config, steps).value.block <= now
    ensures var m := Run(config, steps).value;
            var r := m.requests[id];
            var to := if r.revealDeadline < now then r.revealDeadline else now;
            var votes := Votes(rt, Select(m.logs, r.posted, to, VOTE_EVENTS, Some(id)));
            && votes.Ok?
            && Agrees(rt, votes.value, steps, id)
            && ProgressOf(votes.value) == r.progress
            && r.posted == r.commitDeadline - config.commitWindow
  {
    var m := Run(config, steps).value;
    var r := m.requests[id];
    var to := if r.revealDeadline < now then r.revealDeadline else now;
    VotesHoldOnEachRun(rt, config, steps, id);
    VoteLogsAreInTime(config, steps, id);
    SelectsAll(m.logs, r.posted, to, VOTE_EVENTS, id);
  }
}
