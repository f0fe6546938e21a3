// The disputes that the reader lists as pending, on every run of the oracle.
module OraclePending {
  import opened Wrappers
  import opened EthTypes
  import opened SafenetTypes
  import opened OracleLogs
  import opened Oracle
  import opened OracleVotes
  import opened OracleArbitration

  // ---- The sort ------------------------------------------------------------------------

  predicate SortedByDeadline(s: seq<Dispute>) {
    forall i, j :: 0 <= i < j < |s| ==> s[i].deadline <= s[j].deadline
  }

  // The disputes of s with a deadline, in order.
  function DueAt(s: seq<Dispute>, deadline: nat): seq<Dispute> {
    if s == [] then []
    else
      var before, last := DueAt(s[..|s| - 1], deadline), s[|s| - 1];
      if last.deadline == deadline then before + [last] else before
  }

  lemma {:induction false} InsertKeepsSorted(s: seq<Dispute>, d: Dispute)
    requires SortedByDeadline(s)
    ensures SortedByDeadline(InsertByDeadline(s, d))
    ensures forall x :: x in InsertByDeadline(s, d) <==> x in s || x == d
  {
    if s != [] && d.deadline < s[|s| - 1].deadline {
      var most, last := s[..|s| - 1], s[|s| - 1];
      InsertKeepsSorted(most, d);
      assert s == most + [last];
      assert forall x :: x in most ==> x.deadline <= last.deadline;
    }
  }

  lemma {:induction false} SortSorts(s: seq<Dispute>)
    ensures SortedByDeadline(SortByDeadline(s))
  {
    if s != [] {
      SortSorts(s[..|s| - 1]);
      InsertKeepsSorted(SortByDeadline(s[..|s| - 1]), s[|s| - 1]);
    }
  }

  lemma {:induction false} InsertIsStable(s: seq<Dispute>, d: Dispute, deadline: nat)
    requires SortedByDeadline(s)
    ensures DueAt(InsertByDeadline(s, d), deadline) == DueAt(s + [d], deadline)
  {
    if s != [] && d.deadline < s[|s| - 1].deadline {
      var most, last := s[..|s| - 1], s[|s| - 1];
      InsertIsStable(most, d, deadline);
    }
  }

  // Disputes with the same deadline stay in order, and none is lost or added.
  lemma {:induction false} SortIsStable(s: seq<Dispute>, deadline: nat)
    ensures DueAt(SortByDeadline(s), deadline) == DueAt(s, deadline)
  {
    if s != [] {
      var most, last := s[..|s| - 1], s[|s| - 1];
      SortSorts(most);
      SortIsStable(most, deadline);
      InsertIsStable(SortByDeadline(most), last, deadline);
    }
  }

  lemma {:induction false} InsertLast(s: seq<Dispute>, d: Dispute)
    requires s == [] || s[|s| - 1].deadline <= d.deadline
    ensures InsertByDeadline(s, d) == s + [d]
  {
  }

  lemma {:induction false} SortOfSorted(s: seq<Dispute>)
    requires SortedByDeadline(s)
    ensures SortByDeadline(s) == s
  {
    if s != [] {
      var before, last := s[..|s| - 1], s[|s| - 1];
      SortOfSorted(before);
      InsertLast(before, last);
      assert s == before + [last];
    }
  }

  // ---- The disputes of a run ---------------------------------------------------------------

  function DisputeOf(step: Step, timeout: nat): Dispute
    requires step.Freeze?
  {
    Dispute(step.id, step.block, step.block + timeout)
  }

  // The disputes that a run triggers from a block on, in order.
  function Triggered(steps: seq<Step>, from: nat, timeout: nat): seq<Dispute> {
    if steps == [] then []
    else
      var before, last := Triggered(steps[..|steps| - 1], from, timeout), steps[|steps| - 1];
      if last.Freeze? && from <= last.block then before + [DisputeOf(last, timeout)] else before
  }

  // The requests that a run settles from a block on.
  function SettledFrom(steps: seq<Step>, from: nat): set<Word> {
    set step | step in steps && IsSettlement(step, step.id) && from <= step.block :: step.id
  }

  lemma {:induction false} SelectNext(logs: seq<Log>, emitted: seq<Log>, from: nat, to: nat)
    requires |emitted| <= 1
    ensures Select(logs + emitted, from, to, ARBITRATION_EVENTS, None)
         == Select(logs, from, to, ARBITRATION_EVENTS, None)
            + if |emitted| == 1 && InFilter(emitted[0], from, to, ARBITRATION_EVENTS, None) then emitted else []
  {
    if emitted == [] {
      assert logs + emitted == logs;
    } else {
      assert (logs + emitted)[..|logs + emitted| - 1] == logs;
    }
  }

  lemma {:induction false} DisputesNext(logs: seq<Log>, log: Log)
    requires DisputesIn(logs).Ok?
    ensures DisputesIn(logs + [log]) == NextDisputes(DisputesIn(logs).value, log)
  {
    assert (logs + [log])[..|logs + [log]| - 1] == logs;
  }

  // What a step adds to the disputes: one, a settlement, or nothing.
  function DisputesAfter(d: Disputes, step: Step, from: nat, timeout: nat): Disputes {
    if step.block < from then d
    else if step.Freeze? then d.(triggered := d.triggered + [DisputeOf(step, timeout)])
    else if IsSettlement(step, step.id) then d.(settled := d.settled + {step.id})
    else d
  }

  // The log of a step reads as what the step adds.
  lemma {:induction false} EmittedReads(config: Config, d: Disputes, step: Step, from: nat)
    requires Arbitrates(step, step.id) && from <= step.block && step.block + config.timeout < UINT64
    ensures |Emits(config, step)| == 1
    ensures NextDisputes(d, Emits(config, step)[0]) == Ok(DisputesAfter(d, step, from, config.timeout))
  {
    if step.Freeze? {
      TriggeredReads(step.block + config.timeout);
    }
  }

  lemma EmittedInFilter(config: Config, step: Step, from: nat, to: nat)
    requires step.block <= to
    ensures |Emits(config, step)| <= 1
    ensures (Arbitrates(step, step.id) && from <= step.block)
       <==> |Emits(config, step)| == 1 && InFilter(Emits(config, step)[0], from, to, ARBITRATION_EVENTS, None)
  {
  }

  lemma {:induction false} StepReads(config: Config, d: Disputes, logs: seq<Log>, step: Step, from: nat, to: nat)
    requires DisputesIn(Select(logs, from, to, ARBITRATION_EVENTS, None)) == Ok(d)
    requires step.block <= to && step.block + config.timeout < UINT64
    ensures DisputesIn(Select(logs + Emits(config, step), from, to, ARBITRATION_EVENTS, None))
         == Ok(DisputesAfter(d, step, from, config.timeout))
  {
    var of, emitted := Select(logs, from, to, ARBITRATION_EVENTS, None), Emits(config, step);
    EmittedInFilter(config, step, from, to);
    SelectNext(logs, emitted, from, to);
    if Arbitrates(step, step.id) && from <= step.block {
      EmittedReads(config, d, step, from);
      DisputesNext(of, emitted[0]);
      assert emitted == [emitted[0]];
    } else {
      assert of + [] == of;
    }
  }

  lemma {:induction false} RunDisputesNext(steps: seq<Step>, step: Step, from: nat, timeout: nat)
    ensures Disputes(Triggered(steps + [step], from, timeout), SettledFrom(steps + [step], from))
         == DisputesAfter(Disputes(Triggered(steps, from, timeout), SettledFrom(steps, from)), step, from, timeout)
  {
    assert (steps + [step])[..|steps + [step]| - 1] == steps;
    assert forall s :: s in steps + [step] <==> s in steps || s == step;
    var now := if IsSettlement(step, step.id) && from <= step.block then {step.id} else {};
    assert SettledFrom(steps + [step], from) == SettledFrom(steps, from) + now;
  }

  // The reader finds the disputes of the run from a block on.
  lemma {:induction false} FindsDisputes(config: Config, steps: seq<Step>, from: nat, to: nat)
    requires Run(config, steps).Some? && Run(config, steps).value.block <= to
    ensures DisputesIn(Select(Run(config, steps).value.logs, from, to, ARBITRATION_EVENTS, None))
         == Ok(Disputes(Triggered(steps, from, config.timeout), SettledFrom(steps, from)))
  {
    if steps != [] {
      var before, step := steps[..|steps| - 1], steps[|steps| - 1];
      assert steps == before + [step];
      FindsDisputes(config, before, from, to);
      var d := Disputes(Triggered(before, from, config.timeout), SettledFrom(before, from));
      StepReads(config, d, Run(config, before).value.logs, step, from, to);
      RunDisputesNext(before, step, from, config.timeout);
    } else {
      assert SettledFrom(steps, from) == {};
    }
  }

  // ---- Their order ----------------------------------------------------------------------------

  predicate OneEach(s: seq<Dispute>) {
    forall i, j :: 0 <= i < j < |s| ==> s[i].id != s[j].id
  }

  // What holds of the freezes and settlements of a run.
  predicate InOrder(config: Config, steps: seq<Step>, m: Machine) {
    && (forall step :: step in steps ==> step.block <= m.block)
    && forall f, step :: f in steps && step in steps && f.Freeze? ==> FollowsFreeze(f, step)
  }

  // A request is frozen once, and settled after that.
  predicate FollowsFreeze(f: Step, step: Step)
    requires f.Freeze?
  {
    (IsFreeze(step, f.id) ==> step.block == f.block) && (IsSettlement(step, f.id) ==> f.block <= step.block)
  }

  lemma {:induction false} StepsAreInOrder(config: Config, steps: seq<Step>)
    requires Run(config, steps).Some?
    ensures InOrder(config, steps, Run(config, steps).value)
  {
    if steps != [] {
      var before, last := steps[..|steps| - 1], steps[|steps| - 1];
      StepsAreInOrder(config, before);
      assert steps == before + [last];
      var m := Run(config, before).value;
      forall f, step | f in steps && step in steps && f.Freeze? ensures FollowsFreeze(f, step) {
        if f == last {
          NotArbitratedBefore(config, before, m, last);
        } else if IsFreeze(last, f.id) {
          NotArbitratedBefore(config, before, m, last);
        }
      }
    }
  }

  lemma {:induction false} NotArbitratedBefore(config: Config, before: seq<Step>, m: Machine, step: Step)
    requires Run(config, before) == Some(m) && Enabled(config, m, step) && step.Freeze?
    ensures NeverArbitrated(before, step.id)
  {
    HoldsOnEachRun(config, before, step.id);
  }

  lemma {:induction false} TriggeredAre(steps: seq<Step>, from: nat, timeout: nat, d: Dispute)
    ensures d in Triggered(steps, from, timeout) <==>
      exists step :: step in steps && step.Freeze? && from <= step.block && d == DisputeOf(step, timeout)
  {
    if steps != [] {
      var before, last := steps[..|steps| - 1], steps[|steps| - 1];
      assert steps == before + [last];
      TriggeredAre(before, from, timeout, d);
    }
  }

  lemma {:induction false} UnsettledAre(s: seq<Dispute>, settled: set<Word>)
    ensures forall d :: d in Unsettled(s, settled) <==> d in s && d.id !in settled
  {
    if s != [] {
      var before, last := s[..|s| - 1], s[|s| - 1];
      assert s == before + [last];
      UnsettledAre(before, settled);
    }
  }

  lemma InOrderAppend(s: seq<Dispute>, d: Dispute)
    requires SortedByDeadline(s) && OneEach(s) && forall x :: x in s ==> x.deadline <= d.deadline && x.id != d.id
    ensures SortedByDeadline(s + [d]) && OneEach(s + [d])
  {
  }

  lemma {:induction false} TriggeredOnce(config: Config, steps: seq<Step>, from: nat)
    requires Run(config, steps).Some?
    ensures var t := Triggered(steps, from, config.timeout); SortedByDeadline(t) && OneEach(t)
    ensures forall d :: d in Triggered(steps, from, config.timeout) ==>
              d.deadline <= Run(config, steps).value.block + config.timeout
  {
    if steps != [] {
      var before, last := steps[..|steps| - 1], steps[|steps| - 1];
      TriggeredOnce(config, before, from);
      if last.Freeze? && from <= last.block {
        var triggered := Triggered(before, from, config.timeout);
        NotArbitratedBefore(config, before, Run(config, before).value, last);
        forall d | d in triggered ensures d.id != last.id {
          TriggeredAre(before, from, config.timeout, d);
        }
        InOrderAppend(triggered, DisputeOf(last, config.timeout));
      }
    }
  }

  lemma {:induction false} UnsettledInOrder(s: seq<Dispute>, settled: set<Word>)
    requires SortedByDeadline(s) && OneEach(s)
    ensures SortedByDeadline(Unsettled(s, settled)) && OneEach(Unsettled(s, settled))
  {
    if s != [] {
      var before, last := s[..|s| - 1], s[|s| - 1];
      UnsettledInOrder(before, settled);
      UnsettledAre(before, settled);
      if last.id !in settled {
        InOrderAppend(Unsettled(before, settled), last);
      }
    }
  }

  // ---- In terms of the oracle's record -----------------------------------------------------------

  // Whether the oracle's record of a request is of a dispute that it can still be
  // ruled on by the deadline, as of a block.
  predicate AwaitsRuling(m: Machine, d: Dispute, timeout: nat, now: nat) {
    && d.id in m.requests && m.requests[d.id].state == STATE_FROZEN
    && m.requests[d.id].arbitrationDeadline == d.deadline == d.frozenBlock + timeout
    && now <= d.deadline
  }

  predicate HasDispute(steps: seq<Step>, d: Dispute, timeout: nat) {
    exists step :: step in steps && step.Freeze? && d == DisputeOf(step, timeout)
  }

  // The oracle's record of a request that was frozen is of its one freeze, and says
  // that it is frozen until it is settled.
  lemma {:induction false} RecordOfFreeze(config: Config, steps: seq<Step>, m: Machine, d: Dispute)
    requires Run(config, steps) == Some(m) && HasDispute(steps, d, config.timeout)
    ensures d.id in m.requests && m.requests[d.id].arbitrationDeadline == d.deadline == d.frozenBlock + config.timeout
    ensures m.requests[d.id].state == STATE_FROZEN <==> !Settled(steps, d.id)
  {
    HoldsOnEachRun(config, steps, d.id);
    StepsAreInOrder(config, steps);
    var f :| f in steps && f.Freeze? && d == DisputeOf(f, config.timeout);
    assert Arbitrates(f, d.id);
    var r := m.requests[d.id];
    var a := Readings(
      StartReading(r.arbitrationDeadline, config.timeout), LogsOf(m.logs, ARBITRATION_EVENTS, d.id)).value.arbitration;
    var g :| g in steps && IsFreeze(g, d.id) && g.block == a.frozenBlock;
    assert FollowsFreeze(f, g);
  }

  // Conversely, a record that says so has a freeze.
  lemma {:induction false} FreezeOfRecord(config: Config, steps: seq<Step>, m: Machine, d: Dispute, now: nat)
    requires Run(config, steps) == Some(m) && AwaitsRuling(m, d, config.timeout, now)
    ensures HasDispute(steps, d, config.timeout)
  {
    HoldsOnEachRun(config, steps, d.id);
  }

  // A dispute in the window is settled in the window, if at all.
  lemma {:induction false} SettledInWindow(config: Config, steps: seq<Step>, d: Dispute, from: nat)
    requires Run(config, steps).Some? && HasDispute(steps, d, config.timeout) && from <= d.frozenBlock
    ensures d.id in SettledFrom(steps, from) <==> Settled(steps, d.id)
  {
    StepsAreInOrder(config, steps);
    var f :| f in steps && f.Freeze? && d == DisputeOf(f, config.timeout);
    if Settled(steps, d.id) {
      var step :| step in steps && IsSettlement(step, d.id);
      assert FollowsFreeze(f, step);
    }
  }

  lemma {:induction false} PendingIs(config: Config, steps: seq<Step>, m: Machine, d: Dispute, now: nat)
    requires Run(config, steps) == Some(m)
    ensures var from := PendingFrom(now, config.timeout);
            (d in Triggered(steps, from, config.timeout) && d.id !in SettledFrom(steps, from))
              <==> AwaitsRuling(m, d, config.timeout, now)
  {
    var from := PendingFrom(now, config.timeout);
    TriggeredAre(steps, from, config.timeout, d);
    if d in Triggered(steps, from, config.timeout) {
      assert HasDispute(steps, d, config.timeout);
      RecordOfFreeze(config, steps, m, d);
      SettledInWindow(config, steps, d, from);
    } else if AwaitsRuling(m, d, config.timeout, now) {
      FreezeOfRecord(config, steps, m, d, now);
    }
  }

  // On every run of the oracle, and as of any block from the run's last one on:
  // scanning the last timeout blocks gives exactly the disputes that the oracle has
  // as frozen with a deadline that hasn't passed, each once, ordered by deadline.
  lemma {:induction false} PendingAgrees(config: Config, steps: seq<Step>, now: nat)
    requires Run(config, steps).Some? && Run(config, steps).value.block <= now
    ensures var m := Run(config, steps).value;
            var pending := PendingOf(
              Select(m.logs, PendingFrom(now, config.timeout), now, ARBITRATION_EVENTS, None));
            && pending.Ok?
            && (forall d :: d in pending.value <==> AwaitsRuling(m, d, config.timeout, now))
            && OneEach(pending.value) && SortedByDeadline(pending.value)
  {
    var m, from := Run(config, steps).value, PendingFrom(now, config.timeout);
    FindsDisputes(config, steps, from, now);
    TriggeredOnce(config, steps, from);
    var triggered, settled := Triggered(steps, from, config.timeout), SettledFrom(steps, from);
    UnsettledAre(triggered, settled);
    UnsettledInOrder(triggered, settled);
    SortOfSorted(Unsettled(triggered, settled));
    forall d ensures d in Unsettled(triggered, settled) <==> AwaitsRuling(m, d, config.timeout, now) {
      PendingIs(config, steps, m, d, now);
    }
  }
}
