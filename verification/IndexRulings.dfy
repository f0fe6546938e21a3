// The rulings that the index command indexes, on every run of the oracle: each run of
// the command sees the rulings of the blocks by then, and reads their requests then.
module IndexRulings {
  import opened EthTypes
  import opened Oracle
  import opened OracleArbitration
  import opened OracleRulings
  import opened IndexCorpus
  import opened IndexCorpusTheorems

  // How a ruling is filed: how requests are read, the name of its file, and the file of
  // what is read of the request. What is of the past isn't read again: the proposal in
  // its block, the CID of the Charter's name as of it, and documents by their hashes.
  datatype Printer = Printer(reader: RequestReader, path: Word -> string, format: (Word, RequestRead) -> string)

  // Each request has a file of its own, which isn't the index.
  ghost predicate ValidPrinter(p: Printer, format: Format) {
    && (forall id, other | p.path(id) == p.path(other) :: id == other)
    && forall id: Word :: p.path(id) != format.indexFile
  }

  predicate IsRuled(step: Step) {
    step.Rule? || step.Decline?
  }

  // The requests that a run rules on are ones of the oracle.
  predicate AllKnown(steps: seq<Step>, m: Machine) {
    forall step :: step in steps && IsRuled(step) ==> step.id in m.requests
  }

  // The rulings of steps, as their requests are read of m as of a block.
  function RulingsIn(p: Printer, config: Config, steps: seq<Step>, m: Machine, now: nat): seq<Ruling>
    requires AllKnown(steps, m)
  {
    if steps == [] then []
    else
      var before, last := RulingsIn(p, config, steps[..|steps| - 1], m, now), steps[|steps| - 1];
      if IsRuled(last) then
        before + [Ruling(last.block, p.path(last.id), p.format(last.id, ReadRequest(p.reader, config, m, last.id, now)))]
      else before
  }

  lemma {:induction false} RuledAreKnown(config: Config, steps: seq<Step>, seen: seq<Step>)
    requires Run(config, steps).Some? && forall step :: step in seen ==> step in steps
    ensures AllKnown(seen, Run(config, steps).value)
  {
    forall step | step in seen && IsRuled(step) ensures step.id in Run(config, steps).value.requests {
      assert IsSettlement(step, step.id);
      SettledIsNotFrozen(config, steps, step.id);
    }
  }

  // The rulings of a run, as they are read as of a block.
  function RulingsOf(p: Printer, config: Config, steps: seq<Step>, now: nat): seq<Ruling>
    requires Run(config, steps).Some?
  {
    RuledAreKnown(config, steps, steps);
    RulingsIn(p, config, steps, Run(config, steps).value, now)
  }

  // ---- Each request is ruled on once ------------------------------------------------------

  lemma {:induction false} RulingsAreOfRuled(p: Printer, config: Config, steps: seq<Step>, m: Machine, now: nat, to: nat)
    requires AllKnown(steps, m) && forall step :: step in steps ==> step.block <= to
    ensures var rulings, ids := RulingsIn(p, config, steps, m, now), Ruled(steps, 0, to);
            |rulings| == |ids| && forall i :: 0 <= i < |ids| ==> rulings[i].path == p.path(ids[i])
  {
    if steps != [] {
      var before, last := steps[..|steps| - 1], steps[|steps| - 1];
      assert last in steps && forall step :: step in before ==> step in steps;
      RulingsAreOfRuled(p, config, before, m, now, to);
    }
  }

  lemma {:induction false} StepsAreByNow(config: Config, steps: seq<Step>)
    requires Run(config, steps).Some?
    ensures forall step :: step in steps ==> step.block <= Run(config, steps).value.block
  {
    if steps != [] {
      StepsAreByNow(config, steps[..|steps| - 1]);
      assert steps == steps[..|steps| - 1] + [steps[|steps| - 1]];
    }
  }

  // On every run of the oracle, no two rulings have the same file.
  lemma {:induction false} RulingsAreValid(p: Printer, format: Format, config: Config, steps: seq<Step>, now: nat)
    requires ValidPrinter(p, format) && Run(config, steps).Some?
    ensures ValidRulings(format, RulingsOf(p, config, steps, now))
  {
    var m := Run(config, steps).value;
    var rulings, ids := RulingsOf(p, config, steps, now), Ruled(steps, 0, m.block);
    StepsAreByNow(config, steps);
    RuledAreKnown(config, steps, steps);
    RulingsAreOfRuled(p, config, steps, m, now, m.block);
    RulingsAgree(config, steps, 0, m.block);
    forall i, j | 0 <= i < j < |rulings| ensures rulings[i].path != rulings[j].path {
      assert ids[i] != ids[j];
    }
    forall r | r in rulings ensures r.path != format.indexFile {
      var i :| 0 <= i < |rulings| && rulings[i] == r;
      assert r.path == p.path(ids[i]);
    }
  }

  // ---- They stay the same ---------------------------------------------------------------------

  // The first steps of a run are a run.
  lemma {:induction false} FirstStepsRun(config: Config, steps: seq<Step>, n: nat)
    requires Run(config, steps).Some? && n <= |steps|
    ensures Run(config, steps[..n]).Some?
    decreases |steps|
  {
    if n == |steps| {
      assert steps[..n] == steps;
    } else {
      assert steps[..|steps| - 1][..n] == steps[..n];
      FirstStepsRun(config, steps[..|steps| - 1], n);
    }
  }

  lemma {:induction false} RulingsInConcat(p: Printer, config: Config, a: seq<Step>, b: seq<Step>, m: Machine, now: nat)
    requires AllKnown(a + b, m)
    ensures AllKnown(a, m) && AllKnown(b, m)
    ensures RulingsIn(p, config, a + b, m, now) == RulingsIn(p, config, a, m, now) + RulingsIn(p, config, b, m, now)
  {
    assert forall step :: step in a + b <==> step in a || step in b;
    if b == [] {
      assert a + b == a;
    } else {
      var fewer := b[..|b| - 1];
      assert (a + b)[..|a + b| - 1] == a + fewer;
      assert forall step :: step in a + fewer ==> step in a + b;
      RulingsInConcat(p, config, a, fewer, m, now);
    }
  }

  // Rulings whose requests are read of two machines are the same if what is read is.
  lemma {:induction false} SameReads(
    p: Printer, config: Config, steps: seq<Step>, m: Machine, n: Machine, now: nat, later: nat)
    requires AllKnown(steps, m) && AllKnown(steps, n)
    requires forall step :: step in steps && IsRuled(step) ==>
               ReadRequest(p.reader, config, m, step.id, now) == ReadRequest(p.reader, config, n, step.id, later)
    ensures RulingsIn(p, config, steps, m, now) == RulingsIn(p, config, steps, n, later)
  {
    if steps != [] {
      var before, last := steps[..|steps| - 1], steps[|steps| - 1];
      assert last in steps && forall step :: step in before ==> step in steps;
      SameReads(p, config, before, m, n, now, later);
    }
  }

  lemma {:induction false} DueConcat(a: seq<Ruling>, b: seq<Ruling>, from: nat, to: nat)
    ensures Due(a + b, from, to) == Due(a, from, to) + Due(b, from, to)
  {
    if b == [] {
      assert a + b == a;
    } else {
      assert (a + b)[..|a + b| - 1] == a + b[..|b| - 1];
      DueConcat(a, b[..|b| - 1], from, to);
    }
  }

  lemma {:induction false} LaterAreNotDue(
    p: Printer, config: Config, steps: seq<Step>, m: Machine, now: nat, from: nat, to: nat)
    requires AllKnown(steps, m) && forall step :: step in steps ==> to < step.block
    ensures Due(RulingsIn(p, config, steps, m, now), from, to) == []
  {
    if steps != [] {
      var before, last := steps[..|steps| - 1], steps[|steps| - 1];
      assert last in steps && forall step :: step in before ==> step in steps;
      LaterAreNotDue(p, config, before, m, now, from, to);
      if IsRuled(last) {
        var r := Ruling(last.block, p.path(last.id), p.format(last.id, ReadRequest(p.reader, config, m, last.id, now)));
        DueConcat(RulingsIn(p, config, before, m, now), [r], from, to);
        assert [r][..0] == [];
      }
    }
  }

  // The rulings of some blocks are the same, with the same contents, whatever happens
  // after those blocks, and as of whatever later block their requests are read, if the
  // oracle has the same parameters then.
  lemma {:induction false} DueIsFixed(
    p: Printer, config: Config, steps: seq<Step>, more: seq<Step>, now: nat, later: nat, from: nat, to: nat)
    requires Run(config, steps).Some? && Run(config, steps + more).Some?
    requires Run(config, steps).value.block <= now && Run(config, steps + more).value.block <= later
    requires forall step :: step in more ==> to < step.block
    requires p.reader.parameters(now) == p.reader.parameters(later)
    ensures Due(RulingsOf(p, config, steps, now), from, to) == Due(RulingsOf(p, config, steps + more, later), from, to)
  {
    var m, n := Run(config, steps).value, Run(config, steps + more).value;
    RuledAreKnown(config, steps, steps);
    RuledAreKnown(config, steps + more, steps + more);
    RulingsInConcat(p, config, steps, more, n, later);
    forall step | step in steps && IsRuled(step)
      ensures ReadRequest(p.reader, config, m, step.id, now) == ReadRequest(p.reader, config, n, step.id, later)
    {
      assert IsSettlement(step, step.id);
      RulingReadsTheSame(p.reader, config, steps, more, step.id, now, later);
    }
    SameReads(p, config, steps, m, n, now, later);
    DueConcat(RulingsIn(p, config, steps, n, later), RulingsIn(p, config, more, n, later), from, to);
    LaterAreNotDue(p, config, more, n, later, from, to);
  }

  // ---- Runs of the command as the chain grows --------------------------------------------------

  // A run of the command, after the first steps of the oracle's run, as of a block.
  datatype LiveRun = LiveRun(seen: nat, now: nat, attempt: Attempt)

  // All that happens by the last block to index has happened by then.
  predicate IsLive(config: Config, steps: seq<Step>, run: LiveRun)
    requires Run(config, steps).Some?
  {
    && run.seen <= |steps|
    && Seen(config, steps, run.seen).block <= run.now
    && forall i :: run.seen <= i < |steps| ==> run.attempt.block < steps[i].block
  }

  // The oracle after the first steps of a run.
  function Seen(config: Config, steps: seq<Step>, seen: nat): Machine
    requires Run(config, steps).Some? && seen <= |steps|
  {
    FirstStepsRun(config, steps, seen);
    Run(config, steps[..seen]).value
  }

  predicate AllLive(config: Config, steps: seq<Step>, runs: seq<LiveRun>)
    requires Run(config, steps).Some?
  {
    forall i :: 0 <= i < |runs| ==> IsLive(config, steps, runs[i])
  }

  // The oracle's parameters are the same as of each run as of a later block.
  predicate ParametersStay(p: Printer, runs: seq<LiveRun>, later: nat) {
    forall i :: 0 <= i < |runs| ==> p.reader.parameters(runs[i].now) == p.reader.parameters(later)
  }

  // The files after runs that each see the rulings by then.
  function AfterLive(
    p: Printer, format: Format, config: Config, steps: seq<Step>, files: Files, runs: seq<LiveRun>): Files
    requires Run(config, steps).Some? && AllLive(config, steps, runs)
  {
    if runs == [] then files
    else
      var last := runs[|runs| - 1];
      assert IsLive(config, steps, last);
      FirstStepsRun(config, steps, last.seen);
      After(format, RulingsOf(p, config, steps[..last.seen], last.now),
            AfterLive(p, format, config, steps, files, runs[..|runs| - 1]), last.attempt)
  }

  function Attempts(runs: seq<LiveRun>): (attempts: seq<Attempt>)
    ensures |attempts| == |runs| && forall a :: a in attempts ==> exists i :: 0 <= i < |runs| && runs[i].attempt == a
  {
    seq(|runs|, i requires 0 <= i < |runs| => runs[i].attempt)
  }

  lemma {:induction false} SameDueSameRun(
    format: Format, rulings: seq<Ruling>, others: seq<Ruling>, files: Files, attempt: Attempt)
    requires forall from: nat :: Due(rulings, from, attempt.block) == Due(others, from, attempt.block)
    ensures After(format, rulings, files, attempt) == After(format, others, files, attempt)
    ensures OutcomeOf(format, rulings, files, attempt) == OutcomeOf(format, others, files, attempt)
  {
  }

  // A run leaves the same files whatever happens after the blocks that it indexes, and as
  // of whatever later block it reads the requests.
  lemma {:induction false} SameRulingsSameRun(
    p: Printer, format: Format, config: Config, steps: seq<Step>, more: seq<Step>, files: Files, now: nat, later: nat,
    attempt: Attempt)
    requires Run(config, steps).Some? && Run(config, steps + more).Some?
    requires Run(config, steps).value.block <= now && Run(config, steps + more).value.block <= later
    requires forall step :: step in more ==> attempt.block < step.block
    requires p.reader.parameters(now) == p.reader.parameters(later)
    ensures After(format, RulingsOf(p, config, steps, now), files, attempt)
         == After(format, RulingsOf(p, config, steps + more, later), files, attempt)
  {
    var first, all := RulingsOf(p, config, steps, now), RulingsOf(p, config, steps + more, later);
    forall from: nat ensures Due(first, from, attempt.block) == Due(all, from, attempt.block) {
      DueIsFixed(p, config, steps, more, now, later, from, attempt.block);
    }
    SameDueSameRun(format, first, all, files, attempt);
  }

  lemma {:induction false} SplitLive(config: Config, steps: seq<Step>, run: LiveRun)
    returns (seen: seq<Step>, more: seq<Step>)
    requires Run(config, steps).Some? && IsLive(config, steps, run)
    ensures seen == steps[..run.seen] && seen + more == steps
    ensures Run(config, seen).Some? && Run(config, seen).value.block <= run.now
    ensures forall step :: step in more ==> run.attempt.block < step.block
  {
    seen, more := steps[..run.seen], steps[run.seen..];
    FirstStepsRun(config, steps, run.seen);
    RestIsLater(steps, run.seen, run.attempt.block);
  }

  lemma RestIsLater(steps: seq<Step>, n: nat, block: nat)
    requires n <= |steps| && forall i :: n <= i < |steps| ==> block < steps[i].block
    ensures steps[..n] + steps[n..] == steps && forall step :: step in steps[n..] ==> block < step.block
  {
  }

  // A run that sees the rulings by then leaves the files that it would leave if it saw
  // the rulings of the whole run of the oracle.
  lemma {:induction false} LiveRunSeesTheSame(
    p: Printer, format: Format, config: Config, steps: seq<Step>, files: Files, run: LiveRun, later: nat)
    requires Run(config, steps).Some? && Run(config, steps).value.block <= later && IsLive(config, steps, run)
    requires p.reader.parameters(run.now) == p.reader.parameters(later)
    ensures Run(config, steps[..run.seen]).Some?
    ensures After(format, RulingsOf(p, config, steps[..run.seen], run.now), files, run.attempt)
         == After(format, RulingsOf(p, config, steps, later), files, run.attempt)
  {
    var seen, more := SplitLive(config, steps, run);
    SameRulingsSameRun(p, format, config, seen, more, files, run.now, later, run.attempt);
  }

  lemma {:induction false} LiveRunsSeeTheSame(
    p: Printer, format: Format, config: Config, steps: seq<Step>, files: Files, runs: seq<LiveRun>, later: nat)
    requires Run(config, steps).Some? && Run(config, steps).value.block <= later && AllLive(config, steps, runs)
    requires ParametersStay(p, runs, later)
    ensures AfterLive(p, format, config, steps, files, runs)
         == AfterAll(format, RulingsOf(p, config, steps, later), files, Attempts(runs))
  {
    if runs != [] {
      var before, last := runs[..|runs| - 1], runs[|runs| - 1];
      LiveRunsSeeTheSame(p, format, config, steps, files, before, later);
      assert Attempts(runs)[..|runs| - 1] == Attempts(before);
      assert IsLive(config, steps, last);
      LiveRunSeesTheSame(p, format, config, steps, AfterLive(p, format, config, steps, files, before), last, later);
    }
  }

  // On every run of the oracle, and after every sequence of runs of the command during
  // it, each of which sees the rulings by then and may fail or be stopped: the index
  // never covers a ruling whose file isn't there, as the ruling reads at the end.
  lemma {:induction false} LiveRunsKeep(
    p: Printer, format: Format, config: Config, steps: seq<Step>, files: Files, runs: seq<LiveRun>, later: nat, to: nat,
    from: nat)
    requires ValidPrinter(p, format) && ValidFormat(format)
    requires Run(config, steps).Some? && Run(config, steps).value.block <= later && AllLive(config, steps, runs)
    requires ParametersStay(p, runs, later)
    requires IndexBlock(format, files).Some? && IndexBlock(format, files).value <= to
    requires Covers(format, RulingsOf(p, config, steps, later), files, from)
    requires forall i :: 0 <= i < |runs| ==> runs[i].attempt.block <= to
    ensures var rulings := RulingsOf(p, config, steps, later);
            var g := AfterLive(p, format, config, steps, files, runs);
            Extends(format, rulings, files, g, to) && Covers(format, rulings, g, from)
  {
    RulingsAreValid(p, format, config, steps, later);
    LiveRunsSeeTheSame(p, format, config, steps, files, runs, later);
    RunsKeep(format, RulingsOf(p, config, steps, later), files, Attempts(runs), to, from);
  }

  // And a last run completes exactly when it would have without them, and leaves the
  // same files.
  lemma {:induction false} LiveRerunIsUninterrupted(
    p: Printer, format: Format, config: Config, steps: seq<Step>, files: Files, runs: seq<LiveRun>, later: nat, to: nat)
    requires ValidPrinter(p, format) && ValidFormat(format)
    requires Run(config, steps).Some? && Run(config, steps).value.block <= later && AllLive(config, steps, runs)
    requires ParametersStay(p, runs, later)
    requires IndexBlock(format, files).Some? && IndexBlock(format, files).value <= to
    requires forall i :: 0 <= i < |runs| ==> runs[i].attempt.block <= to
    ensures var rulings, g := RulingsOf(p, config, steps, later), AfterLive(p, format, config, steps, files, runs);
            && OutcomeOf(format, rulings, g, FullRun(to)) == OutcomeOf(format, rulings, files, FullRun(to))
            && (OutcomeOf(format, rulings, files, FullRun(to)) == Completed ==>
                  After(format, rulings, g, FullRun(to)) == After(format, rulings, files, FullRun(to)))
  {
    RulingsAreValid(p, format, config, steps, later);
    LiveRunsSeeTheSame(p, format, config, steps, files, runs, later);
    RerunIsUninterrupted(format, RulingsOf(p, config, steps, later), files, Attempts(runs), to);
  }

  // ---- If the oracle's parameters change ----------------------------------------------------------

  // A file shows the parameters that its request was read with, such as the Charter's name.
  ghost predicate ShowsParameters(p: Printer) {
    forall id, a, b | p.format(id, a) == p.format(id, b) :: a.parameters == b.parameters
  }

  lemma {:induction false} RulingIsIn(p: Printer, config: Config, steps: seq<Step>, m: Machine, now: nat, step: Step)
    requires AllKnown(steps, m) && step in steps && IsRuled(step)
    ensures Ruling(step.block, p.path(step.id), p.format(step.id, ReadRequest(p.reader, config, m, step.id, now)))
         in RulingsIn(p, config, steps, m, now)
  {
    var before, last := steps[..|steps| - 1], steps[|steps| - 1];
    assert steps == before + [last];
    if step in before {
      RulingIsIn(p, config, before, m, now, step);
    }
  }

  // If a stopped run left the file of a ruling, and the oracle's parameters change, no
  // later run gets past that ruling: each finds the file with other contents, although
  // nothing about the request changed.
  lemma {:induction false} ChangedParametersConflict(
    p: Printer, format: Format, config: Config, steps: seq<Step>, more: seq<Step>, step: Step, files: Files, now: nat,
    later: nat, attempt: Attempt)
    requires Run(config, steps).Some? && Run(config, steps + more).Some? && ShowsParameters(p)
    requires Run(config, steps).value.block <= now && Run(config, steps + more).value.block <= later
    requires p.reader.parameters(now) != p.reader.parameters(later)
    requires step in steps && IsRuled(step) && step.id in Run(config, steps).value.requests
    requires && p.path(step.id) in files
             && files[p.path(step.id)]
                == p.format(step.id, ReadRequest(p.reader, config, Run(config, steps).value, step.id, now))
    requires IndexBlock(format, files).Some? && IndexBlock(format, files).value < step.block <= attempt.block
    ensures OutcomeOf(format, RulingsOf(p, config, steps + more, later), files, attempt) == Failed
    ensures After(format, RulingsOf(p, config, steps + more, later), files, attempt) == files
  {
    var all := steps + more;
    var n := Run(config, all).value;
    assert IsSettlement(step, step.id) && step in all;
    RuledAreKnown(config, all, all);
    RulingReadsTheSame(p.reader, config, steps, more, step.id, now, later);
    RulingIsIn(p, config, all, n, later, step);
    ConflictChangesNothing(
      format, RulingsOf(p, config, all, later), files, attempt,
      Ruling(step.block, p.path(step.id), p.format(step.id, ReadRequest(p.reader, config, n, step.id, later))));
  }
}
