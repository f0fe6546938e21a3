// The command that indexes rulings into the corpus: the checks and writes at the end of
// internal/cli/index.go. A file is written in one step, and a run can be stopped after
// any number of them.
module IndexCorpus {
  import opened Wrappers

  type Files = map<string, string>

  // How the index is stored: its file, and the block in its contents.
  datatype Format = Format(indexFile: string, marshal: nat -> string, parse: string -> Option<nat>)

  // What is parsed is what was stored.
  ghost predicate ValidFormat(format: Format) {
    forall block: nat :: format.parse(format.marshal(block)) == Some(block)
  }

  // A ruling on the chain, and the corpus file of it.
  datatype Ruling = Ruling(block: nat, path: string, content: string)

  // A request is ruled on at most once, and its file isn't the index.
  predicate ValidRulings(format: Format, rulings: seq<Ruling>) {
    && (forall i, j :: 0 <= i < j < |rulings| ==> rulings[i].path != rulings[j].path)
    && forall r :: r in rulings ==> r.path != format.indexFile
  }

  // A run of the command: the last block to index, whether the chain and the gateway
  // answer, and how many files are written before the run is stopped, if it is.
  datatype Attempt = Attempt(block: nat, answered: bool, writes: Option<nat>)

  datatype Outcome = Completed | Failed | Stopped

  datatype Write = Write(path: string, content: string)

  function IndexBlock(format: Format, files: Files): Option<nat> {
    if format.indexFile in files then format.parse(files[format.indexFile]) else None
  }

  // The rulings in the blocks after from, up to to, in order.
  function Due(rulings: seq<Ruling>, from: nat, to: nat): seq<Ruling> {
    if rulings == [] then []
    else
      var before, last := Due(rulings[..|rulings| - 1], from, to), rulings[|rulings| - 1];
      if from < last.block <= to then before + [last] else before
  }

  predicate Conflicts(files: Files, due: seq<Ruling>) {
    exists r :: r in due && r.path in files && files[r.path] != r.content
  }

  // The writes of the rulings whose files aren't there.
  function Missing(files: Files, due: seq<Ruling>): seq<Write> {
    if due == [] then []
    else
      var before, last := Missing(files, due[..|due| - 1]), due[|due| - 1];
      if last.path in files then before else before + [Write(last.path, last.content)]
  }

  // The writes of a run that fails no check: the files, and the index last.
  function Writes(format: Format, files: Files, due: seq<Ruling>, block: nat): seq<Write> {
    Missing(files, due) + [Write(format.indexFile, format.marshal(block))]
  }

  function Apply(files: Files, writes: seq<Write>): Files {
    if writes == [] then files
    else
      var before, last := Apply(files, writes[..|writes| - 1]), writes[|writes| - 1];
      before[last.path := last.content]
  }

  // Whether a run gets to write.
  predicate PassesChecks(format: Format, rulings: seq<Ruling>, files: Files, attempt: Attempt) {
    && IndexBlock(format, files).Some? && IndexBlock(format, files).value <= attempt.block
    && (IndexBlock(format, files).value < attempt.block ==> attempt.answered)
    && !Conflicts(files, Due(rulings, IndexBlock(format, files).value, attempt.block))
  }

  function OutcomeOf(format: Format, rulings: seq<Ruling>, files: Files, attempt: Attempt): Outcome {
    if !PassesChecks(format, rulings, files, attempt) then Failed
    else
      var writes := Writes(format, files, Due(rulings, IndexBlock(format, files).value, attempt.block), attempt.block);
      if attempt.writes.Some? && attempt.writes.value < |writes| then Stopped else Completed
  }

  // The files after a run.
  function After(format: Format, rulings: seq<Ruling>, files: Files, attempt: Attempt): Files {
    if !PassesChecks(format, rulings, files, attempt) then files
    else
      var writes := Writes(format, files, Due(rulings, IndexBlock(format, files).value, attempt.block), attempt.block);
      Apply(files, if OutcomeOf(format, rulings, files, attempt) == Stopped then writes[..attempt.writes.value] else writes)
  }

  function AfterAll(format: Format, rulings: seq<Ruling>, files: Files, attempts: seq<Attempt>): Files {
    if attempts == [] then files
    else After(format, rulings, AfterAll(format, rulings, files, attempts[..|attempts| - 1]), attempts[|attempts| - 1])
  }

  class Disk {
    var files: Files

    constructor (files: Files)
      ensures this.files == files
    {
      this.files := files;
    }

    // The files to write of the rulings that are due, or None if one is there with
    // other contents.
    method Check(due: seq<Ruling>) returns (writes: Option<seq<Write>>)
      ensures writes == if Conflicts(files, due) then None else Some(Missing(files, due))
    {
      var missing: seq<Write> := [];
      for i := 0 to |due|
        invariant missing == Missing(files, due[..i]) && !Conflicts(files, due[..i])
      {
        assert due[..i + 1] == due[..i] + [due[i]];
        if due[i].path !in files {
          missing := missing + [Write(due[i].path, due[i].content)];
        } else if files[due[i].path] != due[i].content {
          assert due[i] in due;
          return None;
        }
      }
      assert due[..|due|] == due;
      return Some(missing);
    }

    // Writes files in order, and stops before the one after the limit.
    method WriteFiles(writes: seq<Write>, limit: Option<nat>) returns (stopped: bool)
      modifies this
      ensures stopped <==> limit.Some? && limit.value < |writes|
      ensures files == Apply(old(files), if stopped then writes[..limit.value] else writes)
    {
      for i := 0 to |writes|
        invariant files == Apply(old(files), writes[..i])
        invariant limit.Some? ==> i <= limit.value
      {
        if limit == Some(i) {
          return true;
        }
        assert writes[..i + 1][..i] == writes[..i];
        files := files[writes[i].path := writes[i].content];
      }
      assert writes[..|writes|] == writes;
      return false;
    }

    // A run of the command.
    method Run(format: Format, rulings: seq<Ruling>, attempt: Attempt) returns (outcome: Outcome)
      modifies this
      ensures outcome == OutcomeOf(format, rulings, old(files), attempt)
      ensures files == After(format, rulings, old(files), attempt)
    {
      if format.indexFile !in files { return Failed; }
      var index := format.parse(files[format.indexFile]);
      if index.None? || attempt.block < index.value { return Failed; }
      var due: seq<Ruling> := [];
      if attempt.block > index.value {
        if !attempt.answered { return Failed; }
        due := Due(rulings, index.value, attempt.block);
      } else {
        NothingDue(rulings, attempt.block);
      }
      var missing := Check(due);
      if missing.None? { return Failed; }
      var writes := missing.value + [Write(format.indexFile, format.marshal(attempt.block))];
      var stopped := WriteFiles(writes, attempt.writes);
      return if stopped then Stopped else Completed;
    }
  }

  lemma {:induction false} NothingDue(rulings: seq<Ruling>, block: nat)
    ensures Due(rulings, block, block) == []
  {
    if rulings != [] {
      NothingDue(rulings[..|rulings| - 1], block);
    }
  }
}
