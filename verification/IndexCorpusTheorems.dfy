// What holds of the corpus after every sequence of runs of the index command, each of
// which may fail, or be stopped after any of its writes.
module IndexCorpusTheorems {
  import opened Wrappers
  import opened IndexCorpus

  // ---- What a run writes --------------------------------------------------------------

  lemma {:induction false} DueAre(rulings: seq<Ruling>, from: nat, to: nat)
    ensures forall r :: r in Due(rulings, from, to) <==> r in rulings && from < r.block <= to
  {
    if rulings != [] {
      var before, last := rulings[..|rulings| - 1], rulings[|rulings| - 1];
      DueAre(before, from, to);
      assert rulings == before + [last];
    }
  }

  // A write is of the file of a ruling that isn't there.
  predicate IsMissing(files: Files, due: seq<Ruling>, w: Write) {
    w.path !in files && exists r :: r in due && r.path == w.path && r.content == w.content
  }

  lemma {:induction false} MissingAre(files: Files, due: seq<Ruling>)
    ensures forall w :: w in Missing(files, due) ==> IsMissing(files, due, w)
    ensures forall r :: r in due && r.path !in files ==> Write(r.path, r.content) in Missing(files, due)
  {
    if due != [] {
      var before, last := due[..|due| - 1], due[|due| - 1];
      MissingAre(files, before);
      assert due == before + [last];
      forall w | w in Missing(files, due) ensures IsMissing(files, due, w) {
        if w in Missing(files, before) {
          var r :| r in before && r.path == w.path && r.content == w.content;
          assert r in due;
        } else {
          assert last in due && w == Write(last.path, last.content);
        }
      }
    }
  }

  predicate IsWritten(writes: seq<Write>, path: string) {
    exists w :: w in writes && w.path == path
  }

  // A file is what one of the writes to it left, or what it was.
  lemma {:induction false} ApplyLeaves(files: Files, writes: seq<Write>, path: string)
    ensures path in Apply(files, writes) <==> path in files || IsWritten(writes, path)
    ensures IsWritten(writes, path) ==> exists w :: w in writes && w.path == path && Apply(files, writes)[path] == w.content
    ensures !IsWritten(writes, path) && path in files ==> Apply(files, writes)[path] == files[path]
  {
    if writes != [] {
      var before, last := writes[..|writes| - 1], writes[|writes| - 1];
      ApplyLeaves(files, before, path);
      assert writes == before + [last] && last in writes;
      assert forall w :: w in before ==> w in writes;
      if path != last.path && IsWritten(writes, path) {
        var w :| w in writes && w.path == path;
        assert w in before;
      }
    }
  }

  // ---- What every run keeps ---------------------------------------------------------------

  predicate IsFileOf(rulings: seq<Ruling>, path: string, content: string, from: nat, to: nat) {
    exists r :: r in rulings && r.path == path && r.content == content && from < r.block <= to
  }

  // Files g are files f, with files of rulings after f's index, up to a block: the other
  // files of f are as they were, and its index isn't lower.
  predicate Extends(format: Format, rulings: seq<Ruling>, f: Files, g: Files, to: nat) {
    && IndexBlock(format, f).Some? && IndexBlock(format, g).Some?
    && IndexBlock(format, f).value <= IndexBlock(format, g).value <= to
    && (forall p :: p in f && p != format.indexFile ==> p in g && g[p] == f[p])
    && forall p :: p in g && p !in f ==> IsFileOf(rulings, p, g[p], IndexBlock(format, f).value, to)
  }

  // Each ruling in the blocks after from that the index covers has its file.
  predicate Covers(format: Format, rulings: seq<Ruling>, files: Files, from: nat) {
    IndexBlock(format, files).Some? ==>
      forall r :: r in rulings && from < r.block <= IndexBlock(format, files).value ==>
        r.path in files && files[r.path] == r.content
  }

  // Writing some of the files that are missing, and not the index.
  lemma {:induction false} PartialWrites(
    format: Format, rulings: seq<Ruling>, g: Files, due: seq<Ruling>, writes: seq<Write>)
    requires ValidRulings(format, rulings) && (forall r :: r in due ==> r in rulings)
    requires forall w :: w in writes ==> IsMissing(g, due, w)
    ensures var h := Apply(g, writes);
            && (forall p :: p in g ==> p in h && h[p] == g[p])
            && (forall p :: p in h && p !in g ==> exists r :: r in due && r.path == p && r.content == h[p])
            && (format.indexFile in h ==> format.indexFile in g)
  {
    var h := Apply(g, writes);
    forall p | p in g ensures p in h && h[p] == g[p] {
      ApplyLeaves(g, writes, p);
    }
    forall p | p in h && p !in g ensures exists r :: r in due && r.path == p && r.content == h[p] {
      ApplyLeaves(g, writes, p);
    }
  }

  // A run that is stopped, or that fails, adds files, and leaves the index.
  lemma StoppedExtends(format: Format, rulings: seq<Ruling>, f: Files, g: Files, attempt: Attempt, to: nat)
    requires ValidFormat(format) && ValidRulings(format, rulings) && Extends(format, rulings, f, g, to)
    requires attempt.block <= to && OutcomeOf(format, rulings, g, attempt) == Stopped
    ensures var h := After(format, rulings, g, attempt);
            && Extends(format, rulings, f, h, to) && IndexBlock(format, h) == IndexBlock(format, g)
            && forall p :: p in g ==> p in h && h[p] == g[p]
  {
    var from := IndexBlock(format, g).value;
    var due := Due(rulings, from, attempt.block);
    var missing := Missing(g, due);
    var writes := Writes(format, g, due, attempt.block)[..attempt.writes.value];
    DueAre(rulings, from, attempt.block);
    MissingAre(g, due);
    assert writes == missing[..attempt.writes.value];
    PartialWrites(format, rulings, g, due, writes);
  }

  // What a run that completes leaves: the files that were there, those of the rulings
  // that were due, and the index.
  predicate IsIndexed(format: Format, due: seq<Ruling>, g: Files, h: Files, block: nat) {
    && format.indexFile in h && h[format.indexFile] == format.marshal(block)
    && (forall p :: p in g && p != format.indexFile ==> p in h && h[p] == g[p])
    && (forall p :: p in h && p !in g ==> exists r :: r in due && r.path == p && r.content == h[p])
    && (forall r :: r in due ==> r.path in h && h[r.path] == r.content)
  }

  lemma {:induction false} WrittenOrThere(format: Format, rulings: seq<Ruling>, g: Files, due: seq<Ruling>, r: Ruling)
    requires ValidRulings(format, rulings) && (forall s :: s in due ==> s in rulings)
    requires !Conflicts(g, due) && r in due
    ensures var h := Apply(g, Missing(g, due)); r.path in h && h[r.path] == r.content
  {
    var missing := Missing(g, due);
    MissingAre(g, due);
    ApplyLeaves(g, missing, r.path);
    if r.path in g {
      assert !IsWritten(missing, r.path);
    } else {
      assert Write(r.path, r.content) in missing;
      var w :| w in missing && w.path == r.path && Apply(g, missing)[r.path] == w.content;
      var s :| s in due && s.path == w.path && s.content == w.content;
    }
  }

  lemma {:induction false} CompletedIndexes(format: Format, rulings: seq<Ruling>, g: Files, attempt: Attempt)
    requires ValidRulings(format, rulings)
    requires OutcomeOf(format, rulings, g, attempt) == Completed
    ensures IsIndexed(format, Due(rulings, IndexBlock(format, g).value, attempt.block), g,
                      After(format, rulings, g, attempt), attempt.block)
  {
    var from := IndexBlock(format, g).value;
    var due := Due(rulings, from, attempt.block);
    var missing, h := Missing(g, due), After(format, rulings, g, attempt);
    DueAre(rulings, from, attempt.block);
    MissingAre(g, due);
    PartialWrites(format, rulings, g, due, missing);
    forall r | r in due ensures r.path in h && h[r.path] == r.content {
      WrittenOrThere(format, rulings, g, due, r);
    }
  }

  // The index is never past a ruling whose file isn't there, the files that were there
  // stay as they are, and the index doesn't go back: one run keeps all of that.
  lemma RunKeeps(format: Format, rulings: seq<Ruling>, f: Files, g: Files, attempt: Attempt, to: nat, from: nat)
    requires ValidFormat(format) && ValidRulings(format, rulings)
    requires Extends(format, rulings, f, g, to) && Covers(format, rulings, g, from) && attempt.block <= to
    ensures var h := After(format, rulings, g, attempt);
            Extends(format, rulings, f, h, to) && Covers(format, rulings, h, from)
  {
    var outcome := OutcomeOf(format, rulings, g, attempt);
    if outcome == Stopped {
      StoppedExtends(format, rulings, f, g, attempt, to);
    } else if outcome == Completed {
      var due := Due(rulings, IndexBlock(format, g).value, attempt.block);
      DueAre(rulings, IndexBlock(format, g).value, attempt.block);
      CompletedIndexes(format, rulings, g, attempt);
    }
  }

  // After every sequence of runs up to a block, each of which may fail or be stopped
  // after any of its writes: each ruling in the blocks that the index covers has its
  // file, if that was so before; the files that were there are as they were, except for
  // the index; the ones added are of rulings; and the index isn't lower.
  lemma {:induction false} RunsKeep(
    format: Format, rulings: seq<Ruling>, files: Files, attempts: seq<Attempt>, to: nat, from: nat)
    requires ValidFormat(format) && ValidRulings(format, rulings)
    requires IndexBlock(format, files).Some? && IndexBlock(format, files).value <= to
    requires Covers(format, rulings, files, from) && forall a :: a in attempts ==> a.block <= to
    ensures var g := AfterAll(format, rulings, files, attempts);
            Extends(format, rulings, files, g, to) && Covers(format, rulings, g, from)
  {
    if attempts != [] {
      var before := attempts[..|attempts| - 1];
      RunsKeep(format, rulings, files, before, to, from);
      RunKeeps(format, rulings, files, AfterAll(format, rulings, files, before), attempts[|attempts| - 1], to, from);
    }
  }

  // ---- Reruns --------------------------------------------------------------------------------

  // A run to the end, that nothing stops.
  function FullRun(block: nat): Attempt {
    Attempt(block, true, None)
  }

  lemma AddedIsRight(format: Format, rulings: seq<Ruling>, f: Files, g: Files, to: nat, r: Ruling)
    requires ValidRulings(format, rulings) && Extends(format, rulings, f, g, to)
    requires r in rulings && r.path in g && r.path !in f
    ensures g[r.path] == r.content
  {
    assert IsFileOf(rulings, r.path, g[r.path], IndexBlock(format, f).value, to);
    var s :| s in rulings && s.path == r.path && s.content == g[r.path];
  }

  lemma {:induction false} SameConflicts(format: Format, rulings: seq<Ruling>, f: Files, g: Files, to: nat)
    requires ValidRulings(format, rulings) && Extends(format, rulings, f, g, to)
    requires Covers(format, rulings, g, IndexBlock(format, f).value)
    ensures Conflicts(f, Due(rulings, IndexBlock(format, f).value, to))
       <==> Conflicts(g, Due(rulings, IndexBlock(format, g).value, to))
  {
    var i, j := IndexBlock(format, f).value, IndexBlock(format, g).value;
    var early, late := Due(rulings, i, to), Due(rulings, j, to);
    DueAre(rulings, i, to);
    DueAre(rulings, j, to);
    if Conflicts(f, early) {
      var r :| r in early && r.path in f && f[r.path] != r.content;
      assert g[r.path] == f[r.path] && r in late;
    }
    if Conflicts(g, late) {
      var r :| r in late && r.path in g && g[r.path] != r.content;
      if r.path in f {
        assert r in early && f[r.path] == g[r.path];
      } else {
        AddedIsRight(format, rulings, f, g, to, r);
      }
    }
  }

  lemma {:induction false} IndexedAlike(
    format: Format, rulings: seq<Ruling>, f: Files, g: Files, h1: Files, h2: Files, to: nat)
    requires ValidRulings(format, rulings) && Extends(format, rulings, f, g, to)
    requires Covers(format, rulings, g, IndexBlock(format, f).value)
    requires IsIndexed(format, Due(rulings, IndexBlock(format, f).value, to), f, h1, to)
    requires IsIndexed(format, Due(rulings, IndexBlock(format, g).value, to), g, h2, to)
    ensures h1 == h2
  {
    var i, j := IndexBlock(format, f).value, IndexBlock(format, g).value;
    var early, late := Due(rulings, i, to), Due(rulings, j, to);
    DueAre(rulings, i, to);
    DueAre(rulings, j, to);
    forall p | p in h1 ensures p in h2 && h2[p] == h1[p] {
      if p != format.indexFile && p !in f {
        var r :| r in early && r.path == p && r.content == h1[p];
        if r.block <= j {
          assert r.path in g && g[r.path] == r.content;
        } else {
          assert r in late;
        }
      }
    }
    forall p | p in h2 ensures p in h1 {
      if p != format.indexFile && p !in f {
        if p in g {
          assert IsFileOf(rulings, p, g[p], i, to);
          var r :| r in rulings && r.path == p && i < r.block <= to;
          assert r in early;
        } else {
          var r :| r in late && r.path == p;
          assert r in early;
        }
      }
    }
  }

  // After every sequence of runs up to a block, failed and stopped ones included, a run
  // to that block completes exactly when it would have without them, and leaves the
  // same files.
  lemma {:induction false} RerunIsUninterrupted(
    format: Format, rulings: seq<Ruling>, files: Files, attempts: seq<Attempt>, to: nat)
    requires ValidFormat(format) && ValidRulings(format, rulings)
    requires IndexBlock(format, files).Some? && IndexBlock(format, files).value <= to
    requires forall a :: a in attempts ==> a.block <= to
    ensures var g := AfterAll(format, rulings, files, attempts);
            && OutcomeOf(format, rulings, g, FullRun(to)) == OutcomeOf(format, rulings, files, FullRun(to))
            && (OutcomeOf(format, rulings, files, FullRun(to)) == Completed ==>
                  After(format, rulings, g, FullRun(to)) == After(format, rulings, files, FullRun(to)))
  {
    var g := AfterAll(format, rulings, files, attempts);
    RunsKeep(format, rulings, files, attempts, to, IndexBlock(format, files).value);
    SameConflicts(format, rulings, files, g, to);
    if OutcomeOf(format, rulings, files, FullRun(to)) == Completed {
      CompletedIndexes(format, rulings, files, FullRun(to));
      CompletedIndexes(format, rulings, g, FullRun(to));
      IndexedAlike(format, rulings, files, g, After(format, rulings, files, FullRun(to)),
                   After(format, rulings, g, FullRun(to)), to);
    }
  }

  // The check comes before every write: a run that finds a file of a due ruling with
  // other contents changes nothing.
  lemma ConflictChangesNothing(format: Format, rulings: seq<Ruling>, files: Files, attempt: Attempt, r: Ruling)
    requires IndexBlock(format, files).Some? && IndexBlock(format, files).value < r.block <= attempt.block
    requires r in rulings && r.path in files && files[r.path] != r.content
    ensures OutcomeOf(format, rulings, files, attempt) == Failed
    ensures After(format, rulings, files, attempt) == files
  {
    DueAre(rulings, IndexBlock(format, files).value, attempt.block);
    assert r in Due(rulings, IndexBlock(format, files).value, attempt.block);
  }
}
