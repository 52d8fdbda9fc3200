/** Levels over a whole process: files are added to level 0, and compactions look at the
    levels, merge, and install while more files may be added (crates/lsm/src/compaction.rs,
    lines 79-178). What the compactions change of lookups and scans. */
module LevelRuns {
  import opened Wrappers
  import opened Bytes
  import opened Levels
  import opened EngineState
  import opened Merge
  import opened Compaction
  import opened InstallTheorems
  import opened LateInstall
  import opened LevelScan

  datatype Step =
    | Add(file: File)
    | Compact(during: seq<File>, id: u64, merged: Table) // planned first, installed behind the files added meanwhile

  function FilesOf(step: Step): seq<File> {
    match step case Add(file) => [file] case Compact(during, _, _) => during
  }

  function Take(s: LevelState, step: Step): LevelState {
    var now := AddAll(s, FilesOf(step));
    if step.Add? || PlanFor(s).None? then now else WithL0(now, NewMeta(PlanFor(s).value, step.id), step.merged)
  }

  function TakeAll(s: LevelState, steps: seq<Step>): LevelState
    decreases |steps|
  {
    if steps == [] then s else TakeAll(Take(s, steps[0]), steps[1..])
  }

  function AllFiles(steps: seq<Step>): seq<File> {
    if steps == [] then [] else FilesOf(steps[0]) + AllFiles(steps[1..])
  }

  /** Added files are visible and have fresh ids; a compaction installs, under a fresh id,
      a merge of what it planned. */
  ghost predicate StepOk(s: LevelState, step: Step, readSeq: nat) {
    && AddsFresh(s, FilesOf(step))
    && (forall i :: 0 <= i < |FilesOf(step)| ==> VisibleTable(FilesOf(step)[i].table, readSeq))
    && (step.Compact? && PlanFor(s).Some? ==>
          && step.id !in LevelIds(AddAll(s, step.during).levels)
          && IsMerge(InputTables(s, PlanFor(s).value), step.merged))
  }

  ghost predicate VisibleTable(t: Table, readSeq: nat) {
    AscendingKeys(t) && forall m :: 0 <= m < |t| ==> t[m].seqNo <= readSeq
  }

  ghost predicate StepsOk(s: LevelState, steps: seq<Step>, readSeq: nat)
    decreases |steps|
  {
    steps != [] ==> StepOk(s, steps[0], readSeq) && StepsOk(Take(s, steps[0]), steps[1..], readSeq)
  }

  /** Files are newer for the key than what is there, and none that holds the key is
      added while a compaction is under way. */
  ghost predicate StepQuiet(s: LevelState, step: Step, key: Bytes) {
    match step
    case Add(file) => NewerThanLevels(file.table, s, key)
    case Compact(during, _, _) => forall i :: 0 <= i < |during| ==> !HasKey(during[i].table, key)
  }

  ghost predicate StepsQuiet(s: LevelState, steps: seq<Step>, key: Bytes)
    decreases |steps|
  {
    steps != [] ==> StepQuiet(s, steps[0], key) && StepsQuiet(Take(s, steps[0]), steps[1..], key)
  }

  ghost predicate NewerThanLevels(t: Table, s: LevelState, key: Bytes) {
    && (s.levels != [] ==> forall i :: 0 <= i < |s.levels[0]| && s.levels[0][i].id in s.readers ==>
          NewerFor(t, s.readers[s.levels[0][i].id], key))
    && forall r :: 0 <= r < |Level1(s.levels)| && Level1(s.levels)[r].id in s.readers ==>
         NewerFor(t, s.readers[Level1(s.levels)[r].id], key)
  }

  // ---------- lookups ----------

  lemma {:induction false} AddsKeepOrder(s: LevelState, files: seq<File>, readSeq: nat, key: Bytes)
    requires s.levels != [] && AddsFresh(s, files)
    requires SearchOrderFor(s.levels[0], Level1(s.levels), s.readers, readSeq, key)
    requires forall i :: 0 <= i < |files| ==> VisibleTable(files[i].table, readSeq) && !HasKey(files[i].table, key)
    ensures var now := AddAll(s, files);
            now.levels != [] && SearchOrderFor(now.levels[0], Level1(now.levels), now.readers, readSeq, key)
    ensures AddedGet(files, key, readSeq) == None
  {
    if files != [] {
      var n := |files| - 1;
      AddsKeepOrder(s, files[..n], readSeq, key);
      AddsKeep(s, files[..n]);
      OrderInFront(AddAll(s, files[..n]), files[n].meta, files[n].table, readSeq, key);
      TableGetAbsent(files[n].table, key, readSeq);
    }
  }

  /** One step: a lookup is as if only the files had been added, and the order stays. */
  lemma StepInvisible(s: LevelState, step: Step, readSeq: nat, key: Bytes)
    requires s.levels != [] && SearchOrderFor(s.levels[0], Level1(s.levels), s.readers, readSeq, key)
    requires StepOk(s, step, readSeq) && StepQuiet(s, step, key)
    ensures var s' := Take(s, step);
            && s'.levels != [] && SearchOrderFor(s'.levels[0], Level1(s'.levels), s'.readers, readSeq, key)
            && TablesGet(s', key, readSeq) == Or(AddedGet(FilesOf(step), key, readSeq), TablesGet(s, key, readSeq))
  {
    AddedLookup(s, FilesOf(step), key, readSeq);
    match step
    case Add(file) =>
      assert [file][..0] == [] && AddAll(s, []) == s;
      assert AddAll(s, [file]) == WithL0(s, file.meta, file.table);
      assert VisibleTable(FilesOf(step)[0].table, readSeq);
      OrderInFront(s, file.meta, file.table, readSeq, key);
    case Compact(during, id, merged) =>
      AddsKeepOrder(s, during, readSeq, key);
      if PlanFor(s).Some? {
        LateInstallExactly(s, during, id, merged, key, readSeq);
        LateOrderFor(s, during, id, merged, readSeq, key);
      }
  }

  lemma {:induction false} AddedGetAppend(first: seq<File>, more: seq<File>, key: Bytes, readSeq: nat)
    ensures AddedGet(first + more, key, readSeq) ==
            Or(AddedGet(more, key, readSeq), AddedGet(first, key, readSeq))
  {
    if more == [] {
      assert first + more == first;
    } else {
      var n := |more| - 1;
      assert (first + more)[..|first + more| - 1] == first + more[..n];
      AddedGetAppend(first, more[..n], key, readSeq);
    }
  }

  /** Over a whole process, a key that no file added during a compaction holds is looked
      up as if there had been no compaction at all: the last added file with a live
      version of it answers, and otherwise the levels as they were opened. */
  lemma {:induction false} CompactionsInvisible(s: LevelState, steps: seq<Step>, key: Bytes, readSeq: nat)
    requires s.levels != [] && SearchOrderFor(s.levels[0], Level1(s.levels), s.readers, readSeq, key)
    requires StepsOk(s, steps, readSeq) && StepsQuiet(s, steps, key)
    ensures TablesGet(TakeAll(s, steps), key, readSeq) ==
            Or(AddedGet(AllFiles(steps), key, readSeq), TablesGet(s, key, readSeq))
    decreases |steps|
  {
    if steps != [] {
      StepInvisible(s, steps[0], readSeq, key);
      CompactionsInvisible(Take(s, steps[0]), steps[1..], key, readSeq);
      AddedGetAppend(FilesOf(steps[0]), AllFiles(steps[1..]), key, readSeq);
    }
  }

  // ---------- scans ----------

  lemma {:induction false} AddsKeepTables(s: LevelState, files: seq<File>, readSeq: nat)
    requires s.levels != [] && AddsFresh(s, files) && TablesOk(s.levels[0], Level1(s.levels), s.readers, readSeq)
    requires forall i :: 0 <= i < |files| ==> VisibleTable(files[i].table, readSeq)
    ensures var now := AddAll(s, files);
            now.levels != [] && TablesOk(now.levels[0], Level1(now.levels), now.readers, readSeq)
  {
    if files != [] {
      var n := |files| - 1;
      AddsKeepTables(s, files[..n], readSeq);
      FrontReaders(AddAll(s, files[..n]), files[n].meta, files[n].table);
    }
  }

  lemma StepKeepsTables(s: LevelState, step: Step, readSeq: nat)
    requires s.levels != [] && TablesOk(s.levels[0], Level1(s.levels), s.readers, readSeq) && StepOk(s, step, readSeq)
    ensures var s' := Take(s, step);
            s'.levels != [] && TablesOk(s'.levels[0], Level1(s'.levels), s'.readers, readSeq)
  {
    AddsKeepTables(s, FilesOf(step), readSeq);
    if step.Compact? && PlanFor(s).Some? {
      var now, meta := AddAll(s, step.during), NewMeta(PlanFor(s).value, step.id);
      MergedOpenInFront(s, now, meta, step.merged, readSeq);
      FrontReaders(now, meta, step.merged);
    }
  }

  lemma {:induction false} StepsKeepTables(s: LevelState, steps: seq<Step>, readSeq: nat)
    requires s.levels != [] && TablesOk(s.levels[0], Level1(s.levels), s.readers, readSeq) && StepsOk(s, steps, readSeq)
    ensures var s' := TakeAll(s, steps);
            s'.levels != [] && TablesOk(s'.levels[0], Level1(s'.levels), s'.readers, readSeq)
    decreases |steps|
  {
    if steps != [] {
      StepKeepsTables(s, steps[0], readSeq);
      StepsKeepTables(Take(s, steps[0]), steps[1..], readSeq);
    }
  }

  /** Whatever happened before in the process, a compaction changes no scan: after it
      every scan is as after adding the files that were added meanwhile. */
  lemma CompactionInvisibleToScans(s: LevelState, steps: seq<Step>, next: Step, prefix: Bytes, readSeq: nat)
    requires s.levels != [] && TablesOk(s.levels[0], Level1(s.levels), s.readers, readSeq) && StepsOk(s, steps, readSeq)
    requires next.Compact? && StepOk(TakeAll(s, steps), next, readSeq)
    ensures var before := AddAll(TakeAll(s, steps), next.during);
            var after := Take(TakeAll(s, steps), next);
            ScanTables(after.levels, after.readers, prefix, readSeq) ==
            ScanTables(before.levels, before.readers, prefix, readSeq)
  {
    var found := TakeAll(s, steps);
    StepsKeepTables(s, steps, readSeq);
    AddsKeepTables(found, next.during, readSeq);
    if PlanFor(found).Some? {
      InstallInvisibleToScans(found, next.during, next.id, next.merged, prefix, readSeq);
    }
  }

  /** With no files added at all, lookups and scans alike are as they were at first. */
  lemma {:induction false} InstallsInvisible(s: LevelState, steps: seq<Step>, key: Bytes, prefix: Bytes, readSeq: nat)
    requires s.levels != [] && SearchOrderFor(s.levels[0], Level1(s.levels), s.readers, readSeq, key)
    requires StepsOk(s, steps, readSeq) && AllFiles(steps) == []
    ensures var s' := TakeAll(s, steps);
            && TablesGet(s', key, readSeq) == TablesGet(s, key, readSeq)
            && ScanTables(s'.levels, s'.readers, prefix, readSeq) == ScanTables(s.levels, s.readers, prefix, readSeq)
    decreases |steps|
  {
    if steps != [] {
      assert FilesOf(steps[0]) == [] && AllFiles(steps[1..]) == [];
      StepInvisible(s, steps[0], readSeq, key);
      assert TakeAll(s, []) == s;
      CompactionInvisibleToScans(s, [], steps[0], prefix, readSeq);
      InstallsInvisible(Take(s, steps[0]), steps[1..], key, prefix, readSeq);
    }
  }
}
