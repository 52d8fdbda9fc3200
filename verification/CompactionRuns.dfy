/** Whole runs of a directory: files added to level 0, compactions that look at the
    levels, take an id for their file, and update the manifest last
    (crates/lsm/src/compaction.rs, lines 79-178), and reopenings. The source has these
    steps but no code that strings them together; the runs are this model's. */
module CompactionRuns {
  import opened Wrappers
  import opened Bytes
  import opened Levels
  import opened EngineState
  import opened Merge
  import opened Versions
  import opened Compaction
  import opened CompactionTheorems
  import opened LevelSearch

  /** A compaction under way: the levels as it found them, and the id it has taken. */
  datatype Job = Job(found: LevelState, id: Option<u64>)

  /** `disk` holds the files that open; at most one compaction is running. */
  datatype Dir = Dir(m: Manifest, s: LevelState, disk: map<u64, Table>, running: Option<Job>)

  datatype Event =
    | AddFile(table: Table, minKey: Bytes, maxKey: Bytes) // a new file in front of level 0
    | Begin                                               // a compaction looks at the levels
    | TakeId                                              // it reads the id counter
    | Finish(merged: Table)                               // it updates the manifest and installs its file
    | ReopenDir                                           // a new process; a compaction under way is gone

  const START := Dir(FRESH_MANIFEST, OpenLevels(FRESH_MANIFEST.levels, map[]), map[], None)

  /** A compaction is ready to finish: it has planned and taken an id. */
  predicate Ready(d: Dir) {
    d.running.Some? && d.running.value.id.Some? && PlanFor(d.running.value.found).Some?
  }

  function PlanOf(d: Dir): Plan
    requires Ready(d)
  {
    PlanFor(d.running.value.found).value
  }

  function IdOf(d: Dir): u64
    requires Ready(d)
  {
    d.running.value.id.value
  }

  function Next(d: Dir, event: Event): Dir {
    match event
    case AddFile(table, minKey, maxKey) =>
      var id := NextId(d.m);
      var meta := SstMeta(id, minKey, maxKey, |table|);
      Dir(d.m.(nextSstId := id, levels := InFront(d.m.levels, meta)), WithL0(d.s, meta, table),
          d.disk[id := table], d.running)
    case Begin =>
      if d.running.Some? || PlanFor(d.s).None? then d else d.(running := Some(Job(d.s, None)))
    case TakeId =>
      if d.running.None? || d.running.value.id.Some? then d
      else d.(running := Some(Job(d.running.value.found, Some(NextId(d.m)))))
    case Finish(merged) =>
      if !Ready(d) then d else
      var meta := NewMeta(PlanOf(d), IdOf(d));
      Dir(UpdatedManifest(d.m, CompactedIds(PlanOf(d)), meta), WithL0(d.s, meta, merged),
          d.disk[IdOf(d) := merged], None)
    case ReopenDir => Dir(d.m, OpenLevels(d.m.levels, d.disk), d.disk, None)
  }

  function Run(events: seq<Event>): Dir {
    if events == [] then START else Next(Run(events[..|events| - 1]), events[|events| - 1])
  }

  /** Ids do not wrap, and a compaction finishes with a merge of what it found. */
  ghost predicate Legal(d: Dir, event: Event) {
    && (event.AddFile? || event.TakeId? ==> d.m.nextSstId < U64_MAX)
    && (event.Finish? && Ready(d) ==> IsMerge(InputTables(d.running.value.found, PlanOf(d)), event.merged))
  }

  /** A compaction finishes under an id that was given to a file since it took it. */
  predicate Clashes(d: Dir, event: Event) {
    event.Finish? && Ready(d) && (d.m.nextSstId == U64_MAX || IdOf(d) != NextId(d.m))
  }

  ghost predicate LegalRun(events: seq<Event>) {
    events != [] ==>
      var before, last := Run(events[..|events| - 1]), events[|events| - 1];
      LegalRun(events[..|events| - 1]) && Legal(before, last) && !Clashes(before, last)
  }

  /** Some file added in the run held the version. */
  predicate Added(events: seq<Event>, e: Entry) {
    events != [] && (Added(events[..|events| - 1], e) ||
                     (events[|events| - 1].AddFile? && e in events[|events| - 1].table))
  }

  ghost function AddedBy(events: seq<Event>): Entry -> bool {
    (e: Entry) => Added(events, e)
  }

  // ---------- the invariant ----------

  /** Every file of these levels is open with the contents it has on disk. */
  ghost predicate AllOpen(s: LevelState, disk: map<u64, Table>) {
    forall id :: id in LevelIds(s.levels) ==> id in s.readers && id in disk && s.readers[id] == disk[id]
  }

  ghost predicate FilesOk(d: Dir) {
    && (forall id :: id in d.disk ==> id <= d.m.nextSstId)
    && (forall id :: id in LevelIds(d.m.levels) ==> id in d.disk)
    && AllOpen(d.s, d.disk)
    && (d.running.Some? ==> AllOpen(d.running.value.found, d.disk))
  }

  /** The levels a compaction found are still there, behind files added since. */
  ghost predicate StillThere(found: LevelState, s: LevelState) {
    && found.levels != [] && s.levels != [] && Level1(found.levels) == Level1(s.levels)
    && forall x :: x in found.levels[0] ==> x in s.levels[0]
  }

  ghost predicate LevelsOk(d: Dir) {
    && |d.m.levels| == 3 && d.m.levels[2] == [] && DisjointRanges(d.m.levels[1]) && LevelOneKnown(d.m, d.s)
    && (d.running.Some? ==> LevelOneKnown(d.m, d.running.value.found) && StillThere(d.running.value.found, d.s))
  }

  /** Files hold only versions that were added, and every version added is matched
      by a listed one at least as new. */
  ghost predicate VersionsOk(d: Dir, held: Entry -> bool) {
    && (forall id, e :: id in d.disk && e in d.disk[id] ==> held(e))
    && CoveredBy(held, Before(d.m, d.disk))
  }

  ghost predicate Inv(d: Dir, held: Entry -> bool) {
    FilesOk(d) && LevelsOk(d) && VersionsOk(d, held)
  }

  /** A file under a fresh id in front of levels that are all open, opened as well. */
  lemma OpenInFront(s: LevelState, disk: map<u64, Table>, meta: SstMeta, table: Table)
    requires AllOpen(s, disk) && meta.id !in disk
    ensures AllOpen(WithL0(s, meta, table), disk[meta.id := table]) && AllOpen(s, disk[meta.id := table])
  {
    FrontIds(s.levels, meta);
  }

  /** Adding a file under a fresh id leaves the listed contents of the others alone. */
  lemma StillListed(ids: set<u64>, more: set<u64>, disk: map<u64, Table>, id: u64, table: Table, e: Entry)
    requires Listed(ids, disk, e) && id !in disk && ids <= more
    ensures Listed(more, disk[id := table], e)
  {
    var n :| n in ids && n in disk && e in disk[n];
    assert n in more && n in disk[id := table] && e in disk[id := table][n];
  }

  // ---------- a new file ----------

  lemma AddFiles(d: Dir, event: Event)
    requires FilesOk(d) && event.AddFile? && d.m.nextSstId < U64_MAX
    ensures FilesOk(Next(d, event)) && NextId(d.m) !in d.disk
  {
    var meta := SstMeta(NextId(d.m), event.minKey, event.maxKey, |event.table|);
    FrontIds(d.m.levels, meta);
    OpenInFront(d.s, d.disk, meta, event.table);
    if d.running.Some? {
      OpenInFront(d.running.value.found, d.disk, meta, event.table);
    }
  }

  lemma AddVersions(d: Dir, event: Event, held: Entry -> bool, held': Entry -> bool)
    requires VersionsOk(d, held) && event.AddFile? && NextId(d.m) !in d.disk
    requires forall e :: held'(e) <==> held(e) || e in event.table
    ensures VersionsOk(Next(d, event), held')
  {
    var d', id := Next(d, event), NextId(d.m);
    FrontIds(d.m.levels, SstMeta(id, event.minKey, event.maxKey, |event.table|));
    forall e | held'(e) ensures Matched(Before(d'.m, d'.disk), e) {
      if held(e) {
        assert Matched(Before(d.m, d.disk), e);
        var o :| Before(d.m, d.disk)(o) && o.key == e.key && e.seqNo <= o.seqNo;
        StillListed(LevelIds(d.m.levels), LevelIds(d'.m.levels), d.disk, id, event.table, o);
        assert Before(d'.m, d'.disk)(o);
      } else {
        assert id in LevelIds(d'.m.levels) && id in d'.disk && e in d'.disk[id];
        assert Before(d'.m, d'.disk)(e);
      }
    }
  }

  // ---------- a finished compaction ----------

  lemma PlannedIsFound(s: LevelState, i: nat)
    requires PlanFor(s).Some? && i < |Planned(PlanFor(s).value)|
    ensures Planned(PlanFor(s).value)[i].id in LevelIds(s.levels)
  {
    var plan := PlanFor(s).value;
    if i < |plan.l0| {
      assert Planned(plan)[i] == s.levels[0][i];
    } else {
      assert Planned(plan)[i] == plan.overlapping[i - |plan.l0|];
      OverlappingMember(Level1(s.levels), plan.minKey, plan.maxKey, Planned(plan)[i]);
      var r :| 0 <= r < |Level1(s.levels)| && Level1(s.levels)[r] == Planned(plan)[i];
      assert s.levels[1][r].id == Planned(plan)[i].id;
    }
  }

  lemma OpenIsMatch(s: LevelState, disk: map<u64, Table>)
    requires AllOpen(s, disk) && PlanFor(s).Some?
    ensures ReadersMatch(Planned(PlanFor(s).value), s.readers, disk)
  {
    forall i | 0 <= i < |Planned(PlanFor(s).value)| ensures Planned(PlanFor(s).value)[i].id in LevelIds(s.levels) {
      PlannedIsFound(s, i);
    }
  }

  lemma FinishFiles(d: Dir, event: Event)
    requires FilesOk(d) && event.Finish? && Ready(d) && !Clashes(d, event)
    ensures FilesOk(Next(d, event)) && IdOf(d) !in d.disk
  {
    var meta := NewMeta(PlanOf(d), IdOf(d));
    UpdatedIds(d.m, CompactedIds(PlanOf(d)), meta);
    OpenInFront(d.s, d.disk, meta, event.merged);
  }

  lemma FinishVersions(d: Dir, event: Event, held: Entry -> bool)
    requires FilesOk(d) && VersionsOk(d, held) && event.Finish? && Ready(d) && Legal(d, event)
    requires IdOf(d) !in d.disk
    ensures VersionsOk(Next(d, event), held)
  {
    var found, plan, d', id := d.running.value.found, PlanOf(d), Next(d, event), IdOf(d);
    OpenIsMatch(found, d.disk);
    forall e | e in event.merged ensures held(e) {
      MergedHolds(Planned(plan), found.readers, event.merged, e);
      var i :| 0 <= i < |Planned(plan)| && Planned(plan)[i].id in found.readers
               && e in found.readers[Planned(plan)[i].id];
    }
    forall e | held(e) ensures Matched(Before(d'.m, d'.disk), e) {
      assert Matched(Before(d.m, d.disk), e);
      var o :| Before(d.m, d.disk)(o) && o.key == e.key && e.seqNo <= o.seqNo;
      ListedOrPlanned(d.m, found, plan, id, d.disk, o);
      AfterSurvives(d.m, found, plan, id, event.merged, d.disk, o);
      assert Matched(Before(d'.m, d'.disk), o);
    }
  }

  lemma FinishLevels(d: Dir, event: Event)
    requires LevelsOk(d) && event.Finish? && Ready(d)
    ensures LevelsOk(Next(d, event))
  {
    var found, meta := d.running.value.found, NewMeta(PlanOf(d), IdOf(d));
    LevelOneStaysDisjoint(d.m, found, IdOf(d), event.merged);
    var m', s' := UpdatedManifest(d.m, CompactedIds(PlanOf(d)), meta), WithL0(d.s, meta, event.merged);
    var there := WithL0(found, meta, event.merged).levels;
    forall x | x in Level1(m'.levels) ensures x in s'.levels[0] || x in Level1(s'.levels) {
      assert x in there[0] || x in Level1(there);
      assert s'.levels[0] == [meta] + d.s.levels[0];
    }
  }

  // ---------- every step, every run ----------

  lemma StepKeeps(d: Dir, event: Event, held: Entry -> bool, held': Entry -> bool)
    requires Inv(d, held) && Legal(d, event) && !Clashes(d, event)
    requires forall e :: held'(e) <==> held(e) || (event.AddFile? && e in event.table)
    ensures Inv(Next(d, event), held')
  {
    if event.AddFile? {
      AddFiles(d, event);
      AddVersions(d, event, held, held');
    } else if event.Finish? && Ready(d) {
      FinishFiles(d, event);
      FinishVersions(d, event, held);
      FinishLevels(d, event);
    }
  }

  lemma GoodShape(d: Dir, held: Entry -> bool)
    requires Inv(d, held)
    ensures DisjointRanges(Level1(d.m.levels))
    ensures d.m.nextSstId < U64_MAX ==> NextId(d.m) !in d.disk
  {
  }

  lemma {:induction false} RunsAreGood(events: seq<Event>)
    requires LegalRun(events)
    ensures Inv(Run(events), AddedBy(events))
  {
    if events != [] {
      var init := events[..|events| - 1];
      RunsAreGood(init);
      StepKeeps(Run(init), events[|events| - 1], AddedBy(init), AddedBy(events));
    }
  }

  /** Whatever files were added and however many compactions and reopenings there
      were, a version is the newest of its key among the files the manifest lists
      exactly when it is the newest of its key ever added. */
  lemma RunsKeepVersions(events: seq<Event>, e: Entry)
    requires LegalRun(events) && Distinct(AddedBy(events))
    ensures Newest(Before(Run(events).m, Run(events).disk), e) <==> Newest(AddedBy(events), e)
  {
    RunsAreGood(events);
    SameNewest(AddedBy(events), Before(Run(events).m, Run(events).disk), e);
  }

  /** In every run the ranges of level 1 of the manifest are pairwise disjoint and
      the next file gets an id no file has, as long as ids do not wrap. */
  lemma RunsKeepShape(events: seq<Event>)
    requires LegalRun(events)
    ensures DisjointRanges(Level1(Run(events).m.levels))
    ensures Run(events).m.nextSstId < U64_MAX ==> NextId(Run(events).m) !in Run(events).disk
  {
    RunsAreGood(events);
    GoodShape(Run(events), AddedBy(events));
  }

  /** From any reachable state, for every key: what a lookup finds when the directory is
      reopened after a compaction has finished; a key that was not merged is looked up as
      if the directory had been reopened without it. */
  lemma ReopenedExactly(d: Dir, event: Event, held: Entry -> bool, key: Bytes, readSeq: nat)
    requires Inv(d, held) && Legal(d, event) && event.Finish? && Ready(d) && !Clashes(d, event)
    ensures var before, after := Next(d, ReopenDir), Next(Next(d, event), ReopenDir);
            && TablesGet(after.s, key, readSeq) ==
               ReopenedGet(d.m, PlanOf(d), IdOf(d), event.merged, d.disk, key, readSeq)
            && (!HasKey(event.merged, key) ==> TablesGet(after.s, key, readSeq) == TablesGet(before.s, key, readSeq))
  {
    var found, plan := d.running.value.found, PlanOf(d);
    OpenIsMatch(found, d.disk);
    FinishFiles(d, event);
    ReopenedReads(d.m, found, plan, IdOf(d), event.merged, d.disk, key, readSeq);
    if !HasKey(event.merged, key) {
      UnmergedReads(d.m, found, plan, IdOf(d), event.merged, d.disk, key, readSeq);
    }
  }

  // ---------- an id given twice ----------

  /** Finishing in any reachable state, under a fresh id or not: the newest versions stay
      exactly when every one in the file whose id is reused also survives elsewhere. */
  lemma FinishExactly(d: Dir, event: Event, held: Entry -> bool)
    requires Inv(d, held) && Distinct(held) && Legal(d, event) && event.Finish? && Ready(d)
    ensures var d' := Next(d, event);
            (forall e :: Newest(Before(d.m, d.disk), e) <==> Newest(Before(d'.m, d'.disk), e)) <==>
            (forall e :: Newest(Before(d.m, d.disk), e) && InFile(d, IdOf(d), e) ==>
               Survives(d.m, d.running.value.found, PlanOf(d), IdOf(d), d.disk, e))
  {
    var found, plan := d.running.value.found, PlanOf(d);
    FoundIsCovered(d, held);
    LostExactly(d.m, found, plan, IdOf(d), event.merged, d.disk);
    forall e ensures AtRisk(d.m, found, plan, IdOf(d), d.disk, e) <==> InFile(d, IdOf(d), e) {
      OnlyReusedAtRisk(d, held, e);
    }
  }

  /** The manifest lists a file under this id that holds the entry. */
  predicate InFile(d: Dir, id: u64, e: Entry) {
    id in LevelIds(d.m.levels) && id in d.disk && e in d.disk[id]
  }

  lemma OnlyReusedAtRisk(d: Dir, held: Entry -> bool, e: Entry)
    requires Inv(d, held) && Ready(d)
    ensures AtRisk(d.m, d.running.value.found, PlanOf(d), IdOf(d), d.disk, e) <==> InFile(d, IdOf(d), e)
  {
    OpenIsMatch(d.running.value.found, d.disk);
    if AtRisk(d.m, d.running.value.found, PlanOf(d), IdOf(d), d.disk, e) {
      var id :| && id in LevelIds(d.m.levels) && id in d.disk && e in d.disk[id]
                && (id == IdOf(d) || (id in CompactedIds(PlanOf(d)) && id !in d.running.value.found.readers));
    }
  }

  lemma FoundIsCovered(d: Dir, held: Entry -> bool)
    requires Inv(d, held) && Distinct(held) && Ready(d)
    ensures PlannedCovered(d.m, d.running.value.found, PlanOf(d), d.disk)
  {
    var found, plan := d.running.value.found, PlanOf(d);
    OpenIsMatch(found, d.disk);
    forall e | InOpened(Planned(plan), found.readers, e) ensures held(e) {
      var i :| 0 <= i < |Planned(plan)| && Planned(plan)[i].id in found.readers
               && e in found.readers[Planned(plan)[i].id];
    }
    forall e | Before(d.m, d.disk)(e) ensures held(e) {
      var id :| id in LevelIds(d.m.levels) && id in d.disk && e in d.disk[id];
    }
  }

  const FIRST := Entry([1], 1, false, [7])
  const SECOND := Entry([2], 2, false, [9])
  const FIRST_FILE := SstMeta(1, [1], [1], 1)
  const SECOND_FILE := SstMeta(2, [2], [2], 1)
  const ONE_FILE := Dir(Manifest(0, 1, [[FIRST_FILE], [], []]), LevelState([[FIRST_FILE], [], []], map[1 := [FIRST]]),
                        map[1 := [FIRST]], None)
  const WITH_ID := ONE_FILE.(running := Some(Job(ONE_FILE.s, Some(2))))
  const SAME_ID := Dir(Manifest(0, 2, [[SECOND_FILE, FIRST_FILE], [], []]),
                       LevelState([[SECOND_FILE, FIRST_FILE], [], []], map[1 := [FIRST], 2 := [SECOND]]),
                       map[1 := [FIRST], 2 := [SECOND]], WITH_ID.running)

  lemma ClashPlan()
    ensures PlanFor(ONE_FILE.s) == Some(Plan([FIRST_FILE], [], [1], [1]))
    ensures InputTables(ONE_FILE.s, PlanFor(ONE_FILE.s).value) == [[FIRST]] && IsMerge([[FIRST]], [FIRST])
  {
    assert ONE_FILE.s.levels[0] == [FIRST_FILE] && Level1(ONE_FILE.s.levels) == [];
    assert SmallestMin([FIRST_FILE]) == [1] && LargestMax([FIRST_FILE]) == [1];
    assert [FIRST_FILE] + [] == [FIRST_FILE] && [FIRST_FILE][1..] == [];
    assert TablesOf([FIRST_FILE], ONE_FILE.s.readers) == [[FIRST]] + TablesOf([], ONE_FILE.s.readers) == [[FIRST]];
    assert [[FIRST]][0][0] == FIRST && IsVersion([[FIRST]], FIRST);
  }

  lemma ReachOneFile()
    ensures Next(START, AddFile([FIRST], [1], [1])) == ONE_FILE
  {
    assert FRESH_MANIFEST.levels == [[], [], []] && [FIRST_FILE] + [] == [FIRST_FILE];
    assert InFront([[], [], []], FIRST_FILE) == [[FIRST_FILE], [], []];
    assert START.s.readers == map[];
  }

  lemma ReachSameId()
    ensures Next(Next(ONE_FILE, Begin), TakeId) == WITH_ID
    ensures Next(WITH_ID, AddFile([SECOND], [2], [2])) == SAME_ID
  {
    ClashPlan();
    assert [SECOND_FILE] + [FIRST_FILE] == [SECOND_FILE, FIRST_FILE];
    assert InFront([[FIRST_FILE], [], []], SECOND_FILE) == [[SECOND_FILE, FIRST_FILE], [], []];
  }

  /** It does happen: a file added between the moment a compaction takes its id and the
      moment it finishes gets the same id, is overwritten, and its entry is gone. */
  lemma IdClashExample()
    ensures Next(START, AddFile([FIRST], [1], [1])) == ONE_FILE
    ensures Next(Next(ONE_FILE, Begin), TakeId) == WITH_ID
    ensures Next(WITH_ID, AddFile([SECOND], [2], [2])) == SAME_ID
    ensures Legal(SAME_ID, Finish([FIRST])) && Clashes(SAME_ID, Finish([FIRST]))
    ensures Newest(Before(SAME_ID.m, SAME_ID.disk), SECOND)
    ensures var d := Next(SAME_ID, Finish([FIRST]));
            !Before(d.m, d.disk)(SECOND)
  {
    ReachOneFile();
    ReachSameId();
    ClashPlan();
    assert SAME_ID.m.levels[0][0].id == 2 && SECOND in SAME_ID.disk[2];
    assert Before(SAME_ID.m, SAME_ID.disk)(SECOND);
    assert Next(SAME_ID, Finish([FIRST])).disk == map[1 := [FIRST], 2 := [FIRST]];
  }
}
