/** What compaction keeps: the newest version of every key, the shape of level 1,
    the bound on table ids, and what point lookups return. */
module CompactionTheorems {
  import opened Wrappers
  import opened Bytes
  import opened Sequences
  import opened Levels
  import opened Merge
  import opened Versions
  import opened Compaction
  import opened SsTableBuilder
  import opened SsTableReader
  import opened SsTableTheorems
  import Flush

  // ---------- versions over files ----------

  /** Some listed file on disk holds the entry. */
  ghost predicate Listed(ids: set<u64>, disk: map<u64, Table>, e: Entry) {
    exists id :: id in ids && id in disk && e in disk[id]
  }

  ghost function ListedIn(ids: set<u64>, disk: map<u64, Table>): Entry -> bool {
    (e: Entry) => Listed(ids, disk, e)
  }

  /** Some of these files is open and holds the entry. */
  ghost predicate InOpened(metas: seq<SstMeta>, readers: map<u64, Table>, e: Entry) {
    exists i :: 0 <= i < |metas| && metas[i].id in readers && e in readers[metas[i].id]
  }

  ghost function OpenedIn(metas: seq<SstMeta>, readers: map<u64, Table>): Entry -> bool {
    (e: Entry) => InOpened(metas, readers, e)
  }

  /** The tables of some files are those of the files that opened. */
  lemma {:induction false} TablesOfOpened(metas: seq<SstMeta>, readers: map<u64, Table>, i: nat) returns (n: nat)
    requires i < |TablesOf(metas, readers)|
    ensures n < |metas| && metas[n].id in readers && readers[metas[n].id] == TablesOf(metas, readers)[i]
  {
    if metas[0].id in readers && i == 0 {
      n := 0;
    } else {
      n := TablesOfOpened(metas[1..], readers, if metas[0].id in readers then i - 1 else i);
      n := n + 1;
    }
  }

  lemma {:induction false} TableOfOpened(metas: seq<SstMeta>, readers: map<u64, Table>, n: nat) returns (i: nat)
    requires n < |metas| && metas[n].id in readers
    ensures i < |TablesOf(metas, readers)| && readers[metas[n].id] == TablesOf(metas, readers)[i]
  {
    if n == 0 {
      i := 0;
    } else {
      i := TableOfOpened(metas[1..], readers, n - 1);
      i := if metas[0].id in readers then i + 1 else i;
    }
  }

  /** What a merge holds comes from the files that opened, and it holds every key
      they hold, at least as new. */
  lemma MergedHolds(metas: seq<SstMeta>, readers: map<u64, Table>, merged: Table, e: Entry)
    requires IsMerge(TablesOf(metas, readers), merged)
    ensures e in merged ==> InOpened(metas, readers, e)
    ensures InOpened(metas, readers, e) ==> exists o :: o in merged && o.key == e.key && e.seqNo <= o.seqNo
  {
    var tables := TablesOf(metas, readers);
    if e in merged {
      var n :| 0 <= n < |merged| && merged[n] == e;
      assert IsVersion(tables, merged[n]);
      var i, j :| 0 <= i < |tables| && 0 <= j < |tables[i]| && tables[i][j] == e;
      var k := TablesOfOpened(metas, readers, i);
      assert e in readers[metas[k].id];
    }
    if InOpened(metas, readers, e) {
      var k :| 0 <= k < |metas| && metas[k].id in readers && e in readers[metas[k].id];
      var i := TableOfOpened(metas, readers, k);
      var j :| 0 <= j < |tables[i]| && tables[i][j] == e;
      assert HasKey(merged, tables[i][j].key);
      var n :| 0 <= n < |merged| && merged[n].key == e.key;
      assert IsNewest(tables, merged[n]);
      assert merged[n] in merged && merged[n].key == e.key && e.seqNo <= merged[n].seqNo;
    }
  }

  // ---------- the manifest update ----------

  lemma {:induction false} RetainMember(level: seq<SstMeta>, ids: set<u64>, meta: SstMeta)
    ensures meta in Retain(level, ids) <==> meta in level && meta.id !in ids
  {
    if level != [] {
      RetainMember(level[1..], ids, meta);
      assert meta in level <==> meta == level[0] || meta in level[1..];
    }
  }

  lemma IdListed(levels: seq<seq<SstMeta>>, id: u64)
    ensures id in LevelIds(levels) <==> exists i, meta :: 0 <= i < |levels| && meta in levels[i] && meta.id == id
  {
    if id in LevelIds(levels) {
      var i, j :| 0 <= i < |levels| && 0 <= j < |levels[i]| && levels[i][j].id == id;
      assert levels[i][j] in levels[i];
    }
    if i, meta :| 0 <= i < |levels| && meta in levels[i] && meta.id == id {
      var j :| 0 <= j < |levels[i]| && levels[i][j] == meta;
      assert levels[i][j].id == id;
    }
  }

  lemma FrontIds(levels: seq<seq<SstMeta>>, meta: SstMeta)
    ensures LevelIds(InFront(levels, meta)) == LevelIds(levels) + {meta.id}
  {
    var after := InFront(levels, meta);
    forall id ensures id in LevelIds(after) <==> id in LevelIds(levels) + {meta.id} {
      if id in LevelIds(after) {
        var i, j :| 0 <= i < |after| && 0 <= j < |after[i]| && after[i][j].id == id;
        if i > 0 || j > 0 {
          assert levels[i][if i == 0 then j - 1 else j].id == id;
        }
      }
      if id in LevelIds(levels) {
        var i, j :| 0 <= i < |levels| && 0 <= j < |levels[i]| && levels[i][j].id == id;
        assert after[i][if i == 0 then j + 1 else j].id == id;
      }
      assert after[0][0] == meta;
    }
  }

  /** Level i of the updated manifest, by its members. */
  lemma UpdatedLevel(m: Manifest, compacted: set<u64>, meta: SstMeta, i: nat, x: SstMeta)
    requires i < |UpdatedManifest(m, compacted, meta).levels|
    ensures x in UpdatedManifest(m, compacted, meta).levels[i] <==>
            (i == 1 && x == meta) || (i < |m.levels| && x in m.levels[i] && x.id !in compacted)
  {
    if i < |m.levels| {
      RetainMember(m.levels[i], compacted, x);
    }
  }

  /** Files are exchanged, none is lost: the updated manifest lists what it listed
      except the compacted ids, and the new one, whatever was added to it since
      the levels were looked at. */
  /** What else the update does: the flushed number stays, the id counter becomes the new
      id, there are at least two levels, and the new file is the last of level 1. */
  lemma UpdatedFields(m: Manifest, compacted: set<u64>, meta: SstMeta)
    ensures var after := UpdatedManifest(m, compacted, meta);
            && after.walFlushedSeq == m.walFlushedSeq && after.nextSstId == meta.id
            && |after.levels| == (if |m.levels| < 2 then 2 else |m.levels|)
            && after.levels[1] != [] && after.levels[1][|after.levels[1]| - 1] == meta
  {
  }

  lemma UpdatedIds(m: Manifest, compacted: set<u64>, meta: SstMeta)
    ensures LevelIds(UpdatedManifest(m, compacted, meta).levels) == LevelIds(m.levels) - compacted + {meta.id}
  {
    var after := UpdatedManifest(m, compacted, meta).levels;
    forall id ensures id in LevelIds(after) <==> id in LevelIds(m.levels) - compacted + {meta.id} {
      IdListed(after, id);
      IdListed(m.levels, id);
      if id in LevelIds(after) {
        var i: nat, x: SstMeta :| 0 <= i < |after| && x in after[i] && x.id == id;
        UpdatedLevel(m, compacted, meta, i, x);
      }
      if id == meta.id {
        UpdatedLevel(m, compacted, meta, 1, meta);
        assert meta in after[1];
      } else if id in LevelIds(m.levels) && id !in compacted {
        var i: nat, x: SstMeta :| 0 <= i < |m.levels| && x in m.levels[i] && x.id == id;
        UpdatedLevel(m, compacted, meta, i, x);
        assert x in after[i];
      }
    }
  }

  /** All these files are open, with the contents they have on disk. */
  ghost predicate ReadersMatch(metas: seq<SstMeta>, readers: map<u64, Table>, disk: map<u64, Table>) {
    forall i :: 0 <= i < |metas| ==>
      metas[i].id in readers && metas[i].id in disk && readers[metas[i].id] == disk[metas[i].id]
  }

  /** The files a compaction merges. */
  function Planned(plan: Plan): seq<SstMeta> {
    plan.l0 + plan.overlapping
  }

  /** What a compaction leaves: the listed files that it neither takes nor overwrites,
      and those it takes as far as they opened. */
  ghost predicate Survives(m: Manifest, s: LevelState, plan: Plan, newId: u64, disk: map<u64, Table>, e: Entry) {
    Listed(LevelIds(m.levels) - CompactedIds(plan) - {newId}, disk, e) || InOpened(Planned(plan), s.readers, e)
  }

  ghost function Survivors(m: Manifest, s: LevelState, plan: Plan, newId: u64, disk: map<u64, Table>): Entry -> bool {
    (e: Entry) => Survives(m, s, plan, newId, disk, e)
  }

  /** What the manifest lists before a compaction. */
  ghost function Before(m: Manifest, disk: map<u64, Table>): Entry -> bool {
    ListedIn(LevelIds(m.levels), disk)
  }

  /** What the updated manifest lists, with the merged file on disk. */
  ghost function After(m: Manifest, plan: Plan, newId: u64, merged: Table, disk: map<u64, Table>): Entry -> bool {
    ListedIn(LevelIds(UpdatedManifest(m, CompactedIds(plan), NewMeta(plan, newId)).levels), disk[newId := merged])
  }

  lemma AfterSurvives(m: Manifest, s: LevelState, plan: Plan, newId: u64, merged: Table,
                      disk: map<u64, Table>, e: Entry)
    requires IsMerge(InputTables(s, plan), merged)
    ensures After(m, plan, newId, merged, disk)(e) ==> Survives(m, s, plan, newId, disk, e)
    ensures Survives(m, s, plan, newId, disk, e) ==> Matched(After(m, plan, newId, merged, disk), e)
  {
    var meta, disk' := NewMeta(plan, newId), disk[newId := merged];
    var ids := LevelIds(UpdatedManifest(m, CompactedIds(plan), meta).levels);
    var stay := LevelIds(m.levels) - CompactedIds(plan) - {newId};
    UpdatedIds(m, CompactedIds(plan), meta);
    MergedHolds(Planned(plan), s.readers, merged, e);
    if Listed(ids, disk', e) {
      var id :| id in ids && id in disk' && e in disk'[id];
      if id != newId {
        assert id in stay && e in disk[id];
      }
    }
    if Listed(stay, disk, e) {
      var id :| id in stay && id in disk && e in disk[id];
      assert id in ids && e in disk'[id];
      assert After(m, plan, newId, merged, disk)(e);
    } else if InOpened(Planned(plan), s.readers, e) {
      var o :| o in merged && o.key == e.key && e.seqNo <= o.seqNo;
      assert newId in ids && o in disk'[newId];
      assert After(m, plan, newId, merged, disk)(o);
    }
  }

  /** The newest versions over the listed files after a compaction are exactly the
      newest survivors, whatever files did not open and whatever id the new one has. */
  lemma NewestAfterExactly(m: Manifest, s: LevelState, plan: Plan, newId: u64, merged: Table,
                           disk: map<u64, Table>, e: Entry)
    requires IsMerge(InputTables(s, plan), merged) && Distinct(Survivors(m, s, plan, newId, disk))
    ensures Newest(After(m, plan, newId, merged, disk), e) <==> Newest(Survivors(m, s, plan, newId, disk), e)
  {
    forall d {
      AfterSurvives(m, s, plan, newId, merged, disk, d);
    }
    SameNewest(Survivors(m, s, plan, newId, disk), After(m, plan, newId, merged, disk), e);
  }

  /** Compaction keeps version resolution exactly when every newest listed version
      survives and no survivor is newer than what was listed. */
  lemma ResolutionKeptExactly(m: Manifest, s: LevelState, plan: Plan, newId: u64, merged: Table, disk: map<u64, Table>)
    requires IsMerge(InputTables(s, plan), merged) && Distinct(Survivors(m, s, plan, newId, disk))
    ensures (forall e :: Newest(Before(m, disk), e) <==> Newest(After(m, plan, newId, merged, disk), e)) <==>
            && (forall e :: Newest(Before(m, disk), e) ==> Survives(m, s, plan, newId, disk, e))
            && (forall e :: Newest(Survivors(m, s, plan, newId, disk), e) ==> Listed(LevelIds(m.levels), disk, e))
  {
    var survivors := Survivors(m, s, plan, newId, disk);
    forall e {
      NewestAfterExactly(m, s, plan, newId, merged, disk, e);
    }
    SameNewestExactly(Before(m, disk), survivors);
    assert forall e :: survivors(e) <==> Survives(m, s, plan, newId, disk, e);
  }

  /** The planned files that are open have the contents they have on disk, those that an
      earlier compaction dropped from the manifest included, and every version in them is
      matched by a listed one at least as new. */
  ghost predicate PlannedCovered(m: Manifest, s: LevelState, plan: Plan, disk: map<u64, Table>) {
    && (forall id :: id in CompactedIds(plan) && id in s.readers && id in disk ==> s.readers[id] == disk[id])
    && CoveredBy(OpenedIn(Planned(plan), s.readers), Before(m, disk))
    && Distinct(Either(Before(m, disk), OpenedIn(Planned(plan), s.readers)))
  }

  /** Some listed file holds the entry that the compaction drops without having read it,
      or overwrites. */
  ghost predicate AtRisk(m: Manifest, s: LevelState, plan: Plan, newId: u64, disk: map<u64, Table>, e: Entry) {
    exists id :: && id in LevelIds(m.levels) && id in disk && e in disk[id]
                 && (id == newId || (id in CompactedIds(plan) && id !in s.readers))
  }

  /** What a compaction can lose is only what an unopened planned file held, or the file
      whose id it reuses: version resolution is kept exactly when every newest version in
      such a file also survives elsewhere. */
  lemma LostExactly(m: Manifest, s: LevelState, plan: Plan, newId: u64, merged: Table, disk: map<u64, Table>)
    requires IsMerge(InputTables(s, plan), merged) && PlannedCovered(m, s, plan, disk)
    ensures (forall e :: Newest(Before(m, disk), e) <==> Newest(After(m, plan, newId, merged, disk), e)) <==>
            (forall e :: Newest(Before(m, disk), e) && AtRisk(m, s, plan, newId, disk, e) ==>
               Survives(m, s, plan, newId, disk, e))
  {
    forall e | Survives(m, s, plan, newId, disk, e)
      ensures Either(Before(m, disk), OpenedIn(Planned(plan), s.readers))(e)
    {
      SurvivorIsKnown(m, s, plan, newId, disk, e);
    }
    ResolutionKeptExactly(m, s, plan, newId, merged, disk);
    forall e | Listed(LevelIds(m.levels), disk, e) && !AtRisk(m, s, plan, newId, disk, e)
      ensures Survives(m, s, plan, newId, disk, e)
    {
      SafeSurvives(m, s, plan, newId, disk, e);
    }
    if forall e :: Newest(Before(m, disk), e) ==> Survives(m, s, plan, newId, disk, e) {
      forall e | Newest(Survivors(m, s, plan, newId, disk), e) ensures Listed(LevelIds(m.levels), disk, e) {
        NewestSurvivorIsListed(m, s, plan, newId, disk, e);
      }
    }
  }

  lemma SurvivorIsKnown(m: Manifest, s: LevelState, plan: Plan, newId: u64, disk: map<u64, Table>, e: Entry)
    requires Survives(m, s, plan, newId, disk, e)
    ensures Listed(LevelIds(m.levels), disk, e) || InOpened(Planned(plan), s.readers, e)
  {
    if !InOpened(Planned(plan), s.readers, e) {
      var id :| id in LevelIds(m.levels) - CompactedIds(plan) - {newId} && id in disk && e in disk[id];
      assert id in LevelIds(m.levels);
    }
  }

  lemma SafeSurvives(m: Manifest, s: LevelState, plan: Plan, newId: u64, disk: map<u64, Table>, e: Entry)
    requires forall id :: id in CompactedIds(plan) && id in s.readers && id in disk ==> s.readers[id] == disk[id]
    requires Listed(LevelIds(m.levels), disk, e) && !AtRisk(m, s, plan, newId, disk, e)
    ensures Survives(m, s, plan, newId, disk, e)
  {
    var id :| id in LevelIds(m.levels) && id in disk && e in disk[id];
    if id in CompactedIds(plan) {
      var i :| 0 <= i < |Planned(plan)| && Planned(plan)[i].id == id;
      assert InOpened(Planned(plan), s.readers, e);
    } else {
      assert id in LevelIds(m.levels) - CompactedIds(plan) - {newId};
    }
  }

  lemma NewestSurvivorIsListed(m: Manifest, s: LevelState, plan: Plan, newId: u64, disk: map<u64, Table>, e: Entry)
    requires PlannedCovered(m, s, plan, disk) && Newest(Survivors(m, s, plan, newId, disk), e)
    requires forall d :: Newest(Before(m, disk), d) ==> Survives(m, s, plan, newId, disk, d)
    ensures Listed(LevelIds(m.levels), disk, e)
  {
    SurvivorIsKnown(m, s, plan, newId, disk, e);
    if InOpened(Planned(plan), s.readers, e) {
      var known := Either(Before(m, disk), OpenedIn(Planned(plan), s.readers));
      assert Matched(Before(m, disk), e);
      var o :| Before(m, disk)(o) && o.key == e.key && e.seqNo <= o.seqNo;
      var top := HasNewest(Before(m, disk), o);
      assert Survivors(m, s, plan, newId, disk)(top) && known(top) && known(e);
    }
  }

  /** Compaction keeps version resolution: with every planned file open and readable,
      a fresh id, and every version in a planned file matched by a listed one at least
      as new, the newest version of every key, tombstones included, over all listed
      files is the same before and after. The planned files need not be listed any
      more, as they are not once an earlier compaction in the same process has dropped
      them from the manifest, and files may have been listed since the plan was made. */
  lemma CompactionKeepsVersions(m: Manifest, s: LevelState, plan: Plan, newId: u64, merged: Table,
                                disk: map<u64, Table>, e: Entry)
    requires ReadersMatch(Planned(plan), s.readers, disk) && newId !in LevelIds(m.levels)
    requires IsMerge(InputTables(s, plan), merged)
    requires CoveredBy(OpenedIn(Planned(plan), s.readers), Before(m, disk))
    requires Distinct(Either(Before(m, disk), OpenedIn(Planned(plan), s.readers)))
    ensures Newest(After(m, plan, newId, merged, disk), e) <==> Newest(Before(m, disk), e)
  {
    var planned := OpenedIn(Planned(plan), s.readers);
    var all := Either(Before(m, disk), planned);
    forall d ensures all(d) ==> Matched(Before(m, disk), d) {
      if Before(m, disk)(d) {
        assert d.key == d.key && d.seqNo <= d.seqNo;
      }
    }
    SameNewest(all, Before(m, disk), e);
    forall d ensures After(m, plan, newId, merged, disk)(d) ==> all(d)
             ensures all(d) ==> Matched(After(m, plan, newId, merged, disk), d)
    {
      AfterSurvives(m, s, plan, newId, merged, disk, d);
      ListedOrPlanned(m, s, plan, newId, disk, d);
    }
    SameNewest(all, After(m, plan, newId, merged, disk), e);
  }

  /** With every planned file open and a fresh id, the survivors are what is listed or planned. */
  lemma ListedOrPlanned(m: Manifest, s: LevelState, plan: Plan, newId: u64, disk: map<u64, Table>, e: Entry)
    requires ReadersMatch(Planned(plan), s.readers, disk) && newId !in LevelIds(m.levels)
    ensures Survives(m, s, plan, newId, disk, e) <==>
            Listed(LevelIds(m.levels), disk, e) || InOpened(Planned(plan), s.readers, e)
  {
    if Survives(m, s, plan, newId, disk, e) {
      SurvivorIsKnown(m, s, plan, newId, disk, e);
    }
    if Listed(LevelIds(m.levels), disk, e) {
      var id :| id in LevelIds(m.levels) && id in disk && e in disk[id];
      if id in CompactedIds(plan) {
        var i :| 0 <= i < |Planned(plan)| && Planned(plan)[i].id == id;
        assert InOpened(Planned(plan), s.readers, e);
      } else {
        assert id in LevelIds(m.levels) - CompactedIds(plan) - {newId};
      }
    }
  }

  // ---------- an entry lost with an unopened file ----------

  const LOST := Entry([1], 1, false, [7])
  const LOST_FILE := SstMeta(1, [1], [1], 1)
  const UNOPENED := LevelState([[LOST_FILE], [], []], map[])
  const LOST_PLAN := Plan([LOST_FILE], [], [1], [1])

  lemma UnopenedPlan()
    ensures PlanFor(UNOPENED) == Some(LOST_PLAN) && InputTables(UNOPENED, LOST_PLAN) == []
    ensures CompactedIds(LOST_PLAN) == {1} && LevelIds(UNOPENED.levels) == {1}
  {
    var metas := LOST_PLAN.l0 + LOST_PLAN.overlapping;
    assert UNOPENED.levels[0] == [LOST_FILE] && Level1(UNOPENED.levels) == [];
    assert SmallestMin([LOST_FILE]) == [1] && LargestMax([LOST_FILE]) == [1];
    assert metas[0] == LOST_FILE && metas[1..] == [] && UNOPENED.levels[0][0].id == 1;
    assert TablesOf(metas, UNOPENED.readers) == [] + TablesOf([], UNOPENED.readers) == [];
  }

  /** It does happen: the one file of a directory does not open, compaction merges
      nothing, and the one entry there was is listed nowhere afterwards. */
  lemma LostFileExample()
    ensures PlanFor(UNOPENED) == Some(LOST_PLAN) && IsMerge(InputTables(UNOPENED, LOST_PLAN), [])
    ensures Newest(Before(Manifest(0, 1, UNOPENED.levels), map[1 := [LOST]]), LOST)
    ensures forall e :: !After(Manifest(0, 1, UNOPENED.levels), LOST_PLAN, 2, [], map[1 := [LOST]])(e)
  {
    var m, disk := Manifest(0, 1, UNOPENED.levels), map[1 := [LOST]];
    UnopenedPlan();
    assert LOST in disk[1];
    forall e ensures !After(m, LOST_PLAN, 2, [], disk)(e) {
      UpdatedIds(m, CompactedIds(LOST_PLAN), NewMeta(LOST_PLAN, 2));
    }
  }

  // ---------- table ids ----------

  ghost predicate IdsBounded(m: Manifest) {
    forall id :: id in LevelIds(m.levels) ==> id <= m.nextSstId
  }

  /** The id counter is set to the new table's id, so it stays at or above every id
      exactly when no retained file has a larger one. */
  lemma IdBoundAfter(m: Manifest, compacted: set<u64>, meta: SstMeta)
    ensures IdsBounded(UpdatedManifest(m, compacted, meta)) <==>
            forall id :: id in LevelIds(m.levels) && id !in compacted ==> id <= meta.id
  {
    UpdatedIds(m, compacted, meta);
    var after := UpdatedManifest(m, compacted, meta);
    if IdsBounded(after) {
      forall id | id in LevelIds(m.levels) && id !in compacted ensures id <= meta.id {
        assert id in LevelIds(after.levels);
      }
    }
    if forall id :: id in LevelIds(m.levels) && id !in compacted ==> id <= meta.id {
      forall id | id in LevelIds(after.levels) ensures id <= meta.id {
        assert id == meta.id || (id in LevelIds(m.levels) && id !in compacted);
      }
    }
  }

  /** When nothing was added meanwhile the new id is fresh and the bound is kept. */
  lemma IdBoundKept(m: Manifest, compacted: set<u64>, meta: SstMeta)
    requires IdsBounded(m) && m.nextSstId < U64_MAX && meta.id == m.nextSstId + 1
    ensures meta.id !in LevelIds(m.levels) && IdsBounded(UpdatedManifest(m, compacted, meta))
  {
    IdBoundAfter(m, compacted, meta);
  }

  // ---------- ranges of level 1 ----------

  predicate Apart(a: SstMeta, b: SstMeta) {
    Less(a.maxKey, b.minKey) || Less(b.maxKey, a.minKey)
  }

  ghost predicate DisjointRanges(level: seq<SstMeta>) {
    forall i, j :: 0 <= i < j < |level| ==> Apart(level[i], level[j])
  }

  lemma {:induction false} RetainDisjoint(level: seq<SstMeta>, ids: set<u64>)
    requires DisjointRanges(level)
    ensures DisjointRanges(Retain(level, ids))
  {
    if level != [] {
      RetainDisjoint(level[1..], ids);
      var rest := Retain(level[1..], ids);
      forall j | 0 <= j < |rest| ensures Apart(level[0], rest[j]) {
        RetainMember(level[1..], ids, rest[j]);
        assert rest[j] in rest;
        var n :| 0 <= n < |level[1..]| && level[1..][n] == rest[j];
        assert Apart(level[0], level[n + 1]);
      }
    }
  }

  lemma {:induction false} OverlappingMember(level: seq<SstMeta>, minKey: Bytes, maxKey: Bytes, meta: SstMeta)
    ensures meta in Overlapping(level, minKey, maxKey) <==>
            meta in level && AtMost(meta.minKey, maxKey) && AtMost(minKey, meta.maxKey)
  {
    if level != [] {
      OverlappingMember(level[1..], minKey, maxKey, meta);
      assert meta in level <==> meta == level[0] || meta in level[1..];
    }
  }

  lemma PlanIds(plan: Plan)
    ensures forall i :: 0 <= i < |plan.l0| ==> plan.l0[i].id in CompactedIds(plan)
    ensures forall i :: 0 <= i < |plan.overlapping| ==> plan.overlapping[i].id in CompactedIds(plan)
  {
    var metas := plan.l0 + plan.overlapping;
    forall i | 0 <= i < |plan.l0| ensures plan.l0[i].id in CompactedIds(plan) {
      assert metas[i].id == plan.l0[i].id;
    }
    forall i | 0 <= i < |plan.overlapping| ensures plan.overlapping[i].id in CompactedIds(plan) {
      assert metas[|plan.l0| + i].id == plan.overlapping[i].id;
    }
  }

  lemma OverlapIsCompacted(plan: Plan, x: SstMeta)
    requires x in plan.overlapping
    ensures x.id in CompactedIds(plan)
  {
    PlanIds(plan);
    var q :| 0 <= q < |plan.overlapping| && plan.overlapping[q] == x;
  }

  /** Every level-1 file of the manifest is in level 0 or level 1 of the levels: in
      level 0 when an earlier compaction of this process installed it there. */
  ghost predicate LevelOneKnown(m: Manifest, s: LevelState) {
    s.levels != [] && forall x :: x in Level1(m.levels) ==> x in s.levels[0] || x in Level1(s.levels)
  }

  /** The ranges of level 1 stay pairwise disjoint, however many compactions there
      have been in this process. */
  lemma LevelOneStaysDisjoint(m: Manifest, s: LevelState, newId: u64, merged: Table)
    requires PlanFor(s).Some? && LevelOneKnown(m, s) && DisjointRanges(Level1(m.levels))
    ensures var plan := PlanFor(s).value;
            var m' := UpdatedManifest(m, CompactedIds(plan), NewMeta(plan, newId));
            DisjointRanges(Level1(m'.levels)) && LevelOneKnown(m', WithL0(s, NewMeta(plan, newId), merged))
  {
    var plan := PlanFor(s).value;
    var meta, ids := NewMeta(plan, newId), CompactedIds(plan);
    var kept := Retain(Level1(m.levels), ids);
    RetainDisjoint(Level1(m.levels), ids);
    assert Level1(UpdatedManifest(m, ids, meta).levels) == kept + [meta];
    forall x | x in kept ensures x in Level1(s.levels) && Apart(x, meta) {
      KeptInLevelOne(m, s, plan, x);
    }
    forall j | 0 <= j < |kept| ensures Apart(kept[j], meta) {
      assert kept[j] in kept;
    }
    assert WithL0(s, meta, merged).levels[0][0] == meta;
  }

  lemma KeptInLevelOne(m: Manifest, s: LevelState, plan: Plan, x: SstMeta)
    requires PlanFor(s) == Some(plan) && LevelOneKnown(m, s) && x in Retain(Level1(m.levels), CompactedIds(plan))
    ensures x in Level1(s.levels) && (Less(x.maxKey, plan.minKey) || Less(plan.maxKey, x.minKey))
  {
    RetainMember(Level1(m.levels), CompactedIds(plan), x);
    PlanIds(plan);
    assert x !in plan.l0;
    OverlappingMember(Level1(s.levels), plan.minKey, plan.maxKey, x);
    assert x !in plan.overlapping;
  }

  /** The range recorded for a table bounds its keys. */
  ghost predicate RangeHolds(meta: SstMeta, t: Table) {
    forall i :: 0 <= i < |t| ==> InRange(meta, t[i].key)
  }

  /** The range recorded for the merged table bounds its keys exactly when it
      already bounded every merged entry, those of level 1 included. */
  lemma MergedRangeExactly(tables: seq<Table>, merged: Table, meta: SstMeta)
    requires IsMerge(tables, merged)
    ensures RangeHolds(meta, merged) <==> forall i :: 0 <= i < |tables| ==> RangeHolds(meta, tables[i])
  {
    if RangeHolds(meta, merged) {
      forall i, j | 0 <= i < |tables| && 0 <= j < |tables[i]| ensures InRange(meta, tables[i][j].key) {
        assert HasKey(merged, tables[i][j].key);
        var n :| 0 <= n < |merged| && merged[n].key == tables[i][j].key;
      }
    }
    if forall i :: 0 <= i < |tables| ==> RangeHolds(meta, tables[i]) {
      forall n | 0 <= n < |merged| ensures InRange(meta, merged[n].key) {
        assert IsVersion(tables, merged[n]);
        var i, j :| 0 <= i < |tables| && 0 <= j < |tables[i]| && tables[i][j] == merged[n];
        assert RangeHolds(meta, tables[i]);
      }
    }
  }

  // ---------- the merged file ----------

  /** The merged file opens to the merged entries and looks every key up as their list does. */
  lemma MergedFileReads(lib: FilterLib, tables: seq<Table>, file: Bytes, layout: seq<Table>, image: FilterImage,
                        key: Bytes, readSeq: nat)
    requires NoFalseNegatives(lib) && IsMergedFile(tables, file, layout, image)
    requires image == lib.image(1000, Keys(Flatten(layout))) && Flush.TableFits(Flatten(layout), image)
    ensures OpenTable(file) == Some(Flatten(layout)) && OpenFile(file).Ok?
    ensures var (footer, stored) := OpenFile(file).value;
            Lookup(lib, file, footer, stored, key, readSeq) == Ok(TableGet(Flatten(layout), key, readSeq))
  {
    var merged := Flatten(layout);
    Flush.PackedFits(layout, image);
    BuiltTableOpens(layout, image, |merged| % U64_SIZE, MinSeq(merged));
    LookupIsTableGet(lib, layout, image, |merged| % U64_SIZE, MinSeq(merged), key, readSeq);
    if HasKey(merged, key) {
      Flush.KeyIsInserted(merged, key);
      assert lib.contains(lib.image(1000, Keys(merged)), key);
    } else {
      TableGetAbsent(merged, key, readSeq);
    }
  }
}
