/** Where searching the levels falls short: what a lookup finds once the directory
    is reopened after a compaction. */
module LevelSearch {
  import opened Wrappers
  import opened Bytes
  import opened Levels
  import opened EngineState
  import opened Merge
  import opened Compaction
  import opened CompactionTheorems
  import opened InstallTheorems

  // ---------- reopening after a compaction ----------

  lemma {:induction false} RetainNothing(level: seq<SstMeta>, ids: set<u64>)
    requires forall i :: 0 <= i < |level| ==> level[i].id in ids
    ensures Retain(level, ids) == []
  {
    if level != [] {
      RetainNothing(level[1..], ids);
    }
  }

  lemma {:induction false} MinMaxBound(metas: seq<SstMeta>, i: nat)
    requires i < |metas|
    ensures AtMost(SmallestMin(metas), metas[i].minKey) && AtMost(metas[i].maxKey, LargestMax(metas))
  {
    KeyOrder();
    if |metas| > 1 {
      if i > 0 {
        MinMaxBound(metas[1..], i - 1);
      }
    }
  }

  /** A level-1 table that was not compacted lies apart from the range of the plan. */
  lemma KeptIsApart(s: LevelState, plan: Plan, x: SstMeta)
    requires PlanFor(s) == Some(plan) && x in Level1(s.levels) && x.id !in CompactedIds(plan)
    ensures !(AtMost(x.minKey, plan.maxKey) && AtMost(plan.minKey, x.maxKey))
  {
    OverlappingMember(Level1(s.levels), plan.minKey, plan.maxKey, x);
    if x in plan.overlapping {
      OverlapIsCompacted(plan, x);
      assert false;
    }
  }

  /** A key of a level-0 table lies in the range of the plan, so in no kept table's range. */
  lemma L0KeyIsApart(plan: Plan, p: nat, x: SstMeta, key: Bytes)
    requires plan.l0 != [] && plan.minKey == SmallestMin(plan.l0) && plan.maxKey == LargestMax(plan.l0)
    requires p < |plan.l0| && InRange(plan.l0[p], key)
    requires !(AtMost(x.minKey, plan.maxKey) && AtMost(plan.minKey, x.maxKey))
    ensures !InRange(x, key)
  {
    KeyOrder();
    MinMaxBound(plan.l0, p);
  }

  /** No table kept in level 1 can answer for a merged key. */
  lemma KeptIsSilent(s: LevelState, plan: Plan, merged: Table, m: nat, readSeq: nat, x: SstMeta)
    requires PlanFor(s) == Some(plan) && TablesOk(s.levels[0], Level1(s.levels), s.readers, readSeq)
    requires forall i :: 0 <= i < |plan.l0| ==> RangeHolds(plan.l0[i], s.readers[plan.l0[i].id])
    requires IsMerge(InputTables(s, plan), merged) && m < |merged|
    requires x in Level1(s.levels) && x.id !in CompactedIds(plan)
    ensures !InRange(x, merged[m].key)
  {
    var l0, l1, over := s.levels[0], Level1(s.levels), plan.overlapping;
    forall y | y in over ensures y in l1 {
      OverlappingMember(l1, plan.minKey, plan.maxKey, y);
    }
    AllOpen(l0, over, l1, s.readers, readSeq);
    assert IsVersion(InputTables(s, plan), merged[m]);
    var i, j :| 0 <= i < |InputTables(s, plan)| && 0 <= j < |InputTables(s, plan)[i]| &&
                InputTables(s, plan)[i][j] == merged[m];
    var p := TablesOfOpened(l0 + over, s.readers, i);
    if p < |l0| {
      assert (l0 + over)[p] == l0[p];
      assert InRange(l0[p], s.readers[l0[p].id][j].key);
      KeptIsApart(s, plan, x);
      L0KeyIsApart(plan, p, x, merged[m].key);
    } else {
      var y := over[p - |l0|];
      assert (l0 + over)[p] == y && y in over;
      var r :| 0 <= r < |l1| && l1[r] == y;
      var q :| 0 <= q < |l1| && l1[q] == x;
      assert InRange(y, s.readers[y.id][j].key);
      PlanIds(plan);
      ApartEither(l1, q, r, merged[m].key);
    }
  }

  // ---------- lookups of two levels ----------

  /** The same files, open in the same way, look up the same. */
  lemma {:induction false} SameReaders(level: seq<SstMeta>, a: map<u64, Table>, b: map<u64, Table>, ranged: bool,
                                       key: Bytes, readSeq: nat)
    requires forall i :: 0 <= i < |level| ==>
      (level[i].id in a <==> level[i].id in b) && (level[i].id in a ==> a[level[i].id] == b[level[i].id])
    ensures LevelGet(level, a, ranged, key, readSeq) == LevelGet(level, b, ranged, key, readSeq)
  {
    if level != [] {
      SameReaders(level[1..], a, b, ranged, key, readSeq);
    }
  }

  /** Files that give nothing can be taken out. */
  lemma {:induction false} RetainSilent(level: seq<SstMeta>, ids: set<u64>, readers: map<u64, Table>, ranged: bool,
                                        key: Bytes, readSeq: nat)
    requires forall i :: 0 <= i < |level| && level[i].id in ids ==>
      Found(level[i], readers, ranged, key, readSeq) == None
    ensures LevelGet(Retain(level, ids), readers, ranged, key, readSeq) ==
            LevelGet(level, readers, ranged, key, readSeq)
  {
    if level != [] {
      assert level[0].id in ids ==> Found(level[0], readers, ranged, key, readSeq) == None;
      RetainSilent(level[1..], ids, readers, ranged, key, readSeq);
    }
  }

  lemma {:induction false} SilentLast(level: seq<SstMeta>, last: SstMeta, readers: map<u64, Table>, ranged: bool,
                                      key: Bytes, readSeq: nat)
    requires Found(last, readers, ranged, key, readSeq) == None
    ensures LevelGet(level + [last], readers, ranged, key, readSeq) == LevelGet(level, readers, ranged, key, readSeq)
  {
    if level == [] {
      assert level + [last] == [last];
      OneTable(last, readers, ranged, key, readSeq);
    } else {
      assert (level + [last])[1..] == level[1..] + [last];
      SilentLast(level[1..], last, readers, ranged, key, readSeq);
    }
  }

  lemma OneTable(meta: SstMeta, readers: map<u64, Table>, ranged: bool, key: Bytes, readSeq: nat)
    ensures LevelGet([meta], readers, ranged, key, readSeq) == Found(meta, readers, ranged, key, readSeq)
  {
    assert LevelGet([], readers, ranged, key, readSeq) == None;
  }

  /** With nothing in level 2, levels 0 and 1 answer. */
  lemma ThreeLevels(s: LevelState, key: Bytes, readSeq: nat)
    requires |s.levels| == 3 && s.levels[2] == []
    ensures TablesGet(s, key, readSeq) ==
            Or(LevelGet(s.levels[0], s.readers, false, key, readSeq),
               LevelGet(s.levels[1], s.readers, true, key, readSeq))
  {
    var rest := s.levels[1..];
    assert rest[0] == s.levels[1] && rest[1..] == [[]] && rest[1..][1..] == [];
    assert LevelGet([], s.readers, true, key, readSeq) == None;
    assert DeepGet(rest[1..], s.readers, key, readSeq) == None;
  }

  lemma OpenedReads(levels: seq<seq<SstMeta>>, disk: map<u64, Table>, key: Bytes, readSeq: nat)
    requires |levels| == 3 && levels[2] == []
    ensures TablesGet(OpenLevels(levels, disk), key, readSeq) ==
            Or(LevelGet(levels[0], disk, false, key, readSeq), LevelGet(levels[1], disk, true, key, readSeq))
  {
    var s := OpenLevels(levels, disk);
    assert forall i, j :: 0 <= i < |levels| && 0 <= j < |levels[i]| ==> levels[i][j].id in LevelIds(levels);
    ThreeLevels(s, key, readSeq);
    SameReaders(levels[0], s.readers, disk, false, key, readSeq);
    SameReaders(levels[1], s.readers, disk, true, key, readSeq);
  }

  // ---------- what a lookup finds after compaction and reopening ----------

  /** Files that stay in level 0 first; then, inside the range of the compacted level-0
      files, the merged table alone, and outside it only the files that stay in level 1. */
  function ReopenedGet(m: Manifest, plan: Plan, newId: u64, merged: Table, disk: map<u64, Table>,
                       key: Bytes, readSeq: nat): Option<Bytes>
    requires |m.levels| == 3
  {
    var ids := CompactedIds(plan);
    Or(LevelGet(Retain(m.levels[0], ids), disk, false, key, readSeq),
       if InRange(NewMeta(plan, newId), key) then TableGet(merged, key, readSeq)
       else LevelGet(Retain(m.levels[1], ids), disk, true, key, readSeq))
  }

  /** After a compaction has updated the manifest, whatever it found the levels to be, a
      lookup in the reopened directory is exactly that, for every key. */
  lemma ReopenedReads(m: Manifest, s: LevelState, plan: Plan, newId: u64, merged: Table, disk: map<u64, Table>,
                      key: Bytes, readSeq: nat)
    requires PlanFor(s) == Some(plan) && LevelOneKnown(m, s) && |m.levels| == 3 && m.levels[2] == []
    requires newId !in LevelIds(m.levels)
    ensures var after := UpdatedManifest(m, CompactedIds(plan), NewMeta(plan, newId)).levels;
            TablesGet(OpenLevels(after, disk[newId := merged]), key, readSeq) ==
            ReopenedGet(m, plan, newId, merged, disk, key, readSeq)
  {
    var ids, meta, disk' := CompactedIds(plan), NewMeta(plan, newId), disk[newId := merged];
    var kept0, kept1 := Retain(m.levels[0], ids), Retain(m.levels[1], ids);
    var after := UpdatedManifest(m, ids, meta).levels;
    assert after == [kept0, kept1 + [meta], Retain([], ids)] == [kept0, kept1 + [meta], []];
    OpenedReads(after, disk', key, readSeq);
    RetainedReads(m, 0, ids, disk, newId, merged, false, key, readSeq);
    RetainedReads(m, 1, ids, disk, newId, merged, true, key, readSeq);
    if InRange(meta, key) {
      forall i | 0 <= i < |kept1| ensures Found((kept1 + [meta])[i], disk', true, key, readSeq) == None {
        assert kept1[i] in kept1;
        KeptInLevelOne(m, s, plan, kept1[i]);
        OutsidePlan(plan, newId, kept1[i], key);
      }
      LevelGetSkips(kept1 + [meta], disk', true, key, readSeq, |kept1|);
      assert (kept1 + [meta])[|kept1|..] == [meta];
      OneTable(meta, disk', true, key, readSeq);
    } else {
      SilentLast(kept1, meta, disk', true, key, readSeq);
    }
  }

  lemma OutsidePlan(plan: Plan, newId: u64, x: SstMeta, key: Bytes)
    requires Less(x.maxKey, plan.minKey) || Less(plan.maxKey, x.minKey)
    requires InRange(NewMeta(plan, newId), key)
    ensures !InRange(x, key)
  {
    KeyOrder();
  }

  lemma RetainedReads(m: Manifest, i: nat, ids: set<u64>, disk: map<u64, Table>, newId: u64, merged: Table,
                      ranged: bool, key: Bytes, readSeq: nat)
    requires i < |m.levels| && newId !in LevelIds(m.levels)
    ensures LevelGet(Retain(m.levels[i], ids), disk[newId := merged], ranged, key, readSeq) ==
            LevelGet(Retain(m.levels[i], ids), disk, ranged, key, readSeq)
  {
    var kept := Retain(m.levels[i], ids);
    forall n | 0 <= n < |kept| ensures kept[n].id != newId {
      assert kept[n] in kept;
      RetainMember(m.levels[i], ids, kept[n]);
      var j :| 0 <= j < |m.levels[i]| && m.levels[i][j] == kept[n];
      assert m.levels[i][j].id in LevelIds(m.levels);
    }
    SameReaders(kept, disk[newId := merged], disk, ranged, key, readSeq);
  }

  /** The merge holds every key that a compacted file holds. */
  lemma CompactedIsMerged(s: LevelState, plan: Plan, merged: Table, key: Bytes, id: u64)
    requires IsMerge(InputTables(s, plan), merged)
    requires id in CompactedIds(plan) && id in s.readers
    ensures HasKey(s.readers[id], key) ==> HasKey(merged, key)
  {
    var metas := plan.l0 + plan.overlapping;
    var n :| 0 <= n < |metas| && metas[n].id == id;
    if HasKey(s.readers[id], key) {
      var i := TableOfOpened(metas, s.readers, n);
      var j :| 0 <= j < |s.readers[id]| && s.readers[id][j].key == key;
      assert HasKey(merged, InputTables(s, plan)[i][j].key);
    }
  }

  /** A key that was not merged reads, after compaction and reopening, as it does when the
      directory is reopened without the compaction. */
  lemma UnmergedReads(m: Manifest, s: LevelState, plan: Plan, newId: u64, merged: Table, disk: map<u64, Table>,
                      key: Bytes, readSeq: nat)
    requires PlanFor(s) == Some(plan) && LevelOneKnown(m, s) && |m.levels| == 3 && m.levels[2] == []
    requires forall id :: id in CompactedIds(plan) && id in disk ==> id in s.readers && s.readers[id] == disk[id]
    requires IsMerge(InputTables(s, plan), merged) && !HasKey(merged, key)
    ensures ReopenedGet(m, plan, newId, merged, disk, key, readSeq) ==
            TablesGet(OpenLevels(m.levels, disk), key, readSeq)
  {
    var ids := CompactedIds(plan);
    OpenedReads(m.levels, disk, key, readSeq);
    TableGetAbsent(merged, key, readSeq);
    forall x: SstMeta, ranged | x.id in ids ensures Found(x, disk, ranged, key, readSeq) == None {
      if x.id in disk {
        CompactedIsMerged(s, plan, merged, key, x.id);
        TableGetAbsent(disk[x.id], key, readSeq);
      }
    }
    RetainSilent(m.levels[0], ids, disk, false, key, readSeq);
    RetainSilent(m.levels[1], ids, disk, true, key, readSeq);
    if InRange(NewMeta(plan, newId), key) {
      var kept := Retain(m.levels[1], ids);
      forall i | 0 <= i < |kept| ensures Found(kept[i], disk, true, key, readSeq) == None {
        assert kept[i] in kept;
        KeptInLevelOne(m, s, plan, kept[i]);
        OutsidePlan(plan, newId, kept[i], key);
      }
      LevelGetNothing(kept, disk, true, key, readSeq);
    }
  }

  /** After the first compaction of a process and reopening, for every key: a merged key
      inside the range of the compacted level-0 tables reads as the merged table does, a
      tombstone included; a merged key outside it is not found, as the wider ranges of
      merged level-1 tables are forgotten; and any other key reads as before. */
  lemma ReopenedFindsExactly(m: Manifest, s: LevelState, plan: Plan, newId: u64, merged: Table,
                             disk: map<u64, Table>, key: Bytes, readSeq: nat)
    requires PlanFor(s) == Some(plan) && m.levels == s.levels && |s.levels| == 3 && s.levels[2] == []
    requires newId !in LevelIds(s.levels)
    requires ReadersMatch(s.levels[0], s.readers, disk) && ReadersMatch(s.levels[1], s.readers, disk)
    requires TablesOk(s.levels[0], s.levels[1], s.readers, readSeq)
    requires forall i :: 0 <= i < |plan.l0| ==> RangeHolds(plan.l0[i], s.readers[plan.l0[i].id])
    requires IsMerge(InputTables(s, plan), merged)
    ensures var meta := NewMeta(plan, newId);
            var reopened := OpenLevels(UpdatedManifest(m, CompactedIds(plan), meta).levels, disk[newId := merged]);
            TablesGet(reopened, key, readSeq) ==
            if !HasKey(merged, key) then TablesGet(s, key, readSeq)
            else if InRange(meta, key) then TableGet(merged, key, readSeq) else None
  {
    ReopenedReads(m, s, plan, newId, merged, disk, key, readSeq);
    PlanIds(plan);
    RetainNothing(s.levels[0], CompactedIds(plan));
    if HasKey(merged, key) {
      var kept := Retain(s.levels[1], CompactedIds(plan));
      var n :| 0 <= n < |merged| && merged[n].key == key;
      forall i | 0 <= i < |kept| ensures Found(kept[i], disk, true, key, readSeq) == None {
        assert kept[i] in kept;
        RetainMember(s.levels[1], CompactedIds(plan), kept[i]);
        KeptIsSilent(s, plan, merged, n, readSeq, kept[i]);
      }
      LevelGetNothing(kept, disk, true, key, readSeq);
    } else {
      CompactedMatch(s, plan, disk);
      UnmergedReads(m, s, plan, newId, merged, disk, key, readSeq);
      OpenedReads(s.levels, disk, key, readSeq);
      ThreeLevels(s, key, readSeq);
      SameReaders(s.levels[0], s.readers, disk, false, key, readSeq);
      SameReaders(s.levels[1], s.readers, disk, true, key, readSeq);
    }
  }

  lemma CompactedMatch(s: LevelState, plan: Plan, disk: map<u64, Table>)
    requires PlanFor(s) == Some(plan) && |s.levels| > 1
    requires ReadersMatch(s.levels[0], s.readers, disk) && ReadersMatch(s.levels[1], s.readers, disk)
    ensures forall id :: id in CompactedIds(plan) ==> id in s.readers && id in disk && s.readers[id] == disk[id]
  {
    forall id | id in CompactedIds(plan) ensures id in s.readers && id in disk && s.readers[id] == disk[id] {
      var metas := plan.l0 + plan.overlapping;
      var n :| 0 <= n < |metas| && metas[n].id == id;
      if n >= |plan.l0| {
        var x := plan.overlapping[n - |plan.l0|];
        assert metas[n] == x;
        OverlappingMember(s.levels[1], plan.minKey, plan.maxKey, x);
        var r :| 0 <= r < |s.levels[1]| && s.levels[1][r] == x;
      } else {
        assert metas[n] == s.levels[0][n];
      }
    }
  }

  // ---------- the table a compaction installs ----------

  /** There is a plan exactly when level 0 has a file; it takes all of level 0, and of level
      1 the files whose range meets that of the plan. */
  lemma PlanExactly(s: LevelState, x: SstMeta)
    ensures PlanFor(s).Some? <==> s.levels != [] && s.levels[0] != []
    ensures PlanFor(s).Some? ==>
              var plan := PlanFor(s).value;
              && plan.l0 == s.levels[0]
              && (x in plan.overlapping <==>
                    |s.levels| > 1 && x in s.levels[1]
                    && !Less(plan.maxKey, x.minKey) && !Less(x.maxKey, plan.minKey))
  {
    if PlanFor(s).Some? {
      OverlappingMember(Level1(s.levels), PlanFor(s).value.minKey, PlanFor(s).value.maxKey, x);
    }
  }

  /** The range of a plan runs from the least first key to the greatest last key of its files. */
  lemma PlanRange(s: LevelState) returns (i: nat, j: nat)
    requires PlanFor(s).Some?
    ensures var l0, plan := s.levels[0], PlanFor(s).value;
            && i < |l0| && j < |l0| && plan.minKey == l0[i].minKey && plan.maxKey == l0[j].maxKey
            && forall n :: 0 <= n < |l0| ==> AtMost(l0[i].minKey, l0[n].minKey) && AtMost(l0[n].maxKey, l0[j].maxKey)
  {
    var l0 := s.levels[0];
    i, j := EndsAreReached(l0);
    forall n | 0 <= n < |l0| ensures AtMost(l0[i].minKey, l0[n].minKey) && AtMost(l0[n].maxKey, l0[j].maxKey) {
      MinMaxBound(l0, n);
    }
  }

  /** What a compaction leaves in the levels when its file opens, as it does to the merged
      entries (CompactionTheorems.MergedFileReads): these under the next id in front of level
      0, with the range of the plan; all other files stay. */
  lemma CompactedTable(s: LevelState, m: Manifest, file: Bytes, merged: Table, plan: Plan)
    requires PlanFor(s) == Some(plan) && OpenTable(file) == Some(merged)
    ensures var after := Installed(s, NewMeta(plan, NextId(m)), file);
            var meta := SstMeta((m.nextSstId + 1) % 0x1_0000_0000_0000_0000, plan.minKey, plan.maxKey, 0);
            after.levels == s.levels[0 := [meta] + s.levels[0]] && after.readers == s.readers[meta.id := merged]
  {
  }

  // ---------- when the recorded range is right ----------

  /** The recorded range runs from a key of the table to a key of the table and bounds all. */
  ghost predicate Tight(meta: SstMeta, t: Table) {
    RangeHolds(meta, t) && HasKey(t, meta.minKey) && HasKey(t, meta.maxKey)
  }

  predicate Inside(inner: SstMeta, outer: SstMeta) {
    AtMost(outer.minKey, inner.minKey) && AtMost(inner.maxKey, outer.maxKey)
  }

  lemma TightInside(inner: SstMeta, outer: SstMeta, t: Table)
    requires Tight(inner, t)
    ensures RangeHolds(outer, t) <==> Inside(inner, outer)
  {
    KeyOrder();
    var i :| 0 <= i < |t| && t[i].key == inner.minKey;
    var j :| 0 <= j < |t| && t[j].key == inner.maxKey;
    if Inside(inner, outer) {
      forall n | 0 <= n < |t| ensures InRange(outer, t[n].key) {
        assert InRange(inner, t[n].key);
      }
    }
  }

  lemma {:induction false} EndsAreReached(metas: seq<SstMeta>) returns (i: nat, j: nat)
    requires metas != []
    ensures i < |metas| && metas[i].minKey == SmallestMin(metas)
    ensures j < |metas| && metas[j].maxKey == LargestMax(metas)
  {
    i, j := 0, 0;
    if |metas| > 1 {
      var k, l := EndsAreReached(metas[1..]);
      i := if Less(SmallestMin(metas[1..]), metas[0].minKey) then k + 1 else 0;
      j := if Less(metas[0].maxKey, LargestMax(metas[1..])) then l + 1 else 0;
    }
  }

  lemma MergedHasKey(metas: seq<SstMeta>, readers: map<u64, Table>, merged: Table, n: nat, key: Bytes)
    requires IsMerge(TablesOf(metas, readers), merged) && forall j :: 0 <= j < |metas| ==> metas[j].id in readers
    requires n < |metas| && HasKey(readers[metas[n].id], key)
    ensures HasKey(merged, key)
  {
    var i := TableOfOpened(metas, readers, n);
    var j :| 0 <= j < |readers[metas[n].id]| && readers[metas[n].id][j].key == key;
    assert HasKey(merged, TablesOf(metas, readers)[i][j].key);
  }

  /** From tables with right ranges, the merged table's range is right exactly when
      the range of every merged level-1 table lies inside that of level 0. */
  lemma RangeStaysTight(s: LevelState, plan: Plan, newId: u64, merged: Table)
    requires PlanFor(s) == Some(plan) && IsMerge(InputTables(s, plan), merged)
    requires forall i :: 0 <= i < |plan.l0| ==>
      plan.l0[i].id in s.readers && Tight(plan.l0[i], s.readers[plan.l0[i].id])
    requires forall i :: 0 <= i < |plan.overlapping| ==>
      plan.overlapping[i].id in s.readers && Tight(plan.overlapping[i], s.readers[plan.overlapping[i].id])
    ensures Tight(NewMeta(plan, newId), merged) <==>
            forall i :: 0 <= i < |plan.overlapping| ==> Inside(plan.overlapping[i], NewMeta(plan, newId))
  {
    var metas, meta := plan.l0 + plan.overlapping, NewMeta(plan, newId);
    forall n | 0 <= n < |metas|
      ensures metas[n].id in s.readers
      ensures RangeHolds(meta, s.readers[metas[n].id]) <==> Inside(metas[n], meta)
    {
      TightInside(metas[n], meta, s.readers[metas[n].id]);
    }
    forall n | 0 <= n < |plan.l0| ensures Inside(metas[n], meta) {
      MinMaxBound(plan.l0, n);
    }
    var i, j := EndsAreReached(plan.l0);
    assert metas[i] == plan.l0[i] && metas[j] == plan.l0[j];
    MergedHasKey(metas, s.readers, merged, i, meta.minKey);
    MergedHasKey(metas, s.readers, merged, j, meta.maxKey);
    MergedRangeExactly(InputTables(s, plan), merged, meta);
    InputsInRange(metas, s.readers, meta);
    assert forall n :: 0 <= n < |plan.overlapping| ==> metas[|plan.l0| + n] == plan.overlapping[n];
    assert (forall n :: 0 <= n < |metas| ==> Inside(metas[n], meta)) <==>
           forall n :: 0 <= n < |plan.overlapping| ==> Inside(plan.overlapping[n], meta);
  }

  /** The range bounds all tables of open files exactly when it bounds each file's. */
  lemma InputsInRange(metas: seq<SstMeta>, readers: map<u64, Table>, meta: SstMeta)
    requires forall n :: 0 <= n < |metas| ==> metas[n].id in readers
    ensures (forall i :: 0 <= i < |TablesOf(metas, readers)| ==> RangeHolds(meta, TablesOf(metas, readers)[i])) <==>
            forall n :: 0 <= n < |metas| ==> RangeHolds(meta, readers[metas[n].id])
  {
    var tables := TablesOf(metas, readers);
    if forall i :: 0 <= i < |tables| ==> RangeHolds(meta, tables[i]) {
      FilesInRange(metas, readers, meta);
    } else {
      var i :| 0 <= i < |tables| && !RangeHolds(meta, tables[i]);
      var n := TablesOfOpened(metas, readers, i);
      assert !RangeHolds(meta, readers[metas[n].id]);
    }
  }

  lemma FilesInRange(metas: seq<SstMeta>, readers: map<u64, Table>, meta: SstMeta)
    requires forall n :: 0 <= n < |metas| ==> metas[n].id in readers
    requires forall i :: 0 <= i < |TablesOf(metas, readers)| ==> RangeHolds(meta, TablesOf(metas, readers)[i])
    ensures forall n :: 0 <= n < |metas| ==> RangeHolds(meta, readers[metas[n].id])
  {
    forall n | 0 <= n < |metas| ensures RangeHolds(meta, readers[metas[n].id]) {
      var i := TableOfOpened(metas, readers, n);
      assert RangeHolds(meta, TablesOf(metas, readers)[i]);
    }
  }

  // ---------- a key lost by compaction ----------

  const LOW := Entry([1], 1, false, [7])
  const HIGH := Entry([2], 2, false, [9])
  const L0_FILE := SstMeta(1, [2], [2], 1)
  const L1_FILE := SstMeta(2, [1], [3], 1)
  const BEFORE := LevelState([[L0_FILE], [L1_FILE], []], map[1 := [HIGH], 2 := [LOW]])
  const PLANNED := Plan([L0_FILE], [L1_FILE], [2], [2])

  lemma ExamplePlan()
    ensures PlanFor(BEFORE) == Some(PLANNED) && InputTables(BEFORE, PLANNED) == [[HIGH], [LOW]]
  {
    var metas := [L0_FILE] + [L1_FILE];
    assert metas[0] == L0_FILE && metas[1..] == [L1_FILE] && [L1_FILE][1..] == [];
    assert TablesOf([L1_FILE], BEFORE.readers) == [[LOW]] + TablesOf([], BEFORE.readers) == [[LOW]];
    assert TablesOf(metas, BEFORE.readers) == [[HIGH]] + TablesOf([L1_FILE], BEFORE.readers);
    assert SmallestMin([L0_FILE]) == [2] && LargestMax([L0_FILE]) == [2];
    assert Level1(BEFORE.levels) == [L1_FILE] && BEFORE.levels[0] == [L0_FILE];
    assert Overlapping([L1_FILE], [2], [2]) == [L1_FILE] + Overlapping([], [2], [2]) by {
      assert !Less([2], [1]) && !Less([3], [2]);
    }
    assert Overlapping([L1_FILE], [2], [2]) == [L1_FILE];
    assert PlanFor(BEFORE).value.overlapping == PLANNED.overlapping && PlanFor(BEFORE).value.l0 == PLANNED.l0;
    assert PlanFor(BEFORE) == Some(PLANNED);
    assert [[HIGH]] + [[LOW]] == [[HIGH], [LOW]];
    assert PLANNED.l0 + PLANNED.overlapping == metas;
  }

  lemma ExampleMerge()
    ensures IsMerge([[HIGH], [LOW]], [LOW, HIGH])
  {
    var tables, merged := [[HIGH], [LOW]], [LOW, HIGH];
    assert merged[0] == tables[1][0] && merged[1] == tables[0][0];
    assert IsVersion(tables, merged[0]) && IsVersion(tables, merged[1]);
  }

  /** The example is as well-formed as levels can be. */
  lemma ExampleOrder()
    ensures SearchOrderOk([L0_FILE], [L1_FILE], BEFORE.readers, 2) && RangeHolds(L0_FILE, BEFORE.readers[1])
    ensures ReadersMatch([L1_FILE], BEFORE.readers, BEFORE.readers) && 3 !in LevelIds(BEFORE.levels)
    ensures InRange(L1_FILE, [1]) && !InRange(NewMeta(PLANNED, 3), [1])
  {
    assert Less([1], [2]) && Less([1], [3]) && !Less([2], [2]) && !Less([1], [1]) && !Less([3], [1]);
  }

  /** It does happen: a level-1 table with range 1 to 3 merged with a level-0
      table at 2 loses the key 1, which a lookup found before. */
  lemma LostKeyExample()
    ensures var m := UpdatedManifest(Manifest(0, 2, BEFORE.levels), CompactedIds(PLANNED), NewMeta(PLANNED, 3));
            && PlanFor(BEFORE) == Some(PLANNED) && IsMerge(InputTables(BEFORE, PLANNED), [LOW, HIGH])
            && TablesGet(BEFORE, [1], 2) == Some([7])
            && TablesGet(OpenLevels(m.levels, BEFORE.readers[3 := [LOW, HIGH]]), [1], 2) == None
  {
    ExamplePlan();
    ExampleMerge();
    assert TablesGet(BEFORE, [1], 2) == Some([7]) by {
      OneTable(L0_FILE, BEFORE.readers, false, [1], 2);
      OneTable(L1_FILE, BEFORE.readers, true, [1], 2);
      assert BEFORE.levels[1..][0] == [L1_FILE];
      assert TableGet([HIGH][1..], [1], 2) == None;
    }
    ExampleOrder();
    assert HasKey([LOW, HIGH], [1]) by {
      assert [LOW, HIGH][0].key == [1];
    }
    ReopenedFindsExactly(Manifest(0, 2, BEFORE.levels), BEFORE, PLANNED, 3, [LOW, HIGH], BEFORE.readers, [1], 2);
  }
}
