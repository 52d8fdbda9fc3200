/** Installing a merged table when files were added to level 0 after the compaction
    looked at the levels (crates/lsm/src/compaction.rs, lines 79-81 and 176-178): the
    older merged table then stands in front of newer files. */
module LateInstall {
  import opened Wrappers
  import opened Bytes
  import opened Levels
  import opened EngineState
  import opened Merge
  import opened Compaction
  import opened CompactionTheorems
  import opened InstallTheorems

  // ---------- added files ----------

  datatype File = File(meta: SstMeta, table: Table)

  /** The levels with files added one after the other. */
  function AddAll(s: LevelState, files: seq<File>): LevelState {
    if files == [] then s else
    var n := |files| - 1;
    WithL0(AddAll(s, files[..n]), files[n].meta, files[n].table)
  }

  /** Every file gets an id that no file of the levels has. */
  predicate AddsFresh(s: LevelState, files: seq<File>) {
    files != [] ==>
      var n := |files| - 1;
      AddsFresh(s, files[..n]) && files[n].meta.id !in LevelIds(AddAll(s, files[..n]).levels)
  }

  /** What the added files give a lookup, the last added first. */
  function AddedGet(files: seq<File>, key: Bytes, readSeq: nat): Option<Bytes> {
    if files == [] then None else
    var n := |files| - 1;
    var hit := TableGet(files[n].table, key, readSeq);
    if hit.Some? then hit else AddedGet(files[..n], key, readSeq)
  }

  lemma {:induction false} AddedLookup(s: LevelState, files: seq<File>, key: Bytes, readSeq: nat)
    requires s.levels != [] && AddsFresh(s, files)
    ensures TablesGet(AddAll(s, files), key, readSeq) == Or(AddedGet(files, key, readSeq), TablesGet(s, key, readSeq))
    ensures AddAll(s, files).levels != []
  {
    if files != [] {
      var n := |files| - 1;
      AddedLookup(s, files[..n], key, readSeq);
      FrontTable(AddAll(s, files[..n]), files[n].meta, files[n].table, key, readSeq);
    }
  }

  /** Adding files keeps the ids there were, and the deeper levels. */
  lemma {:induction false} AddsKeep(s: LevelState, files: seq<File>)
    requires s.levels != []
    ensures var now := AddAll(s, files);
            now.levels != [] && now.levels[1..] == s.levels[1..] && LevelIds(s.levels) <= LevelIds(now.levels)
  {
    if files != [] {
      var n := |files| - 1;
      AddsKeep(s, files[..n]);
      FrontIds(AddAll(s, files[..n]).levels, files[n].meta);
      var before, now := AddAll(s, files[..n]), AddAll(s, files);
      assert now.levels[1..] == before.levels[1..];
    }
  }

  /** A merged table in front of files added since its compaction was planned: a lookup
      is as before exactly when the added files give nothing for the key, or the merged
      table gives nothing, or both give the same. */
  lemma LateInstallExactly(s: LevelState, files: seq<File>, newId: u64, merged: Table, key: Bytes, readSeq: nat)
    requires PlanFor(s).Some? && AddsFresh(s, files) && newId !in LevelIds(AddAll(s, files).levels)
    requires SearchOrderFor(s.levels[0], Level1(s.levels), s.readers, readSeq, key)
    requires IsMerge(InputTables(s, PlanFor(s).value), merged)
    ensures var now := AddAll(s, files);
            var after := WithL0(now, NewMeta(PlanFor(s).value, newId), merged);
            var added, hit := AddedGet(files, key, readSeq), TableGet(merged, key, readSeq);
            && TablesGet(after, key, readSeq) == Or(hit, TablesGet(now, key, readSeq))
            && (TablesGet(after, key, readSeq) == TablesGet(now, key, readSeq) <==>
                added == None || hit == None || added == hit)
  {
    var meta := NewMeta(PlanFor(s).value, newId);
    AddsKeep(s, files);
    AddedLookup(s, files, key, readSeq);
    FrontTable(AddAll(s, files), meta, merged, key, readSeq);
    InstallInvisible(s, newId, merged, key, readSeq);
    FrontTable(s, meta, merged, key, readSeq);
  }

  // ---------- the order afterwards ----------

  /** Every file of level 0 is an added one or was there before, open as it was. */
  lemma {:induction false} AddedMember(s: LevelState, files: seq<File>, j: nat) returns (i: nat)
    requires s.levels != [] && AddsFresh(s, files) && j < |AddAll(s, files).levels[0]|
    requires AddAll(s, files).levels != []
    ensures var now := AddAll(s, files);
            || (i < |files| && now.levels[0][j] == files[i].meta && files[i].meta.id in now.readers
                && now.readers[files[i].meta.id] == files[i].table)
            || (i < |s.levels[0]| && now.levels[0][j] == s.levels[0][i] && SameReader(s, now, s.levels[0][i].id))
  {
    if files == [] {
      i := j;
    } else {
      var n := |files| - 1;
      var before := AddAll(s, files[..n]);
      AddsKeep(s, files[..n]);
      FrontReaders(before, files[n].meta, files[n].table);
      if j == 0 {
        i := n;
      } else {
        i := AddedMember(s, files[..n], j - 1);
      }
    }
  }

  /** Every added file is somewhere in level 0. */
  lemma {:induction false} AddedIsThere(s: LevelState, files: seq<File>, i: nat) returns (j: nat)
    requires s.levels != [] && AddsFresh(s, files) && i < |files|
    ensures var now := AddAll(s, files);
            && now.levels != [] && j < |now.levels[0]| && now.levels[0][j] == files[i].meta
            && files[i].meta.id in now.readers && now.readers[files[i].meta.id] == files[i].table
  {
    var n := |files| - 1;
    var before := AddAll(s, files[..n]);
    AddsKeep(s, files[..n]);
    FrontReaders(before, files[n].meta, files[n].table);
    if i == n {
      j := 0;
    } else {
      j := AddedIsThere(s, files[..n], i);
      j := j + 1;
    }
  }

  /** So is every file there was before. */
  lemma {:induction false} FoundIsThere(s: LevelState, files: seq<File>, i: nat) returns (j: nat)
    requires s.levels != [] && AddsFresh(s, files) && i < |s.levels[0]|
    ensures var now := AddAll(s, files);
            && now.levels != [] && j < |now.levels[0]| && now.levels[0][j] == s.levels[0][i]
            && SameReader(s, now, s.levels[0][i].id)
  {
    if files == [] {
      j := i;
    } else {
      var n := |files| - 1;
      AddsKeep(s, files[..n]);
      FrontReaders(AddAll(s, files[..n]), files[n].meta, files[n].table);
      j := FoundIsThere(s, files[..n], i);
      j := j + 1;
    }
  }

  /** Level 1 is open as it was. */
  lemma {:induction false} AddedLevel1(s: LevelState, files: seq<File>, r: nat)
    requires s.levels != [] && AddsFresh(s, files) && r < |Level1(s.levels)|
    ensures var now := AddAll(s, files);
            Level1(now.levels) == Level1(s.levels) && SameReader(s, now, Level1(s.levels)[r].id)
  {
    if files != [] {
      var n := |files| - 1;
      AddsKeep(s, files[..n]);
      AddedLevel1(s, files[..n], r);
      FrontReaders(AddAll(s, files[..n]), files[n].meta, files[n].table);
    }
  }

  lemma SameLevel1(s: LevelState, files: seq<File>)
    requires s.levels != []
    ensures AddAll(s, files).levels != [] && Level1(AddAll(s, files).levels) == Level1(s.levels)
  {
    AddsKeep(s, files);
    var now := AddAll(s, files);
    assert |now.levels| == |now.levels[1..]| + 1 && |s.levels| == |s.levels[1..]| + 1;
    if |s.levels| > 1 {
      assert now.levels[1] == now.levels[1..][0] && s.levels[1] == s.levels[1..][0];
    }
  }

  /** The order of the levels survives a late install exactly when the merged table is
      nowhere older than a file added since: for one key. */
  lemma LateOrderFor(s: LevelState, files: seq<File>, newId: u64, merged: Table, readSeq: nat, key: Bytes)
    requires PlanFor(s).Some? && AddsFresh(s, files) && newId !in LevelIds(AddAll(s, files).levels)
    requires SearchOrderFor(s.levels[0], Level1(s.levels), s.readers, readSeq, key)
    requires var now := AddAll(s, files);
             now.levels != [] && SearchOrderFor(now.levels[0], Level1(now.levels), now.readers, readSeq, key)
    requires IsMerge(InputTables(s, PlanFor(s).value), merged)
    ensures var after := WithL0(AddAll(s, files), NewMeta(PlanFor(s).value, newId), merged);
            SearchOrderFor(after.levels[0], Level1(after.levels), after.readers, readSeq, key) <==>
            forall i :: 0 <= i < |files| ==> NewerFor(merged, files[i].table, key)
  {
    var now, meta := AddAll(s, files), NewMeta(PlanFor(s).value, newId);
    var after := WithL0(now, meta, merged);
    MergedOnTop(s, merged, readSeq, key);
    FrontReaders(now, meta, merged);
    if forall i :: 0 <= i < |files| ==> NewerFor(merged, files[i].table, key) {
      forall j | 0 <= j < |now.levels[0]| ensures NewerFor(merged, now.readers[now.levels[0][j].id], key) {
        var i := AddedMember(s, files, j);
      }
      SameLevel1(s, files);
      forall r | 0 <= r < |Level1(now.levels)| ensures NewerFor(merged, now.readers[Level1(now.levels)[r].id], key) {
        AddedLevel1(s, files, r);
      }
      OrderInFront(now, meta, merged, readSeq, key);
    }
    if SearchOrderFor(after.levels[0], Level1(after.levels), after.readers, readSeq, key) {
      forall i | 0 <= i < |files| ensures NewerFor(merged, files[i].table, key) {
        var j := AddedIsThere(s, files, i);
        assert after.levels[0][j + 1] == now.levels[0][j];
        assert NewerFor(after.readers[after.levels[0][0].id], after.readers[after.levels[0][j + 1].id], key);
      }
    }
  }

  /** For all keys at once. */
  lemma LateOrderExactly(s: LevelState, files: seq<File>, newId: u64, merged: Table, readSeq: nat)
    requires PlanFor(s).Some? && AddsFresh(s, files) && newId !in LevelIds(AddAll(s, files).levels)
    requires SearchOrderOk(s.levels[0], Level1(s.levels), s.readers, readSeq)
    requires var now := AddAll(s, files);
             now.levels != [] && SearchOrderOk(now.levels[0], Level1(now.levels), now.readers, readSeq)
    requires IsMerge(InputTables(s, PlanFor(s).value), merged)
    ensures var after := WithL0(AddAll(s, files), NewMeta(PlanFor(s).value, newId), merged);
            SearchOrderOk(after.levels[0], Level1(after.levels), after.readers, readSeq) <==>
            forall i :: 0 <= i < |files| ==> Newer(merged, files[i].table)
  {
    var now := AddAll(s, files);
    var after := WithL0(now, NewMeta(PlanFor(s).value, newId), merged);
    var l0, l1 := after.levels[0], Level1(after.levels);
    forall key ensures SearchOrderFor(l0, l1, after.readers, readSeq, key) <==>
                       forall i :: 0 <= i < |files| ==> NewerFor(merged, files[i].table, key)
    {
      OrderForKey(s.levels[0], Level1(s.levels), s.readers, readSeq, key);
      OrderForKey(now.levels[0], Level1(now.levels), now.readers, readSeq, key);
      LateOrderFor(s, files, newId, merged, readSeq, key);
    }
    if forall i :: 0 <= i < |files| ==> Newer(merged, files[i].table) {
      forall key ensures SearchOrderFor(l0, l1, after.readers, readSeq, key) {
        forall i | 0 <= i < |files| ensures NewerFor(merged, files[i].table, key) {
          assert Newer(merged, files[i].table);
        }
      }
      OrderForAll(l0, l1, after.readers, readSeq);
    }
    if SearchOrderOk(l0, l1, after.readers, readSeq) {
      forall i | 0 <= i < |files| ensures Newer(merged, files[i].table) {
        forall key ensures NewerFor(merged, files[i].table, key) {
          OrderForKey(l0, l1, after.readers, readSeq, key);
        }
        NewerForAll(merged, files[i].table);
      }
    }
  }

  // ---------- a lookup gone stale ----------

  const STALE := Entry([1], 1, false, [7])
  const LATEST := Entry([1], 2, false, [9])
  const FOUND := LevelState([[SstMeta(1, [1], [1], 1)], [], []], map[1 := [STALE]])
  const ADDED := File(SstMeta(2, [1], [1], 1), [LATEST])

  lemma FoundPlan()
    ensures PlanFor(FOUND) == Some(Plan([SstMeta(1, [1], [1], 1)], [], [1], [1]))
    ensures InputTables(FOUND, PlanFor(FOUND).value) == [[STALE]] && IsMerge([[STALE]], [STALE])
  {
    var file := SstMeta(1, [1], [1], 1);
    assert FOUND.levels[0] == [file] && Level1(FOUND.levels) == [];
    assert SmallestMin([file]) == [1] && LargestMax([file]) == [1];
    assert [file] + [] == [file] && [file][1..] == [];
    assert TablesOf([file], FOUND.readers) == [[STALE]] + TablesOf([], FOUND.readers) == [[STALE]];
    assert [[STALE]][0][0] == STALE && IsVersion([[STALE]], STALE);
  }

  lemma AddedState()
    ensures AddAll(FOUND, [ADDED]) == WithL0(FOUND, ADDED.meta, ADDED.table) && AddsFresh(FOUND, [ADDED])
    ensures ADDED.meta.id !in LevelIds(FOUND.levels) && 3 !in LevelIds(AddAll(FOUND, [ADDED]).levels)
  {
    assert [ADDED][..0] == [] && AddAll(FOUND, []) == FOUND;
    assert LevelIds(FOUND.levels) == {1} by {
      assert FOUND.levels[0][0].id == 1;
    }
    FrontIds(FOUND.levels, ADDED.meta);
  }

  lemma StaleLookup()
    ensures TablesGet(AddAll(FOUND, [ADDED]), [1], 2) == Some([9])
    ensures PlanFor(FOUND).Some?
    ensures TablesGet(WithL0(AddAll(FOUND, [ADDED]), NewMeta(PlanFor(FOUND).value, 3), [STALE]), [1], 2) == Some([7])
  {
    FoundPlan();
    AddedState();
    assert TableGet([LATEST], [1], 2) == Some([9]) && TableGet([STALE], [1], 2) == Some([7]);
    FrontTable(FOUND, ADDED.meta, ADDED.table, [1], 2);
    FrontTable(AddAll(FOUND, [ADDED]), NewMeta(PlanFor(FOUND).value, 3), [STALE], [1], 2);
  }

  lemma InOrderBefore()
    ensures SearchOrderOk(FOUND.levels[0], Level1(FOUND.levels), FOUND.readers, 2)
    ensures var now := AddAll(FOUND, [ADDED]);
            now.levels != [] && SearchOrderOk(now.levels[0], Level1(now.levels), now.readers, 2)
  {
    AddedState();
    FrontReaders(FOUND, ADDED.meta, ADDED.table);
  }

  lemma MergedIsOlder()
    ensures !Newer([STALE], ADDED.table)
  {
    assert [STALE][0].key == ADDED.table[0].key;
  }

  lemma OrderBroken()
    ensures var now := AddAll(FOUND, [ADDED]);
            && PlanFor(FOUND).Some? && now.levels != []
            && SearchOrderOk(now.levels[0], Level1(now.levels), now.readers, 2)
            && var after := WithL0(now, NewMeta(PlanFor(FOUND).value, 3), [STALE]);
               !SearchOrderOk(after.levels[0], Level1(after.levels), after.readers, 2)
  {
    FoundPlan();
    AddedState();
    InOrderBefore();
    LateOrderExactly(FOUND, [ADDED], 3, [STALE], 2);
    MergedIsOlder();
    assert !Newer([STALE], [ADDED][0].table);
  }

  /** It does happen: a compaction plans with one file, a newer one is added, and when
      the merged table is installed a lookup gives the older value again. The order a
      search relies on holds before and not afterwards. */
  lemma LateInstallExample()
    ensures var now := AddAll(FOUND, [ADDED]);
            && PlanFor(FOUND).Some? && IsMerge(InputTables(FOUND, PlanFor(FOUND).value), [STALE]) && now.levels != []
            && SearchOrderOk(now.levels[0], Level1(now.levels), now.readers, 2) && TablesGet(now, [1], 2) == Some([9])
            && var after := WithL0(now, NewMeta(PlanFor(FOUND).value, 3), [STALE]);
               && !SearchOrderOk(after.levels[0], Level1(after.levels), after.readers, 2)
               && TablesGet(after, [1], 2) == Some([7])
  {
    FoundPlan();
    StaleLookup();
    OrderBroken();
  }
}
