/** Scans of the levels (crates/lsm/src/engine.rs, lines 152-169): which table a scan
    believes, when that is the newest, and that installing a merged table changes no
    scan. */
module LevelScan {
  import opened Wrappers
  import opened Bytes
  import opened Levels
  import opened EngineState
  import opened SsTableTheorems
  import opened Merge
  import opened Versions
  import opened Compaction
  import opened CompactionTheorems
  import opened InstallTheorems
  import opened LateInstall

  // ---------- which table a scan believes ----------

  /** Scanning a table leaves a key it does not hold as it was, and takes its own version otherwise. */
  lemma {:induction false} ScanTableAt(before: map<Bytes, Bytes>, t: Table, prefix: Bytes, readSeq: nat, key: Bytes)
    requires prefix <= key && AscendingKeys(t) && forall i :: 0 <= i < |t| ==> t[i].seqNo <= readSeq
    ensures Find(ScanTable(before, t, prefix, readSeq), key) ==
            if HasKey(t, key) then TableGet(t, key, readSeq) else Find(before, key)
  {
    if t != [] {
      var init, e := t[..|t| - 1], t[|t| - 1];
      assert init + [e] == t;
      ScanTableAt(before, init, prefix, readSeq, key);
      HasKeySnoc(init, e, key);
      TableGetAppend(init, [e], key, readSeq);
      assert TableGet([e], key, readSeq) == if e.key == key then e.ReadAt(readSeq) else None;
    }
  }

  lemma HasKeySnoc(t: Table, e: Entry, key: Bytes)
    requires AscendingKeys(t + [e])
    ensures HasKey(t + [e], key) <==> HasKey(t, key) || e.key == key
    ensures e.key == key ==> !HasKey(t, key)
  {
    var all := t + [e];
    assert all[|t|] == e;
    if HasKey(t, key) {
      var i :| 0 <= i < |t| && t[i].key == key;
      assert all[i].key == key && Less(all[i].key, all[|t|].key);
      LessIrreflexive(key);
    }
    if HasKey(all, key) && e.key != key {
      var i :| 0 <= i < |all| && all[i].key == key;
      assert t[i].key == key;
    }
  }

  /** A scan of a level answers for each key with the last table that holds it,
      where a lookup answers with the first that has a live version: on a level 0
      kept newest-first, the oldest table wins. */
  lemma {:induction false} ScanTakesLast(before: map<Bytes, Bytes>, level: seq<SstMeta>, readers: map<u64, Table>,
                                         prefix: Bytes, readSeq: nat, key: Bytes, n: nat)
    requires prefix <= key && LevelOpen(level, readers, readSeq) && n < |level|
    requires HasKey(readers[level[n].id], key)
    requires forall i :: n < i < |level| ==> !HasKey(readers[level[i].id], key)
    ensures Find(ScanLevel(before, level, readers, prefix, readSeq), key) ==
            TableGet(readers[level[n].id], key, readSeq)
  {
    var last := |level| - 1;
    var init := level[..last];
    assert LevelOpen(init, readers, readSeq);
    var sofar := ScanLevel(before, init, readers, prefix, readSeq);
    ScanTableAt(sofar, readers[level[last].id], prefix, readSeq, key);
    if n < last {
      ScanTakesLast(before, init, readers, prefix, readSeq, key, n);
    }
  }

  /** Tables that do not hold a key leave it as it was. */
  lemma {:induction false} ScanSkips(before: map<Bytes, Bytes>, level: seq<SstMeta>, readers: map<u64, Table>,
                                     prefix: Bytes, readSeq: nat, key: Bytes)
    requires prefix <= key && LevelOpen(level, readers, readSeq)
    requires forall i :: 0 <= i < |level| ==> !HasKey(readers[level[i].id], key)
    ensures Find(ScanLevel(before, level, readers, prefix, readSeq), key) == Find(before, key)
  {
    if level != [] {
      var last := |level| - 1;
      var init := level[..last];
      assert LevelOpen(init, readers, readSeq);
      var sofar := ScanLevel(before, init, readers, prefix, readSeq);
      ScanTableAt(sofar, readers[level[last].id], prefix, readSeq, key);
      ScanSkips(before, init, readers, prefix, readSeq, key);
    }
  }

  // ---------- when the last table is right ----------

  /** No version of a key is newer further down the level. */
  ghost predicate NewestFirst(level: seq<SstMeta>, readers: map<u64, Table>)
    requires forall i :: 0 <= i < |level| ==> level[i].id in readers
  {
    forall i, j :: 0 <= i < j < |level| ==> Newer(readers[level[i].id], readers[level[j].id])
  }

  /** The table holds the key and none of the tables in [from, to) does. */
  ghost predicate OnlyHolder(level: seq<SstMeta>, readers: map<u64, Table>, key: Bytes, n: nat, from: nat, to: nat)
    requires forall i :: 0 <= i < |level| ==> level[i].id in readers
  {
    && n < |level| && HasKey(readers[level[n].id], key)
    && forall i :: from <= i < to && i < |level| ==> !HasKey(readers[level[i].id], key)
  }

  /** The version in the first table that holds a key is above all others of the level. */
  lemma FirstIsAbove(level: seq<SstMeta>, readers: map<u64, Table>, readSeq: nat, first: nat, a: nat, d: Entry)
    requires LevelOpen(level, readers, readSeq) && NewestFirst(level, readers)
    requires first < |level| && a < |readers[level[first].id]|
    requires OnlyHolder(level, readers, readers[level[first].id][a].key, first, 0, first)
    requires InOpened(level, readers, d) && d.key == readers[level[first].id][a].key
    ensures d.seqNo < readers[level[first].id][a].seqNo || d == readers[level[first].id][a]
  {
    var t := readers[level[first].id];
    var i :| 0 <= i < |level| && level[i].id in readers && d in readers[level[i].id];
    var n :| 0 <= n < |readers[level[i].id]| && readers[level[i].id][n] == d;
    assert HasKey(readers[level[i].id], d.key);
    if i == first {
      KeyOnce(t, a, n);
    } else {
      assert Newer(t, readers[level[i].id]);
    }
  }

  /** In a level kept newest first the newest version of a key is in the first table that holds it. */
  lemma FirstHoldsNewest(level: seq<SstMeta>, readers: map<u64, Table>, readSeq: nat, e: Entry, first: nat)
    requires LevelOpen(level, readers, readSeq) && NewestFirst(level, readers)
    requires OnlyHolder(level, readers, e.key, first, 0, first)
    ensures Newest(OpenedIn(level, readers), e) <==> e in readers[level[first].id]
  {
    var t := readers[level[first].id];
    var a :| 0 <= a < |t| && t[a].key == e.key;
    assert t[a] in t && InOpened(level, readers, t[a]);
    if Newest(OpenedIn(level, readers), e) {
      FirstIsAbove(level, readers, readSeq, first, a, e);
    }
    if e in t {
      assert InOpened(level, readers, e);
      SameVersion(t, a, e);
      forall d | InOpened(level, readers, d) && d.key == e.key ensures d.seqNo <= e.seqNo {
        FirstIsAbove(level, readers, readSeq, first, a, d);
      }
    }
  }

  lemma SameVersion(t: Table, a: nat, e: Entry)
    requires AscendingKeys(t) && a < |t| && e in t && t[a].key == e.key
    ensures t[a] == e
  {
    var n :| 0 <= n < |t| && t[n] == e;
    KeyOnce(t, a, n);
  }

  /** Over a visible level kept newest first, as level 0 is, a scan gives the reading
      of the newest version of a key exactly when the first and the last table that
      hold the key read the same. */
  lemma ScanRightExactly(before: map<Bytes, Bytes>, level: seq<SstMeta>, readers: map<u64, Table>,
                         prefix: Bytes, readSeq: nat, e: Entry, first: nat, last: nat)
    requires prefix <= e.key && LevelOpen(level, readers, readSeq) && NewestFirst(level, readers)
    requires Newest(OpenedIn(level, readers), e)
    requires OnlyHolder(level, readers, e.key, first, 0, first)
    requires OnlyHolder(level, readers, e.key, last, last + 1, |level|)
    ensures Find(ScanLevel(before, level, readers, prefix, readSeq), e.key) == e.ReadAt(readSeq) <==>
            TableGet(readers[level[first].id], e.key, readSeq) == TableGet(readers[level[last].id], e.key, readSeq)
  {
    FirstHoldsNewest(level, readers, readSeq, e, first);
    var n :| 0 <= n < |readers[level[first].id]| && readers[level[first].id][n] == e;
    TableGetAt(readers[level[first].id], n, readSeq);
    ScanTakesLast(before, level, readers, prefix, readSeq, e.key, last);
  }

  const OLDER := Entry([1], 1, false, [7])
  const NEWER := Entry([1], 2, false, [9])
  const TWO_FILES := LevelState([[SstMeta(2, [1], [1], 1), SstMeta(1, [1], [1], 1)], [], []],
                                map[1 := [OLDER], 2 := [NEWER]])

  /** It does happen: with the newer of two files in front, a lookup finds the
      newer value and a scan lists the older one. */
  lemma ScanDisagreesExample()
    ensures SearchOrderOk(TWO_FILES.levels[0], Level1(TWO_FILES.levels), TWO_FILES.readers, 2)
    ensures TablesGet(TWO_FILES, [1], 2) == Some([9])
    ensures Find(ScanTables(TWO_FILES.levels, TWO_FILES.readers, [], 2), [1]) == Some([7])
  {
    var level, readers := TWO_FILES.levels[0], TWO_FILES.readers;
    assert TWO_FILES.readers[2] == [NEWER] && TWO_FILES.readers[1] == [OLDER];
    assert HasKey([OLDER], [1]) by {
      assert [OLDER][0].key == [1];
    }
    LevelGetFirst(level, readers, false, [1], 2, 0);
    ScanTakesLast(ScanTables(TWO_FILES.levels[1..], readers, [], 2), level, readers, [], 2, [1], 1);
  }

  // ---------- installing a merged table ----------

  lemma {:induction false} ScanTablePrefix(before: map<Bytes, Bytes>, t: Table, prefix: Bytes, readSeq: nat, key: Bytes)
    requires !(prefix <= key) && key !in before
    ensures key !in ScanTable(before, t, prefix, readSeq)
  {
    if t != [] {
      ScanTablePrefix(before, t[..|t| - 1], prefix, readSeq, key);
    }
  }

  lemma {:induction false} ScanLevelPrefix(before: map<Bytes, Bytes>, level: seq<SstMeta>, readers: map<u64, Table>,
                                           prefix: Bytes, readSeq: nat, key: Bytes)
    requires !(prefix <= key) && key !in before
    ensures key !in ScanLevel(before, level, readers, prefix, readSeq)
  {
    if level != [] {
      var meta, init := level[|level| - 1], level[..|level| - 1];
      ScanLevelPrefix(before, init, readers, prefix, readSeq, key);
      if meta.id in readers {
        ScanTablePrefix(ScanLevel(before, init, readers, prefix, readSeq), readers[meta.id], prefix, readSeq, key);
      }
    }
  }

  /** A scan lists keys with its prefix only. */
  lemma {:induction false} ScanTablesPrefix(levels: seq<seq<SstMeta>>, readers: map<u64, Table>,
                                            prefix: Bytes, readSeq: nat, key: Bytes)
    requires !(prefix <= key)
    ensures key !in ScanTables(levels, readers, prefix, readSeq)
  {
    if levels != [] {
      ScanTablesPrefix(levels[1..], readers, prefix, readSeq, key);
      ScanLevelPrefix(ScanTables(levels[1..], readers, prefix, readSeq), levels[0], readers, prefix, readSeq, key);
    }
  }

  lemma {:induction false} ScanLevelMoreReaders(before: map<Bytes, Bytes>, level: seq<SstMeta>, readers: map<u64,
                                                Table>,
                                                id: u64, table: Table, prefix: Bytes, readSeq: nat)
    requires forall i :: 0 <= i < |level| ==> level[i].id != id
    ensures ScanLevel(before, level, readers[id := table], prefix, readSeq) ==
            ScanLevel(before, level, readers, prefix, readSeq)
  {
    if level != [] {
      ScanLevelMoreReaders(before, level[..|level| - 1], readers, id, table, prefix, readSeq);
    }
  }

  lemma {:induction false} ScanTablesMoreReaders(levels: seq<seq<SstMeta>>, readers: map<u64, Table>, id: u64,
                                                 table: Table,
                                                 prefix: Bytes, readSeq: nat)
    requires forall i, j :: 0 <= i < |levels| && 0 <= j < |levels[i]| ==> levels[i][j].id != id
    ensures ScanTables(levels, readers[id := table], prefix, readSeq) == ScanTables(levels, readers, prefix, readSeq)
  {
    if levels != [] {
      ScanTablesMoreReaders(levels[1..], readers, id, table, prefix, readSeq);
      ScanLevelMoreReaders(ScanTables(levels[1..], readers, prefix, readSeq), levels[0], readers, id, table,
                           prefix, readSeq);
    }
  }

  lemma {:induction false} LastHolder(level: seq<SstMeta>, readers: map<u64, Table>, key: Bytes) returns (n: int)
    requires forall i :: 0 <= i < |level| ==> level[i].id in readers
    ensures -1 <= n < |level| && forall i :: n < i < |level| ==> !HasKey(readers[level[i].id], key)
    ensures n >= 0 ==> HasKey(readers[level[n].id], key)
  {
    n := |level| - 1;
    while n >= 0 && !HasKey(readers[level[n].id], key)
      invariant -1 <= n < |level| && forall i :: n < i < |level| ==> !HasKey(readers[level[i].id], key)
    {
      n := n - 1;
    }
  }

  /** Behind a table put in front, the others stay as they were. */
  lemma BehindFront(level: seq<SstMeta>, readers: map<u64, Table>, meta: SstMeta, t: Table, readSeq: nat,
                    key: Bytes, n: int)
    requires LevelOpen([meta] + level, readers[meta.id := t], readSeq)
    requires -1 <= n < |level| && forall i :: 0 <= i < |level| ==> level[i].id != meta.id
    requires forall i :: 0 <= i < |level| ==> level[i].id in readers
    requires forall i :: n < i < |level| ==> !HasKey(readers[level[i].id], key)
    ensures LevelOpen(level, readers, readSeq)
    ensures var front, readers' := [meta] + level, readers[meta.id := t];
            && (forall i :: n + 1 < i < |front| ==> !HasKey(readers'[front[i].id], key))
            && readers'[front[n + 1].id] == if n >= 0 then readers[level[n].id] else t
  {
    var front, readers' := [meta] + level, readers[meta.id := t];
    forall i | 0 <= i < |level|
      ensures front[i + 1] == level[i] && readers'[level[i].id] == readers[level[i].id]
    {
    }
    forall i | n + 1 < i < |front| ensures !HasKey(readers'[front[i].id], key) {
      assert front[(i - 1) + 1] == level[i - 1];
    }
  }

  /** A level with a table put in front: the table counts only for keys no other holds. */
  lemma ScanInFront(before: map<Bytes, Bytes>, level: seq<SstMeta>, readers: map<u64, Table>, meta: SstMeta, t: Table,
                    prefix: Bytes, readSeq: nat, key: Bytes)
    requires prefix <= key && LevelOpen([meta] + level, readers[meta.id := t], readSeq)
    requires LevelOpen(level, readers, readSeq) && forall i :: 0 <= i < |level| ==> level[i].id != meta.id
    ensures var after := Find(ScanLevel(before, [meta] + level, readers[meta.id := t], prefix, readSeq), key);
            if HasKey(t, key) && forall i :: 0 <= i < |level| ==> !HasKey(readers[level[i].id], key)
            then after == TableGet(t, key, readSeq)
            else after == Find(ScanLevel(before, level, readers, prefix, readSeq), key)
  {
    var n := LastHolder(level, readers, key);
    BehindFront(level, readers, meta, t, readSeq, key, n);
    if n >= 0 {
      ScanTakesLast(before, level, readers, prefix, readSeq, key, n);
      ScanTakesLast(before, [meta] + level, readers[meta.id := t], prefix, readSeq, key, n + 1);
    } else {
      ScanSkips(before, level, readers, prefix, readSeq, key);
      if HasKey(t, key) {
        ScanTakesLast(before, [meta] + level, readers[meta.id := t], prefix, readSeq, key, 0);
      } else {
        ScanSkips(before, [meta] + level, readers[meta.id := t], prefix, readSeq, key);
      }
    }
  }

  lemma OutsideRange(meta: SstMeta, t: Table, key: Bytes)
    requires RangeHolds(meta, t) && !InRange(meta, key)
    ensures !HasKey(t, key)
  {
  }

  /** A merged key that level 0 does not hold reads as level 1 does. */
  lemma MergedReadsAsL1(before: map<Bytes, Bytes>, l0: seq<SstMeta>, over: seq<SstMeta>, l1: seq<SstMeta>,
                        readers: map<u64, Table>, merged: Table, prefix: Bytes, readSeq: nat, key: Bytes)
    requires TablesOk(l0, l1, readers, readSeq) && forall x :: x in over ==> x in l1
    requires IsMerge(TablesOf(l0 + over, readers), merged) && prefix <= key && HasKey(merged, key)
    requires forall i :: 0 <= i < |l0| ==> !HasKey(readers[l0[i].id], key)
    ensures Find(ScanLevel(before, l1, readers, prefix, readSeq), key) == TableGet(merged, key, readSeq)
    ensures l1 != []
  {
    var m :| 0 <= m < |merged| && merged[m].key == key;
    var p, j := MergedFrom(l0, over, readers, merged, m);
    assert HasKey(readers[(l0 + over)[p].id], key);
    assert forall i :: 0 <= i < |l0| ==> (l0 + over)[i] == l0[i];
    assert p >= |l0|;
    assert (l0 + over)[p] == over[p - |l0|] && over[p - |l0|] in over;
    var r :| 0 <= r < |l1| && l1[r] == (l0 + over)[p];
    assert InRange(l1[r], readers[l1[r].id][j].key);
    forall q | r < q < |l1| ensures !HasKey(readers[l1[q].id], key) {
      ApartEither(l1, q, r, key);
      OutsideRange(l1[q], readers[l1[q].id], key);
    }
    ScanTakesLast(before, l1, readers, prefix, readSeq, key, r);
    TableGetAt(readers[l1[r].id], j, readSeq);
    TableGetAt(merged, m, readSeq);
  }

  /** What lies below level 0 scans as before files were added. */
  lemma {:induction false} AddedScan(s: LevelState, files: seq<File>, prefix: Bytes, readSeq: nat)
    requires s.levels != [] && AddsFresh(s, files)
    ensures var now := AddAll(s, files);
            now.levels != [] &&
            ScanTables(now.levels[1..], now.readers, prefix, readSeq) ==
            ScanTables(s.levels[1..], s.readers, prefix, readSeq)
  {
    AddsKeep(s, files);
    if files != [] {
      var n := |files| - 1;
      AddedScan(s, files[..n], prefix, readSeq);
      FrontScan(AddAll(s, files[..n]), files[n].meta, files[n].table, prefix, readSeq);
    }
  }

  lemma FrontScan(s: LevelState, meta: SstMeta, t: Table, prefix: Bytes, readSeq: nat)
    requires s.levels != [] && meta.id !in LevelIds(s.levels)
    ensures var s' := WithL0(s, meta, t);
            && s'.levels[1..] == s.levels[1..]
            && ScanTables(s'.levels[1..], s'.readers, prefix, readSeq) ==
               ScanTables(s.levels[1..], s.readers, prefix, readSeq)
  {
    assert WithL0(s, meta, t).levels[1..] == s.levels[1..];
    forall i, j | 0 <= i < |s.levels[1..]| && 0 <= j < |s.levels[1..][i]| ensures s.levels[1..][i][j].id != meta.id {
      assert s.levels[i + 1][j].id in LevelIds(s.levels);
    }
    ScanTablesMoreReaders(s.levels[1..], s.readers, meta.id, t, prefix, readSeq);
  }

  /** Installing is invisible to scans, whatever the order of the tables is and whatever
      files were added since the compaction was planned. */
  lemma InstallInvisibleToScans(s: LevelState, files: seq<File>, newId: u64, merged: Table, prefix: Bytes, readSeq: nat)
    requires PlanFor(s).Some? && AddsFresh(s, files) && newId !in LevelIds(AddAll(s, files).levels)
    requires TablesOk(s.levels[0], Level1(s.levels), s.readers, readSeq)
    requires AddAll(s, files).levels != [] && LevelOpen(AddAll(s, files).levels[0], AddAll(s, files).readers, readSeq)
    requires IsMerge(InputTables(s, PlanFor(s).value), merged)
    ensures var now := AddAll(s, files);
            var after := WithL0(now, NewMeta(PlanFor(s).value, newId), merged);
            ScanTables(after.levels, after.readers, prefix, readSeq) ==
            ScanTables(now.levels, now.readers, prefix, readSeq)
  {
    var now, meta := AddAll(s, files), NewMeta(PlanFor(s).value, newId);
    var after := WithL0(now, meta, merged);
    MergedOpenInFront(s, now, meta, merged, readSeq);
    FrontScan(now, meta, merged, prefix, readSeq);
    var was := ScanTables(now.levels, now.readers, prefix, readSeq);
    var scanned := ScanTables(after.levels, after.readers, prefix, readSeq);
    forall key ensures Find(scanned, key) == Find(was, key) {
      if prefix <= key {
        ScanOneKey(s, files, meta, merged, prefix, readSeq, key);
      } else {
        ScanTablesPrefix(now.levels, now.readers, prefix, readSeq, key);
        ScanTablesPrefix(after.levels, after.readers, prefix, readSeq, key);
      }
    }
    SameFinds(scanned, was);
  }

  lemma MergedOpenInFront(s: LevelState, now: LevelState, meta: SstMeta, merged: Table, readSeq: nat)
    requires PlanFor(s).Some? && TablesOk(s.levels[0], Level1(s.levels), s.readers, readSeq)
    requires IsMerge(InputTables(s, PlanFor(s).value), merged)
    requires now.levels != [] && meta.id !in LevelIds(now.levels) && LevelOpen(now.levels[0], now.readers, readSeq)
    ensures var after := WithL0(now, meta, merged);
            after.levels[0] == [meta] + now.levels[0] && LevelOpen(after.levels[0], after.readers, readSeq)
  {
    var plan := PlanFor(s).value;
    forall x | x in plan.overlapping ensures x in Level1(s.levels) {
      OverlappingMember(Level1(s.levels), plan.minKey, plan.maxKey, x);
    }
    MergedVisible(s.levels[0], plan.overlapping, Level1(s.levels), s.readers, readSeq, merged);
    FrontReaders(now, meta, merged);
  }

  lemma ScanOneKey(s: LevelState, files: seq<File>, meta: SstMeta, merged: Table, prefix: Bytes, readSeq: nat,
                   key: Bytes)
    requires PlanFor(s).Some? && prefix <= key && AddsFresh(s, files) && AddAll(s, files).levels != []
    requires TablesOk(s.levels[0], Level1(s.levels), s.readers, readSeq)
    requires IsMerge(InputTables(s, PlanFor(s).value), merged)
    requires var now := AddAll(s, files);
             var after := WithL0(now, meta, merged);
             && meta.id !in LevelIds(now.levels) && LevelOpen(now.levels[0], now.readers, readSeq)
             && LevelOpen(after.levels[0], after.readers, readSeq)
             && ScanTables(after.levels[1..], after.readers, prefix, readSeq) ==
                ScanTables(now.levels[1..], now.readers, prefix, readSeq)
    ensures var now := AddAll(s, files);
            var after := WithL0(now, meta, merged);
            Find(ScanTables(after.levels, after.readers, prefix, readSeq), key) ==
            Find(ScanTables(now.levels, now.readers, prefix, readSeq), key)
  {
    var now := AddAll(s, files);
    var l0 := now.levels[0];
    var before := ScanTables(now.levels[1..], now.readers, prefix, readSeq);
    assert forall j :: 0 <= j < |l0| ==> now.levels[0][j].id in LevelIds(now.levels);
    ScanInFront(before, l0, now.readers, meta, merged, prefix, readSeq, key);
    if HasKey(merged, key) && forall j :: 0 <= j < |l0| ==> !HasKey(now.readers[l0[j].id], key) {
      forall i | 0 <= i < |s.levels[0]| ensures !HasKey(s.readers[s.levels[0][i].id], key) {
        var j := FoundIsThere(s, files, i);
      }
      MergedKeyBelow(s, merged, prefix, readSeq, key);
      AddedScan(s, files, prefix, readSeq);
      ScanSkips(before, l0, now.readers, prefix, readSeq, key);
    }
  }

  lemma MergedKeyBelow(s: LevelState, merged: Table, prefix: Bytes, readSeq: nat, key: Bytes)
    requires PlanFor(s).Some? && prefix <= key && TablesOk(s.levels[0], Level1(s.levels), s.readers, readSeq)
    requires IsMerge(InputTables(s, PlanFor(s).value), merged) && HasKey(merged, key)
    requires forall i :: 0 <= i < |s.levels[0]| ==> !HasKey(s.readers[s.levels[0][i].id], key)
    ensures Find(ScanTables(s.levels[1..], s.readers, prefix, readSeq), key) == TableGet(merged, key, readSeq)
  {
    var plan, l1 := PlanFor(s).value, Level1(s.levels);
    forall x | x in plan.overlapping ensures x in l1 {
      OverlappingMember(l1, plan.minKey, plan.maxKey, x);
    }
    var deepest := if |s.levels| > 1 then ScanTables(s.levels[2..], s.readers, prefix, readSeq) else map[];
    MergedReadsAsL1(deepest, s.levels[0], plan.overlapping, l1, s.readers, merged, prefix, readSeq, key);
    assert s.levels[1..][0] == l1 && s.levels[1..][1..] == s.levels[2..];
  }
}
