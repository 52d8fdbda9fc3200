/** Installing a merged table at the front of level 0 while the tables it was
    merged from stay (crates/lsm/src/compaction.rs, lines 176-178), and what
    searching the levels does when their order or ranges are not as assumed. */
module InstallTheorems {
  import opened Wrappers
  import opened Bytes
  import opened Levels
  import opened EngineState
  import opened Merge
  import opened Compaction
  import opened CompactionTheorems

  // ---------- searching one level ----------

  /** What one table of a level gives a search. */
  function Found(meta: SstMeta, readers: map<u64, Table>, ranged: bool, key: Bytes, readSeq: nat): Option<Bytes> {
    if (ranged ==> InRange(meta, key)) && meta.id in readers then TableGet(readers[meta.id], key, readSeq) else None
  }

  /** Tables that give nothing are passed over. */
  lemma {:induction false} LevelGetSkips(level: seq<SstMeta>, readers: map<u64, Table>, ranged: bool,
                                         key: Bytes, readSeq: nat, n: nat)
    requires n <= |level| && forall i :: 0 <= i < n ==> Found(level[i], readers, ranged, key, readSeq) == None
    ensures LevelGet(level, readers, ranged, key, readSeq) == LevelGet(level[n..], readers, ranged, key, readSeq)
  {
    if n > 0 {
      assert Found(level[0], readers, ranged, key, readSeq) == None;
      assert forall i :: 0 <= i < n - 1 ==> level[1..][i] == level[i + 1];
      LevelGetSkips(level[1..], readers, ranged, key, readSeq, n - 1);
      assert level[1..][n - 1..] == level[n..];
    }
  }

  /** A search returns what the first table with anything gives. */
  lemma LevelGetFirst(level: seq<SstMeta>, readers: map<u64, Table>, ranged: bool, key: Bytes, readSeq: nat, n: nat)
    requires n < |level| && forall i :: 0 <= i < n ==> Found(level[i], readers, ranged, key, readSeq) == None
    requires Found(level[n], readers, ranged, key, readSeq).Some?
    ensures LevelGet(level, readers, ranged, key, readSeq) == Found(level[n], readers, ranged, key, readSeq)
  {
    LevelGetSkips(level, readers, ranged, key, readSeq, n);
    assert level[n..][0] == level[n];
  }

  lemma LevelGetNothing(level: seq<SstMeta>, readers: map<u64, Table>, ranged: bool, key: Bytes, readSeq: nat)
    requires forall i :: 0 <= i < |level| ==> Found(level[i], readers, ranged, key, readSeq) == None
    ensures LevelGet(level, readers, ranged, key, readSeq) == None
  {
    LevelGetSkips(level, readers, ranged, key, readSeq, |level|);
  }

  /** Opening one more table does not matter to levels that do not list it. */
  lemma {:induction false} LevelGetMoreReaders(level: seq<SstMeta>, readers: map<u64, Table>, id: u64, table: Table,
                                               ranged: bool, key: Bytes, readSeq: nat)
    requires forall i :: 0 <= i < |level| ==> level[i].id != id
    ensures LevelGet(level, readers[id := table], ranged, key, readSeq) ==
            LevelGet(level, readers, ranged, key, readSeq)
  {
    if level != [] {
      LevelGetMoreReaders(level[1..], readers, id, table, ranged, key, readSeq);
    }
  }

  lemma {:induction false} DeepGetMoreReaders(levels: seq<seq<SstMeta>>, readers: map<u64, Table>, id: u64,
                                              table: Table,
                                              key: Bytes, readSeq: nat)
    requires forall i, j :: 0 <= i < |levels| && 0 <= j < |levels[i]| ==> levels[i][j].id != id
    ensures DeepGet(levels, readers[id := table], key, readSeq) == DeepGet(levels, readers, key, readSeq)
  {
    if levels != [] {
      LevelGetMoreReaders(levels[0], readers, id, table, true, key, readSeq);
      DeepGetMoreReaders(levels[1..], readers, id, table, key, readSeq);
    }
  }

  // ---------- what installing assumes ----------

  /** Every table of a level is open, ascending, and visible at readSeq. */
  ghost predicate LevelOpen(level: seq<SstMeta>, readers: map<u64, Table>, readSeq: nat) {
    forall i :: 0 <= i < |level| ==>
      && level[i].id in readers && AscendingKeys(readers[level[i].id])
      && forall n :: 0 <= n < |readers[level[i].id]| ==> readers[level[i].id][n].seqNo <= readSeq
  }

  /** Every version in one table is newer than any version of its key in another,
      or is that version, as it is once the one has been merged from the other. */
  ghost predicate Newer(a: Table, b: Table) {
    forall m, n :: 0 <= m < |a| && 0 <= n < |b| && a[m].key == b[n].key ==> a[m].seqNo > b[n].seqNo || a[m] == b[n]
  }

  /** The same for one key. */
  ghost predicate NewerFor(a: Table, b: Table, key: Bytes) {
    forall m, n :: 0 <= m < |a| && 0 <= n < |b| && a[m].key == b[n].key == key ==>
      a[m].seqNo > b[n].seqNo || a[m] == b[n]
  }

  /** All tables are open and visible; level 1 has disjoint ranges that bound its tables. */
  ghost predicate TablesOk(l0: seq<SstMeta>, l1: seq<SstMeta>, readers: map<u64, Table>, readSeq: nat) {
    && LevelOpen(l0, readers, readSeq) && LevelOpen(l1, readers, readSeq) && DisjointRanges(l1)
    && forall j :: 0 <= j < |l1| ==> RangeHolds(l1[j], readers[l1[j].id])
  }

  /** And versions of a key never get newer along level 0 and from level 0 to level 1. */
  ghost predicate SearchOrderOk(l0: seq<SstMeta>, l1: seq<SstMeta>, readers: map<u64, Table>, readSeq: nat) {
    && TablesOk(l0, l1, readers, readSeq)
    && (forall i, j :: 0 <= i < j < |l0| ==> Newer(readers[l0[i].id], readers[l0[j].id]))
    && (forall i, j :: 0 <= i < |l0| && 0 <= j < |l1| ==> Newer(readers[l0[i].id], readers[l1[j].id]))
  }

  ghost predicate SearchOrderFor(l0: seq<SstMeta>, l1: seq<SstMeta>, readers: map<u64, Table>, readSeq: nat,
                                 key: Bytes)
  {
    && TablesOk(l0, l1, readers, readSeq)
    && (forall i, j :: 0 <= i < j < |l0| ==> NewerFor(readers[l0[i].id], readers[l0[j].id], key))
    && (forall i, j :: 0 <= i < |l0| && 0 <= j < |l1| ==> NewerFor(readers[l0[i].id], readers[l1[j].id], key))
  }

  lemma OrderForKey(l0: seq<SstMeta>, l1: seq<SstMeta>, readers: map<u64, Table>, readSeq: nat, key: Bytes)
    requires SearchOrderOk(l0, l1, readers, readSeq)
    ensures SearchOrderFor(l0, l1, readers, readSeq, key)
  {
    forall i, j | 0 <= i < j < |l0| ensures NewerFor(readers[l0[i].id], readers[l0[j].id], key) {
      assert Newer(readers[l0[i].id], readers[l0[j].id]);
    }
    forall i, j | 0 <= i < |l0| && 0 <= j < |l1| ensures NewerFor(readers[l0[i].id], readers[l1[j].id], key) {
      assert Newer(readers[l0[i].id], readers[l1[j].id]);
    }
  }

  // ---------- the merged table finds what the levels find ----------

  lemma {:induction false} FirstHolder(level: seq<SstMeta>, readers: map<u64, Table>, key: Bytes) returns (n: nat)
    requires forall i :: 0 <= i < |level| ==> level[i].id in readers
    ensures n <= |level| && forall i :: 0 <= i < n ==> !HasKey(readers[level[i].id], key)
    ensures n < |level| ==> HasKey(readers[level[n].id], key)
  {
    n := 0;
    while n < |level| && !HasKey(readers[level[n].id], key)
      invariant n <= |level| && forall i :: 0 <= i < n ==> !HasKey(readers[level[i].id], key)
    {
      n := n + 1;
    }
  }

  /** Tables without the key give nothing. */
  lemma AbsentFindsNothing(level: seq<SstMeta>, readers: map<u64, Table>, ranged: bool, key: Bytes, readSeq: nat,
                           n: nat)
    requires n <= |level| && forall i :: 0 <= i < n ==> level[i].id in readers && !HasKey(readers[level[i].id], key)
    ensures forall i :: 0 <= i < n ==> Found(level[i], readers, ranged, key, readSeq) == None
  {
    forall i | 0 <= i < n ensures Found(level[i], readers, ranged, key, readSeq) == None {
      TableGetAbsent(readers[level[i].id], key, readSeq);
    }
  }

  /** Case one: some level-0 table has the key; the first that does holds the merged version. */
  lemma FoundInL0(l0: seq<SstMeta>, over: seq<SstMeta>, l1: seq<SstMeta>, readers: map<u64, Table>, readSeq: nat,
                  merged: Table, m: nat, n: nat)
    requires IsMerge(TablesOf(l0 + over, readers), merged) && m < |merged| && !merged[m].tombstone
    requires SearchOrderFor(l0, l1, readers, readSeq, merged[m].key) && forall x :: x in over ==> x in l1
    requires n < |l0| && HasKey(readers[l0[n].id], merged[m].key)
    requires forall i :: 0 <= i < n ==> !HasKey(readers[l0[i].id], merged[m].key)
    ensures LevelGet(l0, readers, false, merged[m].key, readSeq) == Some(merged[m].value)
  {
    var e, metas := merged[m], l0 + over;
    var t := readers[l0[n].id];
    var a :| 0 <= a < |t| && t[a].key == e.key;
    AllOpen(l0, over, l1, readers, readSeq);
    assert t[a] == e by {
      assert IsVersion(TablesOf(metas, readers), merged[m]) && IsNewest(TablesOf(metas, readers), merged[m]);
      var i, j :| 0 <= i < |TablesOf(metas, readers)| && 0 <= j < |TablesOf(metas, readers)[i]| &&
                  TablesOf(metas, readers)[i][j] == e;
      var p := TablesOfOpened(metas, readers, i);
      var q := TableOfOpened(metas, readers, n);
      assert metas[n] == l0[n];
      assert TablesOf(metas, readers)[q][a].seqNo <= e.seqNo;
      assert HasKey(readers[metas[p].id], e.key) && (p < |l0| ==> metas[p] == l0[p]);
      if n < p {
        LaterIsOlder(l0, over, l1, readers, readSeq, n, p, a, j, e.key);
      } else {
        assert p == n;
        KeyOnce(t, a, j);
      }
    }
    TableGetAt(t, a, readSeq);
    AbsentFindsNothing(l0, readers, false, e.key, readSeq, n);
    LevelGetFirst(l0, readers, false, e.key, readSeq, n);
  }

  lemma AllOpen(l0: seq<SstMeta>, over: seq<SstMeta>, l1: seq<SstMeta>, readers: map<u64, Table>, readSeq: nat)
    requires LevelOpen(l0, readers, readSeq) && LevelOpen(l1, readers, readSeq) && forall x :: x in over ==> x in l1
    ensures forall j :: 0 <= j < |l0 + over| ==> (l0 + over)[j].id in readers
  {
    forall j | 0 <= j < |l0 + over| ensures (l0 + over)[j].id in readers {
      if j >= |l0| {
        assert over[j - |l0|] in over;
      }
    }
  }

  /** A table further down holds an older version, or the same. */
  lemma LaterIsOlder(l0: seq<SstMeta>, over: seq<SstMeta>, l1: seq<SstMeta>, readers: map<u64, Table>, readSeq: nat,
                     n: nat, p: nat, a: nat, j: nat, key: Bytes)
    requires SearchOrderFor(l0, l1, readers, readSeq, key) && forall x :: x in over ==> x in l1
    requires n < |l0| && n < p < |l0 + over| && (l0 + over)[p].id in readers
    requires a < |readers[l0[n].id]| && j < |readers[(l0 + over)[p].id]|
    requires readers[l0[n].id][a].key == readers[(l0 + over)[p].id][j].key == key
    ensures var below, above := readers[(l0 + over)[p].id][j], readers[l0[n].id][a];
            below.seqNo < above.seqNo || below == above
  {
    if p < |l0| {
      assert NewerFor(readers[l0[n].id], readers[l0[p].id], key);
    } else {
      var x := over[p - |l0|];
      assert (l0 + over)[p] == x && x in over;
      var r :| 0 <= r < |l1| && l1[r] == x;
      assert NewerFor(readers[l0[n].id], readers[l1[r].id], key);
    }
  }

  /** Case two: no level-0 table has the key; the one level-1 table that does holds it. */
  lemma FoundInL1(l0: seq<SstMeta>, over: seq<SstMeta>, l1: seq<SstMeta>, readers: map<u64, Table>, readSeq: nat,
                  merged: Table, m: nat)
    requires TablesOk(l0, l1, readers, readSeq) && forall x :: x in over ==> x in l1
    requires IsMerge(TablesOf(l0 + over, readers), merged) && m < |merged| && !merged[m].tombstone
    requires forall i :: 0 <= i < |l0| ==> !HasKey(readers[l0[i].id], merged[m].key)
    ensures LevelGet(l0, readers, false, merged[m].key, readSeq) == None
    ensures LevelGet(l1, readers, true, merged[m].key, readSeq) == Some(merged[m].value)
  {
    var e, metas := merged[m], l0 + over;
    AllOpen(l0, over, l1, readers, readSeq);
    AbsentFindsNothing(l0, readers, false, e.key, readSeq, |l0|);
    LevelGetNothing(l0, readers, false, e.key, readSeq);
    assert IsVersion(TablesOf(metas, readers), merged[m]);
    var i, j :| 0 <= i < |TablesOf(metas, readers)| && 0 <= j < |TablesOf(metas, readers)[i]| &&
                TablesOf(metas, readers)[i][j] == e;
    var p := TablesOfOpened(metas, readers, i);
    assert HasKey(readers[metas[p].id], e.key);
    assert forall q :: 0 <= q < |l0| ==> metas[q] == l0[q];
    assert metas[p] == over[p - |l0|] && over[p - |l0|] in over;
    var r :| 0 <= r < |l1| && l1[r] == metas[p];
    assert InRange(l1[r], readers[l1[r].id][j].key);
    TableGetAt(readers[l1[r].id], j, readSeq);
    forall q | 0 <= q < r ensures Found(l1[q], readers, true, e.key, readSeq) == None {
      ApartRanges(l1[q], l1[r], e.key);
    }
    LevelGetFirst(l1, readers, true, e.key, readSeq, r);
  }

  /** A key lies in at most one of two ranges that are apart. */
  lemma ApartRanges(a: SstMeta, b: SstMeta, key: Bytes)
    requires Apart(a, b) && InRange(b, key)
    ensures !InRange(a, key)
  {
    KeyOrder();
  }

  lemma ApartEither(level: seq<SstMeta>, q: nat, r: nat, key: Bytes)
    requires DisjointRanges(level) && q < |level| && r < |level| && q != r && InRange(level[r], key)
    ensures !InRange(level[q], key)
  {
    if q < r {
      ApartRanges(level[q], level[r], key);
    } else {
      assert Apart(level[r], level[q]);
      ApartRanges(level[q], level[r], key);
    }
  }

  /** Installing is invisible: when no version of the key is newer further down, level 1
      has disjoint ranges that bound its tables, and the snapshot covers everything,
      a lookup returns the same before and after the merged table is put at the front
      of the level 0 it was planned from. */
  lemma InstallInvisible(s: LevelState, newId: u64, merged: Table, key: Bytes, readSeq: nat)
    requires PlanFor(s).Some? && newId !in LevelIds(s.levels)
    requires SearchOrderFor(s.levels[0], Level1(s.levels), s.readers, readSeq, key)
    requires IsMerge(InputTables(s, PlanFor(s).value), merged)
    ensures TablesGet(WithL0(s, NewMeta(PlanFor(s).value, newId), merged), key, readSeq) == TablesGet(s, key, readSeq)
  {
    var plan := PlanFor(s).value;
    var l0, l1 := s.levels[0], Level1(s.levels);
    FrontTable(s, NewMeta(plan, newId), merged, key, readSeq);
    if TableGet(merged, key, readSeq).Some? {
      var m := HitIndex(merged, key, readSeq);
      forall x | x in plan.overlapping ensures x in l1 {
        OverlappingMember(l1, plan.minKey, plan.maxKey, x);
      }
      var n := FirstHolder(l0, s.readers, key);
      if n < |l0| {
        FoundInL0(l0, plan.overlapping, l1, s.readers, readSeq, merged, m, n);
      } else {
        FoundInL1(l0, plan.overlapping, l1, s.readers, readSeq, merged, m);
        assert |s.levels| > 1 by {
          assert LevelGet([], s.readers, true, key, readSeq) == None;
        }
        assert s.levels[1..][0] == l1;
      }
    }
  }

  /** The entry a lookup in a table returned. */
  lemma {:induction false} HitIndex(t: Table, key: Bytes, readSeq: nat) returns (m: nat)
    requires TableGet(t, key, readSeq).Some?
    ensures m < |t| && t[m].key == key && !t[m].tombstone && TableGet(t, key, readSeq) == Some(t[m].value)
  {
    if t[0].key == key {
      m := 0;
    } else {
      m := HitIndex(t[1..], key, readSeq);
      m := m + 1;
    }
  }

  /** A new table at the front answers first; otherwise everything is as before. */
  lemma FrontTable(s: LevelState, meta: SstMeta, table: Table, key: Bytes, readSeq: nat)
    requires s.levels != [] && meta.id !in LevelIds(s.levels)
    ensures var hit := TableGet(table, key, readSeq);
            TablesGet(WithL0(s, meta, table), key, readSeq) == if hit.Some? then hit else TablesGet(s, key, readSeq)
  {
    var s' := WithL0(s, meta, table);
    assert forall i, j :: 0 <= i < |s.levels| && 0 <= j < |s.levels[i]| ==> s.levels[i][j].id in LevelIds(s.levels);
    LevelGetMoreReaders(s.levels[0], s.readers, meta.id, table, false, key, readSeq);
    DeepGetMoreReaders(s.levels[1..], s.readers, meta.id, table, key, readSeq);
    assert s'.levels[0][1..] == s.levels[0] && s'.levels[1..] == s.levels[1..];
  }

  // ---------- what installing keeps ----------

  /** A merged version is a version of some planned table. */
  lemma MergedFrom(l0: seq<SstMeta>, over: seq<SstMeta>, readers: map<u64, Table>, merged: Table, m: nat)
    returns (p: nat, j: nat)
    requires IsMerge(TablesOf(l0 + over, readers), merged) && m < |merged|
    ensures p < |l0 + over| && (l0 + over)[p].id in readers
    ensures j < |readers[(l0 + over)[p].id]| && readers[(l0 + over)[p].id][j] == merged[m]
  {
    var tables := TablesOf(l0 + over, readers);
    assert IsVersion(tables, merged[m]);
    var i: nat;
    i, j :| 0 <= i < |tables| && 0 <= j < |tables[i]| && tables[i][j] == merged[m];
    p := TablesOfOpened(l0 + over, readers, i);
  }

  /** No version in an open table of level 0 is newer than the merged one. */
  lemma MergedIsNewest(l0: seq<SstMeta>, over: seq<SstMeta>, readers: map<u64, Table>, merged: Table, m: nat,
                       i: nat, n: nat)
    requires IsMerge(TablesOf(l0 + over, readers), merged) && m < |merged|
    requires i < |l0| && l0[i].id in readers && n < |readers[l0[i].id]| && readers[l0[i].id][n].key == merged[m].key
    ensures readers[l0[i].id][n].seqNo <= merged[m].seqNo
  {
    var tables := TablesOf(l0 + over, readers);
    assert (l0 + over)[i] == l0[i];
    var q := TableOfOpened(l0 + over, readers, i);
    assert IsNewest(tables, merged[m]);
    assert tables[q][n].key == merged[m].key;
  }

  lemma MergedOverL0(l0: seq<SstMeta>, over: seq<SstMeta>, l1: seq<SstMeta>, readers: map<u64, Table>, readSeq: nat,
                     merged: Table, i: nat, key: Bytes)
    requires SearchOrderFor(l0, l1, readers, readSeq, key) && forall x :: x in over ==> x in l1
    requires IsMerge(TablesOf(l0 + over, readers), merged) && i < |l0|
    ensures NewerFor(merged, readers[l0[i].id], key)
  {
    var t := readers[l0[i].id];
    forall m, n | 0 <= m < |merged| && 0 <= n < |t| && merged[m].key == t[n].key == key
      ensures merged[m].seqNo > t[n].seqNo || merged[m] == t[n]
    {
      MergedIsNewest(l0, over, readers, merged, m, i, n);
      var p, j := MergedFrom(l0, over, readers, merged, m);
      if p == i {
        KeyOnce(t, n, j);
      } else if i < p {
        LaterIsOlder(l0, over, l1, readers, readSeq, i, p, n, j, key);
      } else {
        assert (l0 + over)[p] == l0[p] && NewerFor(readers[l0[p].id], t, key);
      }
    }
  }

  lemma MergedOverL1(l0: seq<SstMeta>, over: seq<SstMeta>, l1: seq<SstMeta>, readers: map<u64, Table>, readSeq: nat,
                     merged: Table, r: nat, key: Bytes)
    requires SearchOrderFor(l0, l1, readers, readSeq, key) && forall x :: x in over ==> x in l1
    requires IsMerge(TablesOf(l0 + over, readers), merged) && r < |l1|
    ensures NewerFor(merged, readers[l1[r].id], key)
  {
    var t := readers[l1[r].id];
    forall m, n | 0 <= m < |merged| && 0 <= n < |t| && merged[m].key == t[n].key == key
      ensures merged[m].seqNo > t[n].seqNo || merged[m] == t[n]
    {
      var p, j := MergedFrom(l0, over, readers, merged, m);
      if p < |l0| {
        assert (l0 + over)[p] == l0[p] && NewerFor(readers[l0[p].id], t, key);
      } else {
        var x := over[p - |l0|];
        assert (l0 + over)[p] == x && x in over;
        var q :| 0 <= q < |l1| && l1[q] == x;
        assert InRange(l1[q], readers[l1[q].id][j].key) && InRange(l1[r], t[n].key);
        if q != r {
          ApartEither(l1, q, r, key);
        } else {
          KeyOnce(t, n, j);
        }
      }
    }
  }

  lemma MergedVisible(l0: seq<SstMeta>, over: seq<SstMeta>, l1: seq<SstMeta>, readers: map<u64, Table>, readSeq: nat,
                      merged: Table)
    requires TablesOk(l0, l1, readers, readSeq) && forall x :: x in over ==> x in l1
    requires IsMerge(TablesOf(l0 + over, readers), merged)
    ensures forall m :: 0 <= m < |merged| ==> merged[m].seqNo <= readSeq
  {
    forall m | 0 <= m < |merged| ensures merged[m].seqNo <= readSeq {
      var p, j := MergedFrom(l0, over, readers, merged, m);
      if p < |l0| {
        assert (l0 + over)[p] == l0[p];
      } else {
        assert (l0 + over)[p] == over[p - |l0|] && over[p - |l0|] in over;
        var q :| 0 <= q < |l1| && l1[q] == over[p - |l0|];
      }
    }
  }

  /** What a planned merge is, against the levels it was planned from. */
  lemma MergedOnTop(s: LevelState, merged: Table, readSeq: nat, key: Bytes)
    requires PlanFor(s).Some? && SearchOrderFor(s.levels[0], Level1(s.levels), s.readers, readSeq, key)
    requires IsMerge(InputTables(s, PlanFor(s).value), merged)
    ensures forall m :: 0 <= m < |merged| ==> merged[m].seqNo <= readSeq
    ensures forall i :: 0 <= i < |s.levels[0]| ==> NewerFor(merged, s.readers[s.levels[0][i].id], key)
    ensures forall r :: 0 <= r < |Level1(s.levels)| ==> NewerFor(merged, s.readers[Level1(s.levels)[r].id], key)
  {
    var plan := PlanFor(s).value;
    var l0, l1, over := s.levels[0], Level1(s.levels), plan.overlapping;
    forall x | x in over ensures x in l1 {
      OverlappingMember(l1, plan.minKey, plan.maxKey, x);
    }
    MergedVisible(l0, over, l1, s.readers, readSeq, merged);
    forall i | 0 <= i < |l0| ensures NewerFor(merged, s.readers[l0[i].id], key) {
      MergedOverL0(l0, over, l1, s.readers, readSeq, merged, i, key);
    }
    forall r | 0 <= r < |l1| ensures NewerFor(merged, s.readers[l1[r].id], key) {
      MergedOverL1(l0, over, l1, s.readers, readSeq, merged, r, key);
    }
  }

  /** A table in front of levels that are in order for a key. */
  lemma OrderInFront(s: LevelState, meta: SstMeta, t: Table, readSeq: nat, key: Bytes)
    requires s.levels != [] && meta.id !in LevelIds(s.levels) && AscendingKeys(t)
    requires SearchOrderFor(s.levels[0], Level1(s.levels), s.readers, readSeq, key)
    requires forall m :: 0 <= m < |t| ==> t[m].seqNo <= readSeq
    requires forall i :: 0 <= i < |s.levels[0]| ==> NewerFor(t, s.readers[s.levels[0][i].id], key)
    requires forall r :: 0 <= r < |Level1(s.levels)| ==> NewerFor(t, s.readers[Level1(s.levels)[r].id], key)
    ensures var s' := WithL0(s, meta, t);
            SearchOrderFor(s'.levels[0], Level1(s'.levels), s'.readers, readSeq, key)
  {
    var l0, l1, s' := s.levels[0], Level1(s.levels), WithL0(s, meta, t);
    FrontReaders(s, meta, t);
    assert Level1(s'.levels) == l1 && s'.levels[0] == [meta] + l0;
  }

  /** The tables behind a new one stay open as they were. */
  lemma FrontReaders(s: LevelState, meta: SstMeta, t: Table)
    requires s.levels != [] && meta.id !in LevelIds(s.levels)
    ensures var s' := WithL0(s, meta, t);
            && Level1(s'.levels) == Level1(s.levels) && |s'.levels[0]| == |s.levels[0]| + 1
            && s'.levels[0][0] == meta && meta.id in s'.readers && s'.readers[meta.id] == t
            && (forall i :: 0 < i <= |s.levels[0]| ==> s'.levels[0][i] == s.levels[0][i - 1])
            && (forall i :: 0 <= i < |s.levels[0]| ==> SameReader(s, s', s.levels[0][i].id))
            && (forall r :: 0 <= r < |Level1(s.levels)| ==> SameReader(s, s', Level1(s.levels)[r].id))
  {
    forall i | 0 <= i < |s.levels[0]| ensures s.levels[0][i].id != meta.id {
      assert s.levels[0][i].id in LevelIds(s.levels);
    }
    forall r | 0 <= r < |Level1(s.levels)| ensures Level1(s.levels)[r].id != meta.id {
      assert s.levels[1][r].id in LevelIds(s.levels);
    }
  }

  /** The file is open in both with the same contents, or in neither. */
  predicate SameReader(s: LevelState, s': LevelState, id: u64) {
    (id in s.readers <==> id in s'.readers) && (id in s.readers ==> s.readers[id] == s'.readers[id])
  }

  /** The order for every key is the order. */
  lemma OrderForAll(l0: seq<SstMeta>, l1: seq<SstMeta>, readers: map<u64, Table>, readSeq: nat)
    requires forall key :: SearchOrderFor(l0, l1, readers, readSeq, key)
    ensures SearchOrderOk(l0, l1, readers, readSeq)
  {
    assert SearchOrderFor(l0, l1, readers, readSeq, []);
    forall i, j | 0 <= i < j < |l0| ensures Newer(readers[l0[i].id], readers[l0[j].id]) {
      forall key ensures NewerFor(readers[l0[i].id], readers[l0[j].id], key) {
        assert SearchOrderFor(l0, l1, readers, readSeq, key);
      }
      NewerForAll(readers[l0[i].id], readers[l0[j].id]);
    }
    forall i, j | 0 <= i < |l0| && 0 <= j < |l1| ensures Newer(readers[l0[i].id], readers[l1[j].id]) {
      forall key ensures NewerFor(readers[l0[i].id], readers[l1[j].id], key) {
        assert SearchOrderFor(l0, l1, readers, readSeq, key);
      }
      NewerForAll(readers[l0[i].id], readers[l1[j].id]);
    }
  }

  lemma NewerForAll(a: Table, b: Table)
    requires forall key :: NewerFor(a, b, key)
    ensures Newer(a, b)
  {
    forall m, n | 0 <= m < |a| && 0 <= n < |b| && a[m].key == b[n].key
      ensures a[m].seqNo > b[n].seqNo || a[m] == b[n]
    {
      assert NewerFor(a, b, a[m].key);
    }
  }

  /** Putting a merged table in front of the levels it was planned from keeps the order
      a search relies on, for every key that had it. */
  lemma InstallKeepsOrderFor(s: LevelState, newId: u64, merged: Table, readSeq: nat, key: Bytes)
    requires PlanFor(s).Some? && newId !in LevelIds(s.levels)
    requires SearchOrderFor(s.levels[0], Level1(s.levels), s.readers, readSeq, key)
    requires IsMerge(InputTables(s, PlanFor(s).value), merged)
    ensures var s' := WithL0(s, NewMeta(PlanFor(s).value, newId), merged);
            SearchOrderFor(s'.levels[0], Level1(s'.levels), s'.readers, readSeq, key)
  {
    MergedOnTop(s, merged, readSeq, key);
    OrderInFront(s, NewMeta(PlanFor(s).value, newId), merged, readSeq, key);
  }

  lemma InstallKeepsOrder(s: LevelState, newId: u64, merged: Table, readSeq: nat)
    requires PlanFor(s).Some? && newId !in LevelIds(s.levels)
    requires SearchOrderOk(s.levels[0], Level1(s.levels), s.readers, readSeq)
    requires IsMerge(InputTables(s, PlanFor(s).value), merged)
    ensures var s' := WithL0(s, NewMeta(PlanFor(s).value, newId), merged);
            SearchOrderOk(s'.levels[0], Level1(s'.levels), s'.readers, readSeq)
  {
    var s' := WithL0(s, NewMeta(PlanFor(s).value, newId), merged);
    forall key ensures SearchOrderFor(s'.levels[0], Level1(s'.levels), s'.readers, readSeq, key) {
      OrderForKey(s.levels[0], Level1(s.levels), s.readers, readSeq, key);
      InstallKeepsOrderFor(s, newId, merged, readSeq, key);
    }
    OrderForAll(s'.levels[0], Level1(s'.levels), s'.readers, readSeq);
  }
}
