/** Lookups and scans of an engine with tables (crates/lsm/src/engine.rs, lines
    102-208): which place answers for a key, and that flushing a frozen memtable to
    a table at the front of level 0 is not seen. */
module EngineTables {
  import opened Wrappers
  import opened Bytes
  import opened MemTable
  import opened WalRecord
  import opened WalLog
  import opened Levels
  import opened Mvcc
  import opened EngineState
  import opened Flush
  import opened InstallTheorems
  import opened LevelScan
  import opened Ordered
  import opened Sequences

  // ---------- places ----------

  /** Where a version can be: the i-th memtable, oldest first and the active one last,
      or the n-th table of a level. */
  datatype Place = Memtable(i: nat) | File(level: nat, n: nat)

  /** A version of a key that a read can see, live or not. */
  datatype Version = Live(value: Bytes) | Deleted

  function Memtables(view: EngineView): seq<Layer> {
    view.frozen + [view.active]
  }

  ghost predicate LayerShows(layer: Layer, key: Bytes, readSeq: nat, v: Version) {
    && key in layer && layer[key].seqNo <= readSeq
    && v == if layer[key].Value? then Live(layer[key].data) else Deleted
  }

  ghost predicate TableShows(t: Table, key: Bytes, readSeq: nat, v: Version) {
    exists m :: 0 <= m < |t| && t[m].key == key && t[m].seqNo <= readSeq
                && v == if t[m].tombstone then Deleted else Live(t[m].value)
  }

  /** The version of a key that a place has for a read; `ranged` leaves out the tables
      below level 0 whose recorded range does not hold the key. */
  ghost predicate Shows(view: EngineView, ranged: bool, p: Place, key: Bytes, readSeq: nat, v: Version) {
    match p
    case Memtable(i) => i < |Memtables(view)| && LayerShows(Memtables(view)[i], key, readSeq, v)
    case File(l, n) =>
      && l < |view.tables.levels| && n < |view.tables.levels[l]|
      && FileShows(view.tables.levels[l][n], view.tables.readers, ranged && l > 0, key, readSeq, v)
  }

  ghost predicate FileShows(meta: SstMeta, readers: map<u64, Table>, ranged: bool, key: Bytes, readSeq: nat,
                            v: Version)
  {
    && meta.id in readers && TableShows(readers[meta.id], key, readSeq, v)
    && (ranged ==> !Less(key, meta.minKey) && !Less(meta.maxKey, key))
  }

  /** All open tables are in key order. */
  ghost predicate TablesAscend(readers: map<u64, Table>) {
    forall id :: id in readers ==> AscendingKeys(readers[id])
  }

  lemma ShownByTable(t: Table, key: Bytes, readSeq: nat, v: Version)
    requires AscendingKeys(t) && TableShows(t, key, readSeq, v)
    ensures TableGet(t, key, readSeq) == if v.Live? then Some(v.value) else None
  {
    var m :| 0 <= m < |t| && t[m].key == key && t[m].seqNo <= readSeq
             && v == if t[m].tombstone then Deleted else Live(t[m].value);
    TableGetAt(t, m, readSeq);
  }

  /** A table answers with its live visible version. */
  lemma TableAnswers(t: Table, key: Bytes, readSeq: nat, value: Bytes)
    requires AscendingKeys(t)
    ensures TableGet(t, key, readSeq) == Some(value) <==> TableShows(t, key, readSeq, Live(value))
  {
    if TableShows(t, key, readSeq, Live(value)) {
      ShownByTable(t, key, readSeq, Live(value));
    }
    if TableGet(t, key, readSeq) == Some(value) {
      if !HasKey(t, key) {
        TableGetAbsent(t, key, readSeq);
      }
      var m :| 0 <= m < |t| && t[m].key == key;
      TableGetAt(t, m, readSeq);
    }
  }

  // ---------- which place answers a lookup ----------

  /** A lookup goes through the memtables from the newest, then through the levels
      and each level in list order. */
  predicate Sooner(p: Place, q: Place) {
    match (p, q)
    case (Memtable(i), Memtable(j)) => i > j
    case (Memtable(_), File(_, _)) => true
    case (File(_, _), Memtable(_)) => false
    case (File(l, n), File(k, m)) => l < k || (l == k && n < m)
  }

  lemma {:induction false} NewestMemtable(layers: seq<Layer>, key: Bytes, readSeq: nat) returns (i: int)
    ensures -1 <= i < |layers|
    ensures forall j, v :: i < j < |layers| ==> !LayerShows(layers[j], key, readSeq, Live(v))
    ensures if i < 0 then FrozenGet(layers, key, readSeq) == None
            else FrozenGet(layers, key, readSeq).Some?
                 && LayerShows(layers[i], key, readSeq, Live(FrozenGet(layers, key, readSeq).value))
  {
    if layers == [] {
      i := -1;
    } else {
      i := |layers| - 1;
      if LayerGet(layers[i], key, readSeq) == None {
        i := NewestMemtable(layers[..i], key, readSeq);
      }
    }
  }

  lemma {:induction false} FirstInLevel(level: seq<SstMeta>, readers: map<u64, Table>, ranged: bool,
                                        key: Bytes, readSeq: nat) returns (n: nat)
    requires TablesAscend(readers)
    ensures n <= |level|
    ensures forall j, v :: 0 <= j < n ==> !FileShows(level[j], readers, ranged, key, readSeq, Live(v))
    ensures var found := LevelGet(level, readers, ranged, key, readSeq);
            if n == |level| then found == None
            else found.Some? && FileShows(level[n], readers, ranged, key, readSeq, Live(found.value))
  {
    if level == [] {
      n := 0;
    } else {
      var meta := level[0];
      FirstFile(meta, readers, ranged, key, readSeq);
      if (ranged ==> InRange(meta, key)) && meta.id in readers && TableGet(readers[meta.id], key, readSeq).Some? {
        n := 0;
      } else {
        n := FirstInLevel(level[1..], readers, ranged, key, readSeq);
        forall j, v | 0 <= j < n + 1 ensures !FileShows(level[j], readers, ranged, key, readSeq, Live(v)) {
          if j > 0 {
            assert level[j] == level[1..][j - 1];
          }
        }
        n := n + 1;
      }
    }
  }

  /** One table shows a live version exactly when it is open, in range and has one. */
  lemma FirstFile(meta: SstMeta, readers: map<u64, Table>, ranged: bool, key: Bytes, readSeq: nat)
    requires TablesAscend(readers)
    ensures forall v :: FileShows(meta, readers, ranged, key, readSeq, Live(v)) <==>
              (ranged ==> InRange(meta, key)) && meta.id in readers
              && TableGet(readers[meta.id], key, readSeq) == Some(v)
  {
    forall v
      ensures FileShows(meta, readers, ranged, key, readSeq, Live(v)) <==>
              (ranged ==> InRange(meta, key)) && meta.id in readers
              && TableGet(readers[meta.id], key, readSeq) == Some(v)
    {
      if meta.id in readers {
        TableAnswers(readers[meta.id], key, readSeq, v);
      }
    }
  }

  lemma {:induction false} FirstInLevels(levels: seq<seq<SstMeta>>, readers: map<u64, Table>, key: Bytes, readSeq: nat)
    returns (l: nat, n: nat)
    requires TablesAscend(readers)
    ensures l <= |levels| && (l < |levels| ==> n < |levels[l]|)
    ensures forall k, j, v :: 0 <= k < |levels| && 0 <= j < |levels[k]| && (k < l || (k == l && j < n)) ==>
              !FileShows(levels[k][j], readers, true, key, readSeq, Live(v))
    ensures var found := DeepGet(levels, readers, key, readSeq);
            if l == |levels| then found == None
            else found.Some? && FileShows(levels[l][n], readers, true, key, readSeq, Live(found.value))
  {
    if levels == [] {
      l, n := 0, 0;
    } else {
      n := FirstInLevel(levels[0], readers, true, key, readSeq);
      if n < |levels[0]| {
        l := 0;
      } else {
        l, n := FirstInLevels(levels[1..], readers, key, readSeq);
        forall k, j, v | 0 <= k < |levels| && 0 <= j < |levels[k]| && (k < l + 1 || (k == l + 1 && j < n))
          ensures !FileShows(levels[k][j], readers, true, key, readSeq, Live(v))
        {
          if k > 0 {
            assert levels[k] == levels[1..][k - 1];
          }
        }
        l := l + 1;
      }
    }
  }

  /** Level 0 without its ranges, then the levels below with them. */
  lemma FirstInTables(s: LevelState, key: Bytes, readSeq: nat) returns (l: nat, n: nat)
    requires TablesAscend(s.readers)
    ensures l <= |s.levels| && (l < |s.levels| ==> n < |s.levels[l]|)
    ensures forall k, j, v :: 0 <= k < |s.levels| && 0 <= j < |s.levels[k]| && (k < l || (k == l && j < n)) ==>
              !FileShows(s.levels[k][j], s.readers, k > 0, key, readSeq, Live(v))
    ensures var found := TablesGet(s, key, readSeq);
            if l == |s.levels| then found == None
            else found.Some? && FileShows(s.levels[l][n], s.readers, l > 0, key, readSeq, Live(found.value))
  {
    if s.levels == [] {
      l, n := 0, 0;
    } else {
      n := FirstInLevel(s.levels[0], s.readers, false, key, readSeq);
      if n < |s.levels[0]| {
        l := 0;
      } else {
        l, n := FirstInLevels(s.levels[1..], s.readers, key, readSeq);
        forall k, j, v | 0 <= k < |s.levels| && 0 <= j < |s.levels[k]| && (k < l + 1 || (k == l + 1 && j < n))
          ensures !FileShows(s.levels[k][j], s.readers, k > 0, key, readSeq, Live(v))
        {
          if k > 0 {
            assert s.levels[k] == s.levels[1..][k - 1];
          }
        }
        l := l + 1;
      }
    }
  }

  /** The memtables and the tables behind them. */
  lemma GetOfParts(view: EngineView, key: Bytes, readSeq: nat)
    ensures Get(view, key, readSeq) ==
            Or(FrozenGet(Memtables(view), key, readSeq), TablesGet(view.tables, key, readSeq))
  {
    assert Memtables(view)[..|view.frozen|] == view.frozen;
  }

  /** The place that answers a lookup, if any does. */
  lemma Answering(view: EngineView, key: Bytes, readSeq: nat) returns (p: Option<Place>)
    requires TablesAscend(view.tables.readers)
    ensures var found := Get(view, key, readSeq);
            if p.None? then found == None && forall q, v :: !Shows(view, true, q, key, readSeq, Live(v))
            else found.Some? && Shows(view, true, p.value, key, readSeq, Live(found.value))
                 && forall q, v :: Sooner(q, p.value) ==> !Shows(view, true, q, key, readSeq, Live(v))
  {
    GetOfParts(view, key, readSeq);
    var i := NewestMemtable(Memtables(view), key, readSeq);
    if i >= 0 {
      p := Some(Memtable(i));
    } else {
      var l, n := FirstInTables(view.tables, key, readSeq);
      p := if l < |view.tables.levels| then Some(File(l, n)) else None;
    }
  }

  lemma ShowsOne(view: EngineView, ranged: bool, p: Place, key: Bytes, readSeq: nat, v: Version, w: Version)
    requires TablesAscend(view.tables.readers)
    requires Shows(view, ranged, p, key, readSeq, v) && Shows(view, ranged, p, key, readSeq, w)
    ensures v == w
  {
    if p.File? {
      var t := view.tables.readers[view.tables.levels[p.level][p.n].id];
      var a :| 0 <= a < |t| && t[a].key == key && t[a].seqNo <= readSeq
               && v == if t[a].tombstone then Deleted else Live(t[a].value);
      var b :| 0 <= b < |t| && t[b].key == key && t[b].seqNo <= readSeq
               && w == if t[b].tombstone then Deleted else Live(t[b].value);
      LessIrreflexive(key);
      assert a == b;
    }
  }

  /** A point lookup, for any memtables and tables: a value comes back exactly when some
      place has it as a live version the read can see and no sooner place has one.
      Memtables are searched newest first, then level 0 in list order whatever the
      ranges, then each deeper level in list order by range. */
  lemma LookupExactly(view: EngineView, key: Bytes, readSeq: nat, value: Bytes)
    requires TablesAscend(view.tables.readers)
    ensures Get(view, key, readSeq) == Some(value) <==>
            exists p :: Shows(view, true, p, key, readSeq, Live(value))
                        && forall q, v :: Sooner(q, p) ==> !Shows(view, true, q, key, readSeq, Live(v))
  {
    var first := Answering(view, key, readSeq);
    if exists p :: Shows(view, true, p, key, readSeq, Live(value))
                   && forall q, v :: Sooner(q, p) ==> !Shows(view, true, q, key, readSeq, Live(v)) {
      var p :| Shows(view, true, p, key, readSeq, Live(value))
               && forall q, v :: Sooner(q, p) ==> !Shows(view, true, q, key, readSeq, Live(v));
      assert !Sooner(p, first.value) && !Sooner(first.value, p);
      assert p == first.value;
      ShowsOne(view, true, p, key, readSeq, Live(value), Live(Get(view, key, readSeq).value));
    }
  }

  /** And nothing comes back exactly when no place has a live version the read can see. */
  lemma NothingExactly(view: EngineView, key: Bytes, readSeq: nat)
    requires TablesAscend(view.tables.readers)
    ensures Get(view, key, readSeq) == None <==> forall p, v :: !Shows(view, true, p, key, readSeq, Live(v))
  {
    var first := Answering(view, key, readSeq);
  }

  // ---------- flushing is not seen by lookups ----------

  /** The oldest frozen memtable becomes a table at the front of level 0. */
  function Flushed(view: EngineView, meta: SstMeta): EngineView
    requires view.frozen != []
  {
    view.(frozen := view.frozen[1..], tables := WithL0(view.tables, meta, EntriesOf(view.frozen[0])))
  }

  lemma {:induction false} OldestLast(frozen: seq<Layer>, key: Bytes, readSeq: nat)
    requires frozen != []
    ensures FrozenGet(frozen, key, readSeq) ==
            Or(FrozenGet(frozen[1..], key, readSeq), LayerGet(frozen[0], key, readSeq))
  {
    var last := |frozen| - 1;
    if last > 0 {
      OldestLast(frozen[..last], key, readSeq);
      assert frozen[1..][..last - 1] == frozen[..last][1..] && frozen[1..][last - 1] == frozen[last];
    } else {
      assert frozen[..0] == [] == frozen[1..];
    }
  }

  /** A table in front of all others answers first, whatever its range. */
  lemma InFrontAnswers(s: LevelState, meta: SstMeta, t: Table, key: Bytes, readSeq: nat)
    requires meta.id !in LevelIds(s.levels)
    ensures TablesGet(WithL0(s, meta, t), key, readSeq) ==
            Or(TableGet(t, key, readSeq), TablesGet(s, key, readSeq))
  {
    if s.levels == [] {
      var s' := WithL0(s, meta, t);
      assert [meta] + [] == [meta] && s'.levels == [[meta]];
      assert LevelGet([], s'.readers, false, key, readSeq) == None;
    } else {
      FrontTable(s, meta, t, key, readSeq);
    }
  }

  /** Flushing changes no lookup: for any memtables and tables, moving the oldest frozen
      memtable to a table at the front of level 0, under an id that is not in use,
      leaves what every key reads as at every snapshot. */
  lemma FlushKeepsLookups(view: EngineView, meta: SstMeta, key: Bytes, readSeq: nat)
    requires view.frozen != [] && meta.id !in LevelIds(view.tables.levels)
    ensures Get(view.(frozen := view.frozen[1..],
                      tables := WithL0(view.tables, meta, EntriesOf(view.frozen[0]))), key, readSeq) ==
            Get(view, key, readSeq)
  {
    OldestLast(view.frozen, key, readSeq);
    EntriesLookup(view.frozen[0], key, readSeq);
    InFrontAnswers(view.tables, meta, EntriesOf(view.frozen[0]), key, readSeq);
  }

  /** The engine after flushing its oldest frozen memtables, one after the other. */
  function FlushedAll(view: EngineView, metas: seq<SstMeta>): EngineView
    requires |metas| <= |view.frozen|
    decreases |metas|
  {
    if metas == [] then view else FlushedAll(Flushed(view, metas[0]), metas[1..])
  }

  lemma InFrontIds(levels: seq<seq<SstMeta>>, meta: SstMeta)
    ensures LevelIds(InFront(levels, meta)) == LevelIds(levels) + {meta.id}
  {
    var now := InFront(levels, meta);
    forall id | id in LevelIds(levels) ensures id in LevelIds(now) {
      var i, j :| 0 <= i < |levels| && 0 <= j < |levels[i]| && levels[i][j].id == id;
      assert now[i][if i == 0 then j + 1 else j].id == id;
    }
    forall id | id in LevelIds(now) && id != meta.id ensures id in LevelIds(levels) {
      var i, j :| 0 <= i < |now| && 0 <= j < |now[i]| && now[i][j].id == id;
      if i > 0 {
        assert levels[i][j].id == id;
      } else if levels != [] {
        assert levels[0][j - 1].id == id;
      }
    }
    assert now[0][0].id == meta.id;
  }

  /** So does any number of flushes. */
  lemma {:induction false} FlushesKeepLookups(view: EngineView, metas: seq<SstMeta>, key: Bytes, readSeq: nat)
    requires |metas| <= |view.frozen|
    requires forall i :: 0 <= i < |metas| ==> metas[i].id !in LevelIds(view.tables.levels)
    requires forall i, j :: 0 <= i < j < |metas| ==> metas[i].id != metas[j].id
    ensures Get(FlushedAll(view, metas), key, readSeq) == Get(view, key, readSeq)
    decreases |metas|
  {
    if metas != [] {
      FlushKeepsLookups(view, metas[0], key, readSeq);
      InFrontIds(view.tables.levels, metas[0]);
      FlushesKeepLookups(Flushed(view, metas[0]), metas[1..], key, readSeq);
    }
  }

  // ---------- opening a directory with tables ----------

  /** Nothing of a key is in the log above the flushed number. */
  ghost predicate Unlogged(rs: seq<WalRecord>, flushedSeq: u64, key: Bytes) {
    forall i :: 0 <= i < |rs| && rs[i].key == key ==> rs[i].seqNo <= flushedSeq
  }

  /** Such a key is in no memtable. */
  lemma {:induction false} RecoverSkipsKey(rs: seq<WalRecord>, flushedSeq: u64, sofar: Recovered, key: Bytes)
    requires key !in sofar.layer && Recover(rs, flushedSeq, sofar).Ok?
    requires Unlogged(rs, flushedSeq, key)
    ensures key !in Recover(rs, flushedSeq, sofar).value.layer
    ensures Recover(rs, flushedSeq, sofar).value.maxSeq >= sofar.maxSeq
  {
    if rs != [] {
      var seen := sofar.(maxSeq := Max(sofar.maxSeq, rs[0].seqNo));
      assert forall i :: 0 <= i < |rs[1..]| ==> rs[1..][i] == rs[i + 1];
      if rs[0].seqNo <= flushedSeq {
        RecoverSkipsKey(rs[1..], flushedSeq, seen, key);
      } else {
        RecoverSkipsKey(rs[1..], flushedSeq, seen.(layer := seen.layer[rs[0].key := VersionOf(rs[0])]), key);
      }
    }
  }

  /** What a directory opens to besides its memtable: nothing frozen, the log file as it
      was, the manifest, its levels, and of the listed files those that open. */
  lemma OpenedParts(crc: Crc, manifest: Manifest, log: Bytes, disk: map<u64, Table>)
    requires Open(crc, manifest, log, disk).Ok?
    ensures var view := Open(crc, manifest, log, disk).value;
            && view.frozen == [] && view.wal == log && view.manifest == manifest
            && view.tables.levels == manifest.levels
            && (forall id :: id in view.tables.readers <==>
                  id in disk && exists l, n :: 0 <= l < |manifest.levels| && 0 <= n < |manifest.levels[l]|
                                               && manifest.levels[l][n].id == id)
            && (forall id :: id in view.tables.readers ==> view.tables.readers[id] == disk[id])
  {
  }

  /** The one file of a directory that has a version of a key. */
  ghost predicate OnlyFile(levels: seq<seq<SstMeta>>, disk: map<u64, Table>, l: nat, n: nat, key: Bytes) {
    && l < |levels| && n < |levels[l]| && levels[l][n].id in disk
    && forall k, j :: 0 <= k < |levels| && 0 <= j < |levels[k]| && (k != l || j != n) && levels[k][j].id in disk ==>
         !HasKey(disk[levels[k][j].id], key)
  }

  /** A table found when a directory is opened is searched: a key whose only version is a
      live one in one listed file (inside the file's range below level 0), with nothing of
      it in the log above the flushed number, reads as that value at every snapshot from
      its number on, and at the one taken right after opening if it had been flushed. */
  lemma OpenedTableIsRead(crc: Crc, manifest: Manifest, log: Bytes, disk: map<u64, Table>, next: u64,
                          l: nat, n: nat, m: nat, readSeq: nat)
    requires Open(crc, manifest, log, disk).Ok?
    requires (forall id :: id in disk ==> AscendingKeys(disk[id])) && l < |manifest.levels| && n < |manifest.levels[l]|
    requires var meta := manifest.levels[l][n];
             && meta.id in disk && m < |disk[meta.id]| && !disk[meta.id][m].tombstone
             && OnlyFile(manifest.levels, disk, l, n, disk[meta.id][m].key)
             && (l > 0 ==> InRange(meta, disk[meta.id][m].key))
             && Unlogged(Replay(crc, log).records, manifest.walFlushedSeq, disk[meta.id][m].key)
    ensures var e := disk[manifest.levels[l][n].id][m];
            var view := Open(crc, manifest, log, disk).value;
            var recovered := RecoverFile(crc, log, manifest.walFlushedSeq).value;
            && (e.seqNo <= readSeq ==> Get(view, e.key, readSeq) == Some(e.value))
            && (e.seqNo <= manifest.walFlushedSeq < U64_MAX ==>
                  Get(view, e.key, Snapshot(CounterAfterOpen(next, recovered))) == Some(e.value))
  {
    var meta := manifest.levels[l][n];
    var e := disk[meta.id][m];
    var view := Open(crc, manifest, log, disk).value;
    RecoverSkipsKey(Replay(crc, log).records, manifest.walFlushedSeq, Recovered(map[], manifest.walFlushedSeq), e.key);
    assert meta.id in LevelIds(manifest.levels);
    forall snapshot: nat | e.seqNo <= snapshot ensures Get(view, e.key, snapshot) == Some(e.value) {
      assert TableShows(disk[meta.id], e.key, snapshot, Live(e.value));
      assert Shows(view, true, File(l, n), e.key, snapshot, Live(e.value));
      forall q, v | Sooner(q, File(l, n)) ensures !Shows(view, true, q, e.key, snapshot, Live(v)) {
        OtherPlacesSilent(view, manifest.levels, disk, l, n, e.key, q, snapshot, v);
      }
      LookupExactly(view, e.key, snapshot, e.value);
    }
  }

  lemma OtherPlacesSilent(view: EngineView, levels: seq<seq<SstMeta>>, disk: map<u64, Table>, l: nat, n: nat,
                          key: Bytes, q: Place, readSeq: nat, v: Bytes)
    requires view.tables == OpenLevels(levels, disk) && view.frozen == [] && key !in view.active
    requires OnlyFile(levels, disk, l, n, key) && q != File(l, n)
    ensures !Shows(view, true, q, key, readSeq, Live(v))
  {
  }

  /** With an empty log a directory opens, and the key is found. */
  lemma EmptyLogTableIsRead(crc: Crc, manifest: Manifest, disk: map<u64, Table>, l: nat, n: nat, m: nat, readSeq: nat)
    requires (forall id :: id in disk ==> AscendingKeys(disk[id])) && l < |manifest.levels| && n < |manifest.levels[l]|
    requires var meta := manifest.levels[l][n];
             && meta.id in disk && m < |disk[meta.id]| && !disk[meta.id][m].tombstone
             && OnlyFile(manifest.levels, disk, l, n, disk[meta.id][m].key)
             && (l > 0 ==> InRange(meta, disk[meta.id][m].key))
    requires disk[manifest.levels[l][n].id][m].seqNo <= readSeq
    ensures Open(crc, manifest, [], disk).Ok?
    ensures var e := disk[manifest.levels[l][n].id][m];
            Get(Open(crc, manifest, [], disk).value, e.key, readSeq) == Some(e.value)
  {
    OpenedTableIsRead(crc, manifest, [], disk, 1, l, n, m, readSeq);
  }

  // ---------- which place answers a scan ----------

  /** What a version reads as. */
  function Reading(v: Version): Option<Bytes> {
    if v.Live? then Some(v.value) else None
  }

  /** A scan of a table takes the table's version of a key, if it has one to see. */
  lemma {:induction false} ScanTableKey(before: map<Bytes, Bytes>, t: Table, prefix: Bytes, readSeq: nat, key: Bytes)
    returns (v: Option<Version>)
    requires prefix <= key && AscendingKeys(t)
    ensures v.Some? ==> TableShows(t, key, readSeq, v.value)
    ensures v.None? ==> forall w :: !TableShows(t, key, readSeq, w)
    ensures Find(ScanTable(before, t, prefix, readSeq), key) ==
            if v.Some? then Reading(v.value) else Find(before, key)
  {
    v := None;
    if t != [] {
      var init, e := t[..|t| - 1], t[|t| - 1];
      v := ScanTableKey(before, init, prefix, readSeq, key);
      if e.key == key && e.seqNo <= readSeq {
        v := Some(if e.tombstone then Deleted else Live(e.value));
      } else {
        SameShown(t, key, readSeq);
      }
    }
  }

  /** The last entry does not count. */
  lemma SameShown(t: Table, key: Bytes, readSeq: nat)
    requires t != [] && !(t[|t| - 1].key == key && t[|t| - 1].seqNo <= readSeq)
    ensures forall w :: TableShows(t, key, readSeq, w) <==> TableShows(t[..|t| - 1], key, readSeq, w)
  {
    var init := t[..|t| - 1];
    forall w ensures TableShows(t, key, readSeq, w) <==> TableShows(init, key, readSeq, w) {
      if TableShows(init, key, readSeq, w) {
        var m :| 0 <= m < |init| && init[m].key == key && init[m].seqNo <= readSeq
                 && w == if init[m].tombstone then Deleted else Live(init[m].value);
        assert t[m] == init[m];
      }
      if TableShows(t, key, readSeq, w) {
        var m :| 0 <= m < |t| && t[m].key == key && t[m].seqNo <= readSeq
                 && w == if t[m].tombstone then Deleted else Live(t[m].value);
        assert t[m] == init[m];
      }
    }
  }

  /** In a level the last table that has a version to see decides. */
  lemma {:induction false} ScanLevelKey(before: map<Bytes, Bytes>, level: seq<SstMeta>, readers: map<u64, Table>,
                                        prefix: Bytes, readSeq: nat, key: Bytes)
    returns (n: int, v: Version)
    requires prefix <= key && TablesAscend(readers)
    ensures -1 <= n < |level|
    ensures forall j, w :: n < j < |level| ==> !FileShows(level[j], readers, false, key, readSeq, w)
    ensures n >= 0 ==> FileShows(level[n], readers, false, key, readSeq, v)
    ensures Find(ScanLevel(before, level, readers, prefix, readSeq), key) ==
            if n >= 0 then Reading(v) else Find(before, key)
  {
    n, v := -1, Deleted;
    if level != [] {
      var last := |level| - 1;
      n, v := ScanLevelKey(before, level[..last], readers, prefix, readSeq, key);
      var id := level[last].id;
      if id in readers {
        var sofar := ScanLevel(before, level[..last], readers, prefix, readSeq);
        var shown := ScanTableKey(sofar, readers[id], prefix, readSeq, key);
        if shown.Some? {
          n, v := last, shown.value;
        }
      }
    }
  }

  /** The least deep level that has a version to see decides. */
  lemma {:induction false} ScanTablesKey(levels: seq<seq<SstMeta>>, readers: map<u64, Table>, prefix: Bytes,
                                         readSeq: nat, key: Bytes)
    returns (l: nat, n: nat, v: Version)
    requires prefix <= key && TablesAscend(readers)
    ensures l <= |levels| && (l < |levels| ==> n < |levels[l]|)
    ensures forall k, j, w :: 0 <= k < |levels| && 0 <= j < |levels[k]| && (k < l || (k == l && j > n)) ==>
              !FileShows(levels[k][j], readers, false, key, readSeq, w)
    ensures l < |levels| ==> FileShows(levels[l][n], readers, false, key, readSeq, v)
    ensures Find(ScanTables(levels, readers, prefix, readSeq), key) ==
            if l < |levels| then Reading(v) else None
  {
    l, n, v := 0, 0, Deleted;
    if levels != [] {
      var below := ScanTables(levels[1..], readers, prefix, readSeq);
      var i, w := ScanLevelKey(below, levels[0], readers, prefix, readSeq, key);
      if i >= 0 {
        n, v := i, w;
      } else {
        l, n, v := ScanTablesKey(levels[1..], readers, prefix, readSeq, key);
        forall k, j, w | 0 <= k < |levels| && 0 <= j < |levels[k]| && (k < l + 1 || (k == l + 1 && j > n))
          ensures !FileShows(levels[k][j], readers, false, key, readSeq, w)
        {
          if k > 0 {
            assert levels[k] == levels[1..][k - 1];
          }
        }
        l := l + 1;
      }
    }
  }

  /** The newest memtable that has a version to see decides. */
  lemma {:induction false} ScanLayersKey(before: map<Bytes, Bytes>, layers: seq<Layer>, prefix: Bytes, readSeq: nat,
                                         key: Bytes)
    returns (i: int, v: Version)
    requires prefix <= key
    ensures -1 <= i < |layers|
    ensures forall j, w :: i < j < |layers| ==> !LayerShows(layers[j], key, readSeq, w)
    ensures i >= 0 ==> LayerShows(layers[i], key, readSeq, v)
    ensures Find(ScanLayers(before, layers, prefix, readSeq), key) == if i >= 0 then Reading(v) else Find(before, key)
  {
    i, v := -1, Deleted;
    if layers != [] {
      var last := |layers| - 1;
      i, v := ScanLayersKey(before, layers[..last], prefix, readSeq, key);
      if key in layers[last] && layers[last][key].seqNo <= readSeq {
        i, v := last, if layers[last][key].Value? then Live(layers[last][key].data) else Deleted;
      }
    }
  }

  /** A scan believes the newest memtable, then the least deep level, and within a level
      the last table of the list. */
  predicate Over(p: Place, q: Place) {
    match (p, q)
    case (Memtable(i), Memtable(j)) => i > j
    case (Memtable(_), File(_, _)) => true
    case (File(_, _), Memtable(_)) => false
    case (File(l, n), File(k, m)) => l < k || (l == k && n > m)
  }

  /** The place that decides a key of a scan, if any does. */
  lemma Deciding(view: EngineView, prefix: Bytes, readSeq: nat, key: Bytes) returns (p: Option<Place>, v: Version)
    requires prefix <= key && TablesAscend(view.tables.readers)
    ensures p.None? ==> forall q, w :: !Shows(view, false, q, key, readSeq, w)
    ensures p.Some? ==> Shows(view, false, p.value, key, readSeq, v)
                        && forall q, w :: Over(q, p.value) ==> !Shows(view, false, q, key, readSeq, w)
    ensures Find(ScanMap(view, prefix, readSeq), key) == if p.Some? then Reading(v) else None
  {
    var fromTables := ScanTables(view.tables.levels, view.tables.readers, prefix, readSeq);
    var i, w := ScanLayersKey(fromTables, Memtables(view), prefix, readSeq, key);
    if i >= 0 {
      p, v := Some(Memtable(i)), w;
    } else {
      var l, n, u := ScanTablesKey(view.tables.levels, view.tables.readers, prefix, readSeq, key);
      p, v := if l < |view.tables.levels| then Some(File(l, n)) else None, u;
    }
  }

  lemma {:induction false} ScanLayersPrefix(before: map<Bytes, Bytes>, layers: seq<Layer>, prefix: Bytes, readSeq: nat,
                                            key: Bytes)
    requires !(prefix <= key) && key !in before
    ensures key !in ScanLayers(before, layers, prefix, readSeq)
  {
    if layers != [] {
      ScanLayersPrefix(before, layers[..|layers| - 1], prefix, readSeq, key);
    }
  }

  /** A scan, for any memtables and tables, whatever the recorded ranges: an entry is
      listed exactly when its key has the prefix, some place has it as a live version the
      read can see, and no place that is believed over that one has any version to see. */
  lemma ScanExactly(view: EngineView, prefix: Bytes, readSeq: nat, key: Bytes, value: Bytes)
    requires TablesAscend(view.tables.readers)
    ensures (key, value) in Scan(view, prefix, readSeq) <==>
            prefix <= key
            && exists p :: Shows(view, false, p, key, readSeq, Live(value))
                           && forall q, v :: Over(q, p) ==> !Shows(view, false, q, key, readSeq, v)
    ensures forall i, j :: 0 <= i < j < |Scan(view, prefix, readSeq)| ==>
              Less(Scan(view, prefix, readSeq)[i].0, Scan(view, prefix, readSeq)[j].0)
  {
    ListingMeaning(ScanMap(view, prefix, readSeq));
    assert (key, value) in Scan(view, prefix, readSeq) <==>
           Find(ScanMap(view, prefix, readSeq), key) == Some(value);
    if prefix <= key {
      DecidesExactly(view, prefix, readSeq, key, value);
    } else {
      ScanTablesPrefix(view.tables.levels, view.tables.readers, prefix, readSeq, key);
      ScanLayersPrefix(ScanTables(view.tables.levels, view.tables.readers, prefix, readSeq), Memtables(view), prefix,
                       readSeq, key);
    }
  }

  lemma DecidesExactly(view: EngineView, prefix: Bytes, readSeq: nat, key: Bytes, value: Bytes)
    requires prefix <= key && TablesAscend(view.tables.readers)
    ensures Find(ScanMap(view, prefix, readSeq), key) == Some(value) <==>
            exists p :: Shows(view, false, p, key, readSeq, Live(value))
                        && forall q, v :: Over(q, p) ==> !Shows(view, false, q, key, readSeq, v)
  {
    var last, w := Deciding(view, prefix, readSeq, key);
    if exists p :: Shows(view, false, p, key, readSeq, Live(value))
                   && forall q, v :: Over(q, p) ==> !Shows(view, false, q, key, readSeq, v) {
      var p :| Shows(view, false, p, key, readSeq, Live(value))
               && forall q, v :: Over(q, p) ==> !Shows(view, false, q, key, readSeq, v);
      assert last.Some?;
      assert !Over(p, last.value) && !Over(last.value, p);
      assert p == last.value;
      ShowsOne(view, false, p, key, readSeq, Live(value), w);
    }
  }

  // ---------- flushing and scans ----------

  lemma ScanTableSnoc(before: map<Bytes, Bytes>, t: Table, i: nat, prefix: Bytes, readSeq: nat)
    requires i < |t|
    ensures ScanTable(before, t[..i + 1], prefix, readSeq) ==
            ScanEntry(ScanTable(before, t[..i], prefix, readSeq), t[i], prefix, readSeq)
  {
    assert t[..i + 1][..i] == t[..i];
  }

  /** One entry more of the table is one key more of the memtable. */
  lemma ScanEntryTaken(before: map<Bytes, Bytes>, layer: Layer, keys: seq<Bytes>, e: Entry, i: nat,
                       prefix: Bytes, readSeq: nat)
    requires Ascending(keys) && i < |keys| && keys[i] in layer && e == EntryFor(keys[i], layer[keys[i]])
    ensures ScanEntry(ScanLayer(before, Taken(layer, keys, i), prefix, readSeq), e, prefix, readSeq) ==
            ScanLayer(before, Taken(layer, keys, i + 1), prefix, readSeq)
  {
    ScanNextKey(before, layer, keys, i, prefix, readSeq);
  }

  lemma {:induction false} ScanOfTaken(before: map<Bytes, Bytes>, layer: Layer, keys: seq<Bytes>, t: Table, i: nat,
                                       prefix: Bytes, readSeq: nat)
    requires Ascending(keys) && i <= |keys| == |t| && forall k :: k in keys <==> k in layer
    requires forall j :: 0 <= j < |keys| ==> keys[j] in layer && t[j] == EntryFor(keys[j], layer[keys[j]])
    ensures ScanTable(before, t[..i], prefix, readSeq) ==
            ScanLayer(before, Taken(layer, keys, i), prefix, readSeq)
  {
    if i == 0 {
      TakenEnds(before, layer, keys, prefix, readSeq);
      assert t[..0] == [];
    } else {
      var n := i - 1;
      ScanOfTaken(before, layer, keys, t, n, prefix, readSeq);
      ScanTableSnoc(before, t, n, prefix, readSeq);
      ScanEntryTaken(before, layer, keys, t[n], n, prefix, readSeq);
    }
  }

  lemma EntriesAre(layer: Layer, keys: seq<Bytes>)
    requires keys == SortedKeys(layer.Keys)
    ensures Ascending(keys) && (forall k :: k in keys <==> k in layer) && |EntriesOf(layer)| == |keys|
    ensures forall j :: 0 <= j < |keys| ==>
              keys[j] in layer && EntriesOf(layer)[j] == EntryFor(keys[j], layer[keys[j]])
  {
    SortedKeysMeaning(layer.Keys);
    forall j | 0 <= j < |keys| ensures keys[j] in layer {
      assert keys[j] in keys;
    }
  }

  lemma AllTaken(before: map<Bytes, Bytes>, layer: Layer, keys: seq<Bytes>, t: Table, prefix: Bytes, readSeq: nat)
    requires Ascending(keys) && |keys| == |t| && forall k :: k in keys <==> k in layer
    requires forall j :: 0 <= j < |keys| ==> keys[j] in layer && t[j] == EntryFor(keys[j], layer[keys[j]])
    ensures ScanTable(before, t, prefix, readSeq) == ScanLayer(before, layer, prefix, readSeq)
  {
    ScanOfTaken(before, layer, keys, t, |keys|, prefix, readSeq);
    TakenEnds(before, layer, keys, prefix, readSeq);
    assert t[..|keys|] == t;
  }

  /** The table of a memtable scans as the memtable. */
  lemma ScanOfEntries(before: map<Bytes, Bytes>, layer: Layer, prefix: Bytes, readSeq: nat)
    ensures ScanTable(before, EntriesOf(layer), prefix, readSeq) == ScanLayer(before, layer, prefix, readSeq)
  {
    EntriesAre(layer, SortedKeys(layer.Keys));
    AllTaken(before, layer, SortedKeys(layer.Keys), EntriesOf(layer), prefix, readSeq);
  }

  /** Tables and memtables without a common key can be merged in either order. */
  lemma ScanEntryCommutes(r: map<Bytes, Bytes>, layer: Layer, e: Entry, prefix: Bytes, readSeq: nat)
    requires e.key !in layer
    ensures ScanEntry(ScanLayer(r, layer, prefix, readSeq), e, prefix, readSeq) ==
            ScanLayer(ScanEntry(r, e, prefix, readSeq), layer, prefix, readSeq)
  {
  }

  lemma {:induction false} ScanTableCommutes(r: map<Bytes, Bytes>, layer: Layer, t: Table, prefix: Bytes, readSeq: nat)
    requires forall i :: 0 <= i < |t| ==> t[i].key !in layer
    ensures ScanTable(ScanLayer(r, layer, prefix, readSeq), t, prefix, readSeq) ==
            ScanLayer(ScanTable(r, t, prefix, readSeq), layer, prefix, readSeq)
  {
    if t != [] {
      var init := t[..|t| - 1];
      ScanTableCommutes(r, layer, init, prefix, readSeq);
      ScanEntryCommutes(ScanTable(r, init, prefix, readSeq), layer, t[|t| - 1], prefix, readSeq);
    }
  }

  /** No open table of the level holds a key of the memtable. */
  ghost predicate NoCommonKey(level: seq<SstMeta>, readers: map<u64, Table>, layer: Layer) {
    forall j, i :: 0 <= j < |level| && level[j].id in readers && 0 <= i < |readers[level[j].id]| ==>
      readers[level[j].id][i].key !in layer
  }

  lemma ScanLevelSnoc(r: map<Bytes, Bytes>, init: seq<SstMeta>, m: SstMeta, level: seq<SstMeta>,
                      readers: map<u64, Table>, prefix: Bytes, readSeq: nat)
    requires level == init + [m]
    ensures ScanLevel(r, level, readers, prefix, readSeq) ==
            var before := ScanLevel(r, init, readers, prefix, readSeq);
            if m.id in readers then ScanTable(before, readers[m.id], prefix, readSeq) else before
  {
    assert level[..|level| - 1] == init;
  }

  lemma NoCommonKeySnoc(init: seq<SstMeta>, m: SstMeta, readers: map<u64, Table>, layer: Layer)
    requires NoCommonKey(init + [m], readers, layer)
    ensures NoCommonKey(init, readers, layer)
    ensures m.id in readers ==> forall i :: 0 <= i < |readers[m.id]| ==> readers[m.id][i].key !in layer
  {
    var level := init + [m];
    assert level[|init|] == m;
    forall j, i | 0 <= j < |init| && init[j].id in readers && 0 <= i < |readers[init[j].id]|
      ensures readers[init[j].id][i].key !in layer
    {
      assert level[j] == init[j];
    }
  }

  /** A level with the table of a memtable in front scans as the level without it, and
      then the memtable. */
  lemma {:induction false} ScanLevelCommutes(r: map<Bytes, Bytes>, layer: Layer, level: seq<SstMeta>,
                                             readers: map<u64, Table>, meta: SstMeta, prefix: Bytes, readSeq: nat)
    requires NoCommonKey(level, readers, layer) && forall j :: 0 <= j < |level| ==> level[j].id != meta.id
    ensures ScanLevel(r, [meta] + level, readers[meta.id := EntriesOf(layer)], prefix, readSeq) ==
            ScanLayer(ScanLevel(r, level, readers, prefix, readSeq), layer, prefix, readSeq)
  {
    var now := readers[meta.id := EntriesOf(layer)];
    if level == [] {
      assert [meta] + level == [] + [meta];
      ScanLevelSnoc(r, [], meta, [meta] + level, now, prefix, readSeq);
      ScanOfEntries(r, layer, prefix, readSeq);
    } else {
      var init, m := level[..|level| - 1], level[|level| - 1];
      assert level == init + [m];
      NoCommonKeySnoc(init, m, readers, layer);
      ScanLevelCommutes(r, layer, init, readers, meta, prefix, readSeq);
      Assoc([meta], init, [m]);
      ScanLevelSnoc(r, [meta] + init, m, [meta] + level, now, prefix, readSeq);
      ScanLevelSnoc(r, init, m, level, readers, prefix, readSeq);
      if m.id in readers {
        ScanTableCommutes(ScanLevel(r, init, readers, prefix, readSeq), layer, readers[m.id], prefix, readSeq);
      }
    }
  }

  lemma {:induction false} ScanOldestFirst(r: map<Bytes, Bytes>, layers: seq<Layer>, prefix: Bytes, readSeq: nat)
    requires layers != []
    ensures ScanLayers(r, layers, prefix, readSeq) ==
            ScanLayers(ScanLayer(r, layers[0], prefix, readSeq), layers[1..], prefix, readSeq)
  {
    var last := |layers| - 1;
    if last > 0 {
      ScanOldestFirst(r, layers[..last], prefix, readSeq);
      assert layers[1..][..last - 1] == layers[..last][1..] && layers[1..][last - 1] == layers[last];
    } else {
      assert layers[..0] == [] == layers[1..];
    }
  }

  /** The levels with the table of a memtable in front scan as before, and then the memtable. */
  lemma FlushedTables(s: LevelState, layer: Layer, meta: SstMeta, prefix: Bytes, readSeq: nat)
    requires meta.id !in LevelIds(s.levels)
    requires s.levels != [] ==> NoCommonKey(s.levels[0], s.readers, layer)
    ensures var s' := WithL0(s, meta, EntriesOf(layer));
            ScanTables(s'.levels, s'.readers, prefix, readSeq) ==
            ScanLayer(ScanTables(s.levels, s.readers, prefix, readSeq), layer, prefix, readSeq)
  {
    var s' := WithL0(s, meta, EntriesOf(layer));
    var level: seq<SstMeta> := if s.levels == [] then [] else s.levels[0];
    var deeper := if s.levels == [] then [] else s.levels[1..];
    assert forall i, j :: 0 <= i < |s.levels| && 0 <= j < |s.levels[i]| ==> s.levels[i][j].id in LevelIds(s.levels);
    assert s'.levels[0] == [meta] + level && s'.levels[1..] == deeper;
    ScanTablesMoreReaders(deeper, s.readers, meta.id, EntriesOf(layer), prefix, readSeq);
    ScanLevelCommutes(ScanTables(deeper, s.readers, prefix, readSeq), layer, level, s.readers, meta, prefix, readSeq);
  }

  /** Flushing changes no scan as long as no other open table of level 0 holds a key of
      the flushed memtable; if one does, that one is believed (ScanExactly). */
  lemma FlushKeepsScans(view: EngineView, meta: SstMeta, prefix: Bytes, readSeq: nat)
    requires view.frozen != [] && meta.id !in LevelIds(view.tables.levels)
    requires view.tables.levels != [] ==> NoCommonKey(view.tables.levels[0], view.tables.readers, view.frozen[0])
    ensures Scan(view.(frozen := view.frozen[1..],
                       tables := WithL0(view.tables, meta, EntriesOf(view.frozen[0]))), prefix, readSeq) ==
            Scan(view, prefix, readSeq)
  {
    FlushedTables(view.tables, view.frozen[0], meta, prefix, readSeq);
    ScanOldestFirst(ScanTables(view.tables.levels, view.tables.readers, prefix, readSeq), Memtables(view),
                    prefix, readSeq);
    assert Memtables(view)[1..] == view.frozen[1..] + [view.active];
  }
}
