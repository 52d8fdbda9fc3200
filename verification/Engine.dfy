/** The storage engine object (crates/lsm/src/engine.rs). Each method is proved
    to do to the engine's view what the functions of EngineState say. */
module Engine {
  import opened Wrappers
  import opened Bytes
  import opened Ordered
  import opened MemTable
  import opened WalRecord
  import opened WalLog
  import opened Levels
  import opened Mvcc
  import opened EngineState

  class LsmEngine {
    const crc: Crc
    const counter: SeqCounter
    const wal: WalWriter
    const levels: LevelManager
    const manifest: Manifest
    var memtable: MemTable
    var immutable: seq<Layer>

    ghost predicate Valid()
      reads this, memtable, wal
    {
      memtable.Valid() && memtable.threshold == DEFAULT_SIZE_THRESHOLD && wal.crc == crc
    }

    function View(): EngineView
      reads this, memtable, wal, levels
    {
      EngineView(memtable.entries, immutable, wal.file, levels.State(), manifest)
    }

    constructor Assemble(crc: Crc, counter: SeqCounter, memtable: MemTable, wal: WalWriter,
                         levels: LevelManager, manifest: Manifest)
      requires memtable.Valid() && memtable.threshold == DEFAULT_SIZE_THRESHOLD && wal.crc == crc
      ensures Valid() && this.crc == crc && this.counter == counter
      ensures this.memtable == memtable && this.wal == wal && this.levels == levels
      ensures View() == EngineView(memtable.entries, [], wal.file, levels.State(), manifest)
    {
      this.crc, this.counter, this.wal, this.levels, this.manifest := crc, counter, wal, levels, manifest;
      this.memtable, this.immutable := memtable, [];
    }

    /** `open`: replay the log into a fresh memtable, then move the counter past
        every sequence number seen. A failed open leaves the counter alone. */
    static method OpenDir(crc: Crc, counter: SeqCounter, manifest: Manifest, file: Bytes, disk: map<u64, Table>)
      returns (r: Result<LsmEngine, EngineError>)
      modifies counter
      ensures match Open(crc, manifest, file, disk)
              case Err(e) => r == Err(e) && counter.next == old(counter.next)
              case Ok(view) =>
                r.Ok? && fresh(r.value) && r.value.Valid() && r.value.View() == view &&
                r.value.crc == crc && r.value.counter == counter &&
                counter.next == CounterAfterOpen(old(counter.next),
                                                 RecoverFile(crc, file, manifest.walFlushedSeq).value)
    {
      var memtable := new MemTable(DEFAULT_SIZE_THRESHOLD);
      var maxSeqSeen: u64 := manifest.walFlushedSeq;
      var reader := new WalReader(crc, file);
      ghost var replayed := Replay(crc, file);
      ghost var rest := replayed.records;
      ghost var whole := Recover(rest, manifest.walFlushedSeq, Recovered(map[], maxSeqSeen));
      assert file[0..] == file;
      while true
        invariant fresh(memtable) && memtable.Valid() && memtable.threshold == DEFAULT_SIZE_THRESHOLD
        invariant fresh(reader) && reader.Valid() && reader.data == file && reader.crc == crc
        invariant Replay(crc, file[reader.pos..]) == Replayed(rest, replayed.end)
        invariant Recover(rest, manifest.walFlushedSeq, Recovered(memtable.entries, maxSeqSeen)) == whole
        invariant counter.next == old(counter.next)
        decreases |file| - reader.pos
      {
        ghost var unread := file[reader.pos..];
        var item := reader.Next();
        if item == None {
          break;
        }
        match item.value {
          case Err(e) =>
            return Err(WalFailure(e));
          case Ok(record) =>
            assert file[reader.pos..] == unread[Peek(crc, unread).taken..];
            assert rest[0] == record && rest[1..] == Replay(crc, file[reader.pos..]).records;
            rest := rest[1..];
            if record.seqNo > maxSeqSeen {
              maxSeqSeen := record.seqNo;
            }
            if record.seqNo > manifest.walFlushedSeq {
              var applied;
              match record.value {
                case Some(v) => applied := memtable.Put(record.key, v, record.seqNo);
                case None => applied := memtable.Delete(record.key, record.seqNo);
              }
              if applied.Err? {
                return Err(MemTableFailure(applied.error));
              }
            }
        }
      }
      counter.BumpNextSeqTo(SaturatingAdd(maxSeqSeen, 1));
      var levels := new LevelManager(manifest.levels, disk);
      var wal := new WalWriter.Open(crc, file);
      var engine := new LsmEngine.Assemble(crc, counter, memtable, wal, levels, manifest);
      r := Ok(engine);
    }

    method Put(key: Bytes, value: Bytes) returns (r: Result<(), EngineError>)
      requires Valid()
      modifies this`memtable, this`immutable, memtable, wal, counter
      ensures Valid() && (memtable == old(memtable) || fresh(memtable))
      ensures var record := WalRecord(old(counter.next), key, Some(value));
              View() == Commit(crc, old(View()), record) && r == CommitResult(record)
      ensures counter.next == Successor(old(counter.next))
    {
      var seqNo := counter.NextWriteSeq();
      var record := WalRecord(seqNo, key, Some(value));
      wal.Append(record);
      var applied := memtable.Put(key, value, seqNo);
      if applied.Err? {
        return Err(MemTableFailure(applied.error));
      }
      Freeze();
      r := Ok(());
    }

    method Delete(key: Bytes) returns (r: Result<(), EngineError>)
      requires Valid()
      modifies memtable, wal, counter
      ensures Valid()
      ensures var record := WalRecord(old(counter.next), key, None);
              View() == Commit(crc, old(View()), record) && r == CommitResult(record)
      ensures counter.next == Successor(old(counter.next))
    {
      var seqNo := counter.NextWriteSeq();
      var record := WalRecord(seqNo, key, None);
      wal.Append(record);
      var applied := memtable.Delete(key, seqNo);
      if applied.Err? {
        return Err(MemTableFailure(applied.error));
      }
      r := Ok(());
    }

    /** `maybe_freeze`: a full memtable is pushed behind the older frozen ones. */
    method Freeze()
      requires Valid()
      modifies this`memtable, this`immutable
      ensures Valid() && (memtable == old(memtable) || fresh(memtable))
      ensures View() == MaybeFreeze(old(View()))
    {
      if memtable.IsOverThreshold() {
        var frozen := memtable.entries;
        memtable := new MemTable(DEFAULT_SIZE_THRESHOLD);
        immutable := immutable + [frozen];
      }
    }

    method GetNow(key: Bytes) returns (r: Option<Bytes>)
      ensures r == Get(View(), key, Snapshot(counter.next))
    {
      r := GetAt(key, counter.BeginRead());
    }

    method GetAt(key: Bytes, readSeq: u64) returns (r: Option<Bytes>)
      ensures r == Get(View(), key, readSeq)
    {
      r := memtable.Get(key, readSeq);
      if r.Some? {
        return;
      }
      var i := |immutable|;
      assert immutable[..i] == immutable;
      while i > 0
        invariant 0 <= i <= |immutable|
        invariant FrozenGet(immutable, key, readSeq) == FrozenGet(immutable[..i], key, readSeq)
      {
        i := i - 1;
        assert immutable[..i + 1][..i] == immutable[..i];
        var layer := immutable[i];
        r := if key in layer then layer[key].ReadAt(readSeq) else None;
        if r.Some? {
          return;
        }
      }
      var state := levels.State();
      if |state.levels| > 0 {
        r := SearchLevel(state.levels[0], state.readers, false, key, readSeq);
        if r.Some? {
          return;
        }
        var rest := state.levels[1..];
        var n := 0;
        while n < |rest|
          invariant 0 <= n <= |rest|
          invariant DeepGet(rest, state.readers, key, readSeq) == DeepGet(rest[n..], state.readers, key, readSeq)
        {
          r := SearchLevel(rest[n], state.readers, true, key, readSeq);
          if r.Some? {
            return;
          }
          n := n + 1;
        }
      }
      r := None;
    }

    static method SearchLevel(level: seq<SstMeta>, readers: map<u64, Table>, ranged: bool, key: Bytes, readSeq: u64)
      returns (r: Option<Bytes>)
      ensures r == LevelGet(level, readers, ranged, key, readSeq)
    {
      for i := 0 to |level|
        invariant LevelGet(level, readers, ranged, key, readSeq) == LevelGet(level[i..], readers, ranged, key, readSeq)
      {
        var meta := level[i];
        if !ranged || InRange(meta, key) {
          if meta.id in readers {
            r := TableGet(readers[meta.id], key, readSeq);
            if r.Some? {
              return;
            }
          }
        }
      }
      r := None;
    }

    /** `scan_prefix`, as one step: tables first, then frozen memtables, then the active one. */
    method ScanPrefix(prefix: Bytes) returns (r: seq<(Bytes, Bytes)>)
      ensures r == Scan(View(), prefix, Snapshot(counter.next))
    {
      var readSeq := counter.BeginRead();
      var state := levels.State();
      var results: map<Bytes, Bytes> := map[];
      var n := |state.levels|;
      while n > 0
        invariant 0 <= n <= |state.levels|
        invariant results == ScanTables(state.levels[n..], state.readers, prefix, readSeq)
      {
        n := n - 1;
        results := MergeLevel(results, state.levels[n], state.readers, prefix, readSeq);
        assert state.levels[n..][1..] == state.levels[n + 1..];
      }
      var layers := immutable + [memtable.entries];
      ghost var fromTables := results;
      for i := 0 to |layers|
        invariant results == ScanLayers(fromTables, layers[..i], prefix, readSeq)
      {
        results := MergeLayer(results, layers[i], prefix, readSeq);
        assert layers[..i + 1][..i] == layers[..i];
      }
      assert layers[..|layers|] == layers;
      r := Listing(results);
    }

    static method MergeLevel(before: map<Bytes, Bytes>, level: seq<SstMeta>, readers: map<u64, Table>,
                             prefix: Bytes, readSeq: u64) returns (results: map<Bytes, Bytes>)
      ensures results == ScanLevel(before, level, readers, prefix, readSeq)
    {
      results := before;
      for i := 0 to |level|
        invariant results == ScanLevel(before, level[..i], readers, prefix, readSeq)
      {
        assert level[..i + 1][..i] == level[..i];
        var meta := level[i];
        if meta.id in readers {
          var table := readers[meta.id];
          ghost var sofar := results;
          for j := 0 to |table|
            invariant results == ScanTable(sofar, table[..j], prefix, readSeq)
          {
            assert table[..j + 1][..j] == table[..j];
            var e := table[j];
            if prefix <= e.key && e.seqNo <= readSeq {
              if e.tombstone {
                results := results - {e.key};
              } else {
                results := results[e.key := e.value];
              }
            }
          }
          assert table[..|table|] == table;
        }
      }
      assert level[..|level|] == level;
    }

    /** One memtable, entry by entry in key order. */
    static method MergeLayer(before: map<Bytes, Bytes>, layer: Layer, prefix: Bytes, readSeq: u64)
      returns (results: map<Bytes, Bytes>)
      ensures results == ScanLayer(before, layer, prefix, readSeq)
    {
      results := before;
      var keys := SortedKeys(layer.Keys);
      SortedKeysMeaning(layer.Keys);
      TakenEnds(before, layer, keys, prefix, readSeq);
      for i := 0 to |keys|
        invariant results == ScanLayer(before, Taken(layer, keys, i), prefix, readSeq)
      {
        var key := keys[i];
        assert key in keys;
        var val := layer[key];
        ScanNextKey(before, layer, keys, i, prefix, readSeq);
        if prefix <= key && val.seqNo <= readSeq {
          match val {
            case Value(data, _) => results := results[key := data];
            case Tombstone(_) => results := results - {key};
          }
        }
      }
    }
  }
}
