/** The state of the storage engine as a value, and what its operations do to
    it. The class in Engine.dfy is proved to follow these functions; the
    properties of whole runs are proved about them. */
module EngineState {
  import opened Wrappers
  import opened Bytes
  import opened Ordered
  import opened MemTable
  import opened WalRecord
  import opened WalLog
  import opened Levels
  import opened Mvcc

  datatype EngineError = WalFailure(error: WalError) | MemTableFailure(cause: MemTableError)

  /** `frozen` is oldest-first, as the source pushes to the end. */
  datatype EngineView = EngineView(
    active: Layer,
    frozen: seq<Layer>,
    wal: Bytes,
    tables: LevelState,
    manifest: Manifest)

  // ---------- writing ----------

  /** The version a log record puts under its key. */
  function VersionOf(r: WalRecord): VersionedValue {
    match r.value
    case Some(v) => Value(v, r.seqNo)
    case None => Tombstone(r.seqNo)
  }

  /** `is_full`: the size counter, in its width, has reached the threshold. */
  predicate Full(layer: Layer) {
    TotalSize(layer) % U64_SIZE >= DEFAULT_SIZE_THRESHOLD
  }

  function MaybeFreeze(view: EngineView): EngineView {
    if Full(view.active)
    then view.(active := map[], frozen := view.frozen + [view.active])
    else view
  }

  /** The locked section of `put` and `delete`: append to the log, then apply.
      An empty key is refused only after it was logged; a delete never freezes. */
  function Commit(crc: Crc, view: EngineView, r: WalRecord): EngineView {
    var logged := view.(wal := view.wal + Encode(crc, r));
    if r.key == [] then logged else
    var applied := logged.(active := view.active[r.key := VersionOf(r)]);
    if r.value.Some? then MaybeFreeze(applied) else applied
  }

  function CommitResult(r: WalRecord): Result<(), EngineError> {
    if r.key == [] then Err(MemTableFailure(EmptyKey)) else Ok(())
  }

  // ---------- recovery ----------

  datatype Recovered = Recovered(layer: Layer, maxSeq: u64)

  /** The replay loop of `open`, from the records it reads. */
  function Recover(rs: seq<WalRecord>, flushedSeq: u64, sofar: Recovered): Result<Recovered, EngineError> {
    if rs == [] then Ok(sofar) else
    var r := rs[0];
    var seen := sofar.(maxSeq := Max(sofar.maxSeq, r.seqNo));
    if r.seqNo <= flushedSeq then Recover(rs[1..], flushedSeq, seen)
    else if r.key == [] then Err(MemTableFailure(EmptyKey))
    else Recover(rs[1..], flushedSeq, seen.(layer := seen.layer[r.key := VersionOf(r)]))
  }

  /** Replaying a log file into a fresh memtable, or the error `open` stops with. */
  function RecoverFile(crc: Crc, file: Bytes, flushedSeq: u64): Result<Recovered, EngineError> {
    var replayed := Replay(crc, file);
    match Recover(replayed.records, flushedSeq, Recovered(map[], flushedSeq))
    case Err(e) => Err(e)
    case Ok(recovered) => if replayed.end.Broken? then Err(WalFailure(replayed.end.error)) else Ok(recovered)
  }

  /** The engine that `open` builds from the files of a directory. */
  function Open(crc: Crc, manifest: Manifest, file: Bytes, disk: map<u64, Table>): Result<EngineView, EngineError> {
    match RecoverFile(crc, file, manifest.walFlushedSeq)
    case Err(e) => Err(e)
    case Ok(recovered) =>
      Ok(EngineView(recovered.layer, [], file, OpenLevels(manifest.levels, disk), manifest))
  }

  /** The sequence counter after a successful open. */
  function CounterAfterOpen(next: u64, recovered: Recovered): u64 {
    Max(next, SaturatingAdd(recovered.maxSeq, 1))
  }

  // ---------- point lookup ----------

  /** The frozen memtables, newest first. */
  function FrozenGet(frozen: seq<Layer>, key: Bytes, readSeq: nat): Option<Bytes> {
    if frozen == [] then None else
    var last := |frozen| - 1;
    match LayerGet(frozen[last], key, readSeq)
    case Some(v) => Some(v)
    case None => FrozenGet(frozen[..last], key, readSeq)
  }

  /** The tables of one level in order; from level 1 on only those whose range holds the key. */
  function LevelGet(level: seq<SstMeta>, readers: map<u64, Table>, ranged: bool, key: Bytes, readSeq: nat)
    : Option<Bytes>
  {
    if level == [] then None else
    var meta := level[0];
    var found := if (ranged ==> InRange(meta, key)) && meta.id in readers
                 then TableGet(readers[meta.id], key, readSeq) else None;
    if found.Some? then found else LevelGet(level[1..], readers, ranged, key, readSeq)
  }

  function DeepGet(levels: seq<seq<SstMeta>>, readers: map<u64, Table>, key: Bytes, readSeq: nat): Option<Bytes> {
    if levels == [] then None else
    match LevelGet(levels[0], readers, true, key, readSeq)
    case Some(v) => Some(v)
    case None => DeepGet(levels[1..], readers, key, readSeq)
  }

  function TablesGet(s: LevelState, key: Bytes, readSeq: nat): Option<Bytes> {
    if s.levels == [] then None else
    match LevelGet(s.levels[0], s.readers, false, key, readSeq)
    case Some(v) => Some(v)
    case None => DeepGet(s.levels[1..], s.readers, key, readSeq)
  }

  /** `get_at`: the first live version met, from the newest place to the oldest. */
  function Get(view: EngineView, key: Bytes, readSeq: nat): Option<Bytes> {
    match LayerGet(view.active, key, readSeq)
    case Some(v) => Some(v)
    case None =>
      match FrozenGet(view.frozen, key, readSeq)
      case Some(v) => Some(v)
      case None => TablesGet(view.tables, key, readSeq)
  }

  // ---------- prefix scan ----------

  /** The results after a memtable has been merged in: its visible values replace,
      its visible tombstones remove. */
  function ScanLayer(results: map<Bytes, Bytes>, layer: Layer, prefix: Bytes, readSeq: nat): map<Bytes, Bytes> {
    map k | k in results.Keys + layer.Keys &&
            (if k in layer && prefix <= k && layer[k].seqNo <= readSeq then layer[k].Value? else k in results)
      :: if k in layer && prefix <= k && layer[k].seqNo <= readSeq then layer[k].data else results[k]
  }

  /** Merging one entry more into the results. */
  lemma ScanLayerStep(results: map<Bytes, Bytes>, layer: Layer, key: Bytes, v: VersionedValue,
                      prefix: Bytes, readSeq: nat)
    requires key !in layer
    ensures var sofar := ScanLayer(results, layer, prefix, readSeq);
            ScanLayer(results, layer[key := v], prefix, readSeq) ==
            if !(prefix <= key && v.seqNo <= readSeq) then sofar
            else if v.Value? then sofar[key := v.data] else sofar - {key}
  {
  }

  /** The part of a layer under its first i keys. */
  ghost function Taken(layer: Layer, keys: seq<Bytes>, i: nat): Layer
    requires i <= |keys|
  {
    map k | k in layer && k in keys[..i] :: layer[k]
  }

  lemma ScanNextKey(results: map<Bytes, Bytes>, layer: Layer, keys: seq<Bytes>, i: nat,
                    prefix: Bytes, readSeq: nat)
    requires Ascending(keys) && i < |keys| && keys[i] in layer
    ensures var key, v := keys[i], layer[keys[i]];
            var sofar := ScanLayer(results, Taken(layer, keys, i), prefix, readSeq);
            ScanLayer(results, Taken(layer, keys, i + 1), prefix, readSeq) ==
            if !(prefix <= key && v.seqNo <= readSeq) then sofar
            else if v.Value? then sofar[key := v.data] else sofar - {key}
  {
    LessIrreflexive(keys[i]);
    assert keys[..i + 1] == keys[..i] + [keys[i]];
    assert Taken(layer, keys, i + 1) == Taken(layer, keys, i)[keys[i] := layer[keys[i]]];
    ScanLayerStep(results, Taken(layer, keys, i), keys[i], layer[keys[i]], prefix, readSeq);
  }

  lemma TakenEnds(results: map<Bytes, Bytes>, layer: Layer, keys: seq<Bytes>, prefix: Bytes, readSeq: nat)
    requires forall k :: k in keys <==> k in layer
    ensures ScanLayer(results, Taken(layer, keys, 0), prefix, readSeq) == results
    ensures Taken(layer, keys, |keys|) == layer
  {
    assert keys[..|keys|] == keys;
  }

  function ScanLayers(results: map<Bytes, Bytes>, layers: seq<Layer>, prefix: Bytes, readSeq: nat): map<Bytes, Bytes> {
    if layers == [] then results else
    var last := |layers| - 1;
    ScanLayer(ScanLayers(results, layers[..last], prefix, readSeq), layers[last], prefix, readSeq)
  }

  function ScanEntry(results: map<Bytes, Bytes>, e: Entry, prefix: Bytes, readSeq: nat): map<Bytes, Bytes> {
    if !(prefix <= e.key && e.seqNo <= readSeq) then results
    else if e.tombstone then results - {e.key}
    else results[e.key := e.value]
  }

  function ScanTable(results: map<Bytes, Bytes>, t: Table, prefix: Bytes, readSeq: nat): map<Bytes, Bytes> {
    if t == [] then results else
    ScanEntry(ScanTable(results, t[..|t| - 1], prefix, readSeq), t[|t| - 1], prefix, readSeq)
  }

  function ScanLevel(results: map<Bytes, Bytes>, level: seq<SstMeta>, readers: map<u64, Table>,
                     prefix: Bytes, readSeq: nat): map<Bytes, Bytes> {
    if level == [] then results else
    var meta := level[|level| - 1];
    var before := ScanLevel(results, level[..|level| - 1], readers, prefix, readSeq);
    if meta.id in readers then ScanTable(before, readers[meta.id], prefix, readSeq) else before
  }

  /** The deepest level first; within a level in list order. */
  function ScanTables(levels: seq<seq<SstMeta>>, readers: map<u64, Table>, prefix: Bytes, readSeq: nat)
    : map<Bytes, Bytes>
  {
    if levels == [] then map[] else
    ScanLevel(ScanTables(levels[1..], readers, prefix, readSeq), levels[0], readers, prefix, readSeq)
  }

  function ScanMap(view: EngineView, prefix: Bytes, readSeq: nat): map<Bytes, Bytes> {
    var fromTables := ScanTables(view.tables.levels, view.tables.readers, prefix, readSeq);
    ScanLayers(fromTables, view.frozen + [view.active], prefix, readSeq)
  }

  /** `scan_prefix`: the results in key order. */
  function Scan(view: EngineView, prefix: Bytes, readSeq: nat): seq<(Bytes, Bytes)> {
    Listing(ScanMap(view, prefix, readSeq))
  }

  function Or(first: Option<Bytes>, second: Option<Bytes>): Option<Bytes> {
    if first.Some? then first else second
  }

  function Find(m: map<Bytes, Bytes>, key: Bytes): Option<Bytes> {
    if key in m then Some(m[key]) else None
  }

  lemma SameFinds(a: map<Bytes, Bytes>, b: map<Bytes, Bytes>)
    requires forall key :: Find(a, key) == Find(b, key)
    ensures a == b
  {
    assert forall key :: key in a ==> Find(a, key) == Find(b, key);
    assert forall key :: key in b ==> Find(a, key) == Find(b, key);
  }
}
