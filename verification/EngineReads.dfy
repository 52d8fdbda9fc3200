/** Reads that are not of the latest state: a reader takes its snapshot before the
    engine's lock (crates/lsm/src/engine.rs, lines 102-108 and 147-149), so writes may
    come in between. */
module EngineReads {
  import opened Wrappers
  import opened Bytes
  import opened Ordered
  import opened MemTable
  import opened WalRecord
  import opened Mvcc
  import opened EngineState
  import opened EngineRuns
  import opened EngineTheorems
  import opened LogParts

  // ---------- what a snapshot shows ----------

  /** The versions of a layer that a read at this number may see. */
  function Visible(layer: Layer, readSeq: nat): Layer {
    map k | k in layer && layer[k].seqNo <= readSeq :: layer[k]
  }

  function AllVisible(layers: seq<Layer>, readSeq: nat): (r: seq<Layer>)
    ensures |r| == |layers|
  {
    seq(|layers|, i requires 0 <= i < |layers| => Visible(layers[i], readSeq))
  }

  lemma VisibleBelow(layers: seq<Layer>, readSeq: u64)
    requires readSeq < U64_MAX
    ensures LayersBelow(AllVisible(layers, readSeq), readSeq + 1)
  {
  }

  lemma VisibleInit(layers: seq<Layer>, readSeq: nat)
    requires layers != []
    ensures AllVisible(layers, readSeq)[..|layers| - 1] == AllVisible(layers[..|layers| - 1], readSeq)
    ensures AllVisible(layers, readSeq)[|layers| - 1] == Visible(layers[|layers| - 1], readSeq)
  {
  }

  lemma {:induction false} FrozenGetSees(layers: seq<Layer>, key: Bytes, readSeq: nat)
    ensures FrozenGet(layers, key, readSeq) == FrozenGet(AllVisible(layers, readSeq), key, readSeq)
  {
    if layers != [] {
      VisibleInit(layers, readSeq);
      FrozenGetSees(layers[..|layers| - 1], key, readSeq);
    }
  }

  lemma ScanLayerSees(results: map<Bytes, Bytes>, layer: Layer, prefix: Bytes, readSeq: nat)
    ensures ScanLayer(results, layer, prefix, readSeq) == ScanLayer(results, Visible(layer, readSeq), prefix, readSeq)
  {
  }

  lemma {:induction false} ScanLayersSee(layers: seq<Layer>, prefix: Bytes, readSeq: nat)
    ensures ScanLayers(map[], layers, prefix, readSeq) ==
            ScanLayers(map[], AllVisible(layers, readSeq), prefix, readSeq)
  {
    if layers != [] {
      var n := |layers| - 1;
      VisibleInit(layers, readSeq);
      ScanLayersSee(layers[..n], prefix, readSeq);
      ScanLayerSees(ScanLayers(map[], layers[..n], prefix, readSeq), layers[n], prefix, readSeq);
    }
  }

  /** A lookup in a state without tables goes through the memtables, newest first. */
  lemma GetFromLayers(crc: Crc, m: Machine, key: Bytes, readSeq: nat)
    requires Good(crc, m) && m.Up?
    ensures Get(m.view, key, readSeq) == FrozenGet(Layers(m.view), key, readSeq)
  {
    NoTables([], key, readSeq);
    assert Layers(m.view)[..|m.view.frozen|] == m.view.frozen;
  }

  /** Reading at any snapshot, however old: every memtable shows its one version of a
      key if that is old enough and otherwise none. A scan lists the live entries of
      the memtables so seen; a lookup finds the same and, besides, live versions
      under a newer tombstone. */
  lemma ReadAtSnapshot(crc: Crc, m: Machine, key: Bytes, prefix: Bytes, readSeq: u64)
    requires Good(crc, m) && m.Up? && readSeq < U64_MAX
    ensures var seen := AllVisible(Layers(m.view), readSeq);
            var live := Live(Collapse(seen));
            && Scan(m.view, prefix, readSeq) == Listing(Matching(live, prefix))
            && (key in live ==> Get(m.view, key, readSeq) == Some(live[key]))
            && (Get(m.view, key, readSeq) == None <==> NoLiveVersion(seen, key))
  {
    var layers := Layers(m.view);
    VisibleBelow(layers, readSeq);
    NoTables(prefix, key, readSeq);
    ScanLayersSee(layers, prefix, readSeq);
    ScanLayersVisible(AllVisible(layers, readSeq), prefix, readSeq);
    GetFromLayers(crc, m, key, readSeq);
    FrozenGetSees(layers, key, readSeq);
    FrozenGetVisible(AllVisible(layers, readSeq), key, readSeq);
  }

  // ---------- what memtables show of a key ----------

  /** No layer from n on has a version of the key that is old enough. */
  ghost predicate TooNewFrom(layers: seq<Layer>, n: nat, key: Bytes, readSeq: nat) {
    forall i :: n <= i < |layers| && key in layers[i] ==> layers[i][key].seqNo > readSeq
  }

  /** Such layers are passed over. */
  lemma {:induction false} PassedOver(layers: seq<Layer>, n: nat, key: Bytes, prefix: Bytes, readSeq: nat)
    requires n <= |layers| && TooNewFrom(layers, n, key, readSeq)
    ensures FrozenGet(layers, key, readSeq) == FrozenGet(layers[..n], key, readSeq)
    ensures Find(ScanLayers(map[], layers, prefix, readSeq), key) ==
            Find(ScanLayers(map[], layers[..n], prefix, readSeq), key)
  {
    if n < |layers| {
      var last := |layers| - 1;
      PassedOver(layers[..last], n, key, prefix, readSeq);
      assert layers[..last][..n] == layers[..n];
    } else {
      assert layers[..n] == layers;
    }
  }

  /** A layer with a version that is old enough shows it, and in a lookup the layers
      before it where it is a tombstone. */
  lemma ShownBy(layers: seq<Layer>, n: nat, key: Bytes, prefix: Bytes, readSeq: nat)
    requires n < |layers| && TooNewFrom(layers, n + 1, key, readSeq) && prefix <= key
    requires key in layers[n] && layers[n][key].seqNo <= readSeq
    ensures FrozenGet(layers, key, readSeq) ==
            Or(layers[n][key].ReadAt(readSeq), FrozenGet(layers[..n], key, readSeq))
    ensures Find(ScanLayers(map[], layers, prefix, readSeq), key) == layers[n][key].ReadAt(readSeq)
  {
    PassedOver(layers, n + 1, key, prefix, readSeq);
    assert layers[..n + 1][..n] == layers[..n];
  }

  /** The last part with a record of the key up to the number is in a memtable where the
      key was written again since. */
  ghost predicate Overwritten(view: EngineView, parts: seq<seq<WalRecord>>, key: Bytes, readSeq: nat)
    requires |parts| == |view.frozen| + 1
  {
    var n := LastPart(parts, key, readSeq);
    n >= 0 && key in Layers(view)[n] && Layers(view)[n][key].seqNo > readSeq
  }

  /** The memtables before the one where the snapshot's version of the key was. */
  function Older(view: EngineView, parts: seq<seq<WalRecord>>, key: Bytes, readSeq: nat): seq<Layer>
    requires |parts| == |view.frozen| + 1
  {
    var n := LastPart(parts, key, readSeq);
    if n < 0 then [] else Layers(view)[..n]
  }

  /** How the memtables stand to a snapshot: behind the last part with a record of the key
      that is old enough nothing is shown, and that part's memtable shows exactly the
      snapshot's version unless the key was written again in it. */
  lemma SnapshotInParts(view: EngineView, log: seq<WalRecord>, parts: seq<seq<WalRecord>>, key: Bytes, readSeq: nat)
    requires Parted(view, log, parts)
    ensures var n := LastPart(parts, key, readSeq);
            && TooNewFrom(Layers(view), n + 1, key, readSeq)
            && (n < 0 <==> key !in Due(log, readSeq))
            && (n >= 0 ==> key in Layers(view)[n])
            && (n >= 0 && !Overwritten(view, parts, key, readSeq) ==> Layers(view)[n][key] == Due(log, readSeq)[key])
  {
    var n, layers := LastPart(parts, key, readSeq), Layers(view);
    DueInParts(parts, key, readSeq);
    forall i | 0 <= i < |layers| ensures layers[i] == Fold(parts[i]) {
    }
    forall i | n + 1 <= i < |layers| && key in layers[i] ensures layers[i][key].seqNo > readSeq {
      LastVersion(parts[i], readSeq, key);
    }
    if n >= 0 {
      LastVersion(parts[n], readSeq, key);
    }
  }

  lemma DueReads(log: seq<WalRecord>, key: Bytes, readSeq: nat)
    ensures var due := Due(log, readSeq);
            Find(Plain(Upto(log, readSeq)), key) ==
            if key in due && due[key].Value? then Some(due[key].data) else None
  {
    LiveFold(Upto(log, readSeq));
  }

  /** What the memtables show of a key at a snapshot. */
  lemma ShownInParts(view: EngineView, log: seq<WalRecord>, parts: seq<seq<WalRecord>>, prefix: Bytes, key: Bytes,
                     readSeq: nat)
    requires Parted(view, log, parts) && prefix <= key
    ensures var due, older := Find(Plain(Upto(log, readSeq)), key), Older(view, parts, key, readSeq);
            if Overwritten(view, parts, key, readSeq)
            then && FrozenGet(Layers(view), key, readSeq) == FrozenGet(older, key, readSeq)
                 && Find(ScanLayers(map[], Layers(view), prefix, readSeq), key) ==
                    Find(ScanLayers(map[], older, prefix, readSeq), key)
            else && FrozenGet(Layers(view), key, readSeq) == Or(due, FrozenGet(older, key, readSeq))
                 && Find(ScanLayers(map[], Layers(view), prefix, readSeq), key) == due
  {
    var n := LastPart(parts, key, readSeq);
    SnapshotInParts(view, log, parts, key, readSeq);
    DueReads(log, key, readSeq);
    if n < 0 {
      PassedOver(Layers(view), 0, key, prefix, readSeq);
    } else if Overwritten(view, parts, key, readSeq) {
      TooNewAt(Layers(view), n, key, readSeq);
      PassedOver(Layers(view), n, key, prefix, readSeq);
    } else {
      ShownBy(Layers(view), n, key, prefix, readSeq);
    }
  }

  lemma TooNewAt(layers: seq<Layer>, n: nat, key: Bytes, readSeq: nat)
    requires n < |layers| && TooNewFrom(layers, n + 1, key, readSeq)
    requires key in layers[n] ==> layers[n][key].seqNo > readSeq
    ensures TooNewFrom(layers, n, key, readSeq)
  {
  }

  /** A lookup at any snapshot, in any reachable state, against what the records up to the
      snapshot leave. Unless the key was written again in the memtable that holds the
      snapshot's version of it, it finds a live version, and behind a tombstone whatever
      older memtables show; when it was, it finds just what older memtables show. */
  lemma OldSnapshotExactly(crc: Crc, m: Machine, parts: seq<seq<WalRecord>>, key: Bytes, readSeq: nat)
    requires Good(crc, m) && m.Up? && Parted(m.view, m.log, parts)
    ensures var due := Find(Plain(Upto(m.log, readSeq)), key);
            var older := FrozenGet(Older(m.view, parts, key, readSeq), key, readSeq);
            var overwritten := Overwritten(m.view, parts, key, readSeq);
            && Get(m.view, key, readSeq) == (if overwritten then older else Or(due, older))
            && (Get(m.view, key, readSeq) == due <==> older == due || (due.Some? && !overwritten))
  {
    GetFromLayers(crc, m, key, readSeq);
    ShownInParts(m.view, m.log, parts, [], key, readSeq);
  }

  /** A scan reads the layers in order when there are no tables. */
  lemma ScanFromLayers(crc: Crc, m: Machine, prefix: Bytes, readSeq: nat)
    requires Good(crc, m) && m.Up?
    ensures ScanMap(m.view, prefix, readSeq) == ScanLayers(map[], Layers(m.view), prefix, readSeq)
  {
    NoTables(prefix, [], readSeq);
  }

  lemma {:induction false} ScanLayersPrefix(layers: seq<Layer>, prefix: Bytes, key: Bytes, readSeq: nat)
    requires !(prefix <= key)
    ensures key !in ScanLayers(map[], layers, prefix, readSeq)
  {
    if layers != [] {
      ScanLayersPrefix(layers[..|layers| - 1], prefix, key, readSeq);
    }
  }

  /** A scan at any snapshot lists what the records up to it leave exactly when, for every
      key with the prefix that was written again in the memtable that held the snapshot's
      version of it, older memtables happen to show the same. */
  lemma OldScanExactly(crc: Crc, m: Machine, parts: seq<seq<WalRecord>>, prefix: Bytes, readSeq: nat)
    requires Good(crc, m) && m.Up? && Parted(m.view, m.log, parts)
    ensures var due := Plain(Upto(m.log, readSeq));
            ScanMap(m.view, prefix, readSeq) == Matching(due, prefix) <==>
            forall key :: prefix <= key && Overwritten(m.view, parts, key, readSeq) ==>
              Find(ScanLayers(map[], Older(m.view, parts, key, readSeq), prefix, readSeq), key) == Find(due, key)
  {
    var due, scanned := Plain(Upto(m.log, readSeq)), ScanMap(m.view, prefix, readSeq);
    ScanFromLayers(crc, m, prefix, readSeq);
    forall key | prefix <= key
      ensures Find(scanned, key) ==
              if Overwritten(m.view, parts, key, readSeq)
              then Find(ScanLayers(map[], Older(m.view, parts, key, readSeq), prefix, readSeq), key)
              else Find(due, key)
      ensures Find(Matching(due, prefix), key) == Find(due, key)
    {
      ShownInParts(m.view, m.log, parts, prefix, key, readSeq);
    }
    forall key | !(prefix <= key) ensures Find(scanned, key) == Find(Matching(due, prefix), key) {
      ScanLayersPrefix(Layers(m.view), prefix, key, readSeq);
    }
    if forall key :: prefix <= key && Overwritten(m.view, parts, key, readSeq) ==>
         Find(ScanLayers(map[], Older(m.view, parts, key, readSeq), prefix, readSeq), key) == Find(due, key)
    {
      forall key ensures Find(scanned, key) == Find(Matching(due, prefix), key) {
      }
      SameFinds(scanned, Matching(due, prefix));
    }
  }

  // ---------- a put between snapshot and lock ----------

  /** The written version is too new for a snapshot taken before, frozen or not. */
  lemma CommitTooNew(crc: Crc, view: EngineView, r: WalRecord, readSeq: nat)
    requires r.key != [] && r.seqNo > readSeq
    ensures var after := Commit(crc, view, r);
            && TooNewFrom(Layers(after), |view.frozen|, r.key, readSeq)
            && |view.frozen| <= |Layers(after)| && Layers(after)[..|view.frozen|] == view.frozen
  {
  }

  /** It does happen, to any live key: a reader takes its snapshot before a put under the
      key and gets the lock after it. The key is live throughout, but the reader sees just
      what the frozen memtables show of it: nothing, in a lookup, exactly when none of them
      holds a live version. */
  lemma OverwrittenKeyIsMissed(crc: Crc, m: Machine, key: Bytes, value: Bytes)
    requires Good(crc, m) && m.Up? && m.pending == map[] && m.next < U64_MAX
    requires key in Plain(m.log) && key != [] && OpFits(Put(key, value))
    ensures var m', readSeq := Perform(crc, m, Put(key, value)), Snapshot(m.next);
            && m'.Up? && Get(m.view, key, readSeq) == Some(Plain(m.log)[key])
            && Get(m'.view, key, Snapshot(m'.next)) == Some(value)
            && Get(m'.view, key, readSeq) == FrozenGet(m.view.frozen, key, readSeq)
            && (Get(m'.view, key, readSeq) == None <==> NoLiveVersion(m.view.frozen, key))
            && Find(ScanMap(m'.view, [], readSeq), key) == Find(ScanLayers(map[], m.view.frozen, [], readSeq), key)
  {
    var r := WalRecord(m.next, key, Some(value));
    WriteStep(crc, m, key, Some(value));
    PlainSnoc(m.log, r);
    assert m.next > 1 by {
      assert m.log != [] && 0 < m.log[0].seqNo < m.next;
    }
    PointLookup(crc, m, key);
    PointLookup(crc, Perform(crc, m, Put(key, value)), key);
    SeenLate(crc, Perform(crc, m, Put(key, value)), m.view, r, Snapshot(m.next));
    FrozenVisible(crc, m, key);
  }

  /** The frozen memtables of a state are visible to its own snapshot. */
  lemma FrozenVisible(crc: Crc, m: Machine, key: Bytes)
    requires Good(crc, m) && m.Up? && m.next > 1
    ensures FrozenGet(m.view.frozen, key, Snapshot(m.next)) == None <==> NoLiveVersion(m.view.frozen, key)
  {
    assert forall i :: 0 <= i < |m.view.frozen| ==> Layers(m.view)[i] == m.view.frozen[i];
    FrozenGetVisible(m.view.frozen, key, Snapshot(m.next));
  }

  lemma SeenLate(crc: Crc, m: Machine, before: EngineView, r: WalRecord, readSeq: nat)
    requires Good(crc, m) && m.Up? && m.view == Commit(crc, before, r) && r.key != [] && r.seqNo > readSeq
    ensures Get(m.view, r.key, readSeq) == FrozenGet(before.frozen, r.key, readSeq)
    ensures Find(ScanMap(m.view, [], readSeq), r.key) == Find(ScanLayers(map[], before.frozen, [], readSeq), r.key)
  {
    CommitTooNew(crc, before, r, readSeq);
    ScanFromLayers(crc, m, [], readSeq);
    GetFromLayers(crc, m, r.key, readSeq);
    PassedOver(Layers(m.view), |before.frozen|, r.key, [], readSeq);
  }
}
