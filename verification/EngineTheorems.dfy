/** What readers and recovery see of the runs of EngineRuns. */
module EngineTheorems {
  import opened Wrappers
  import opened Bytes
  import opened Ordered
  import opened MemTable
  import opened WalRecord
  import opened WalLog
  import opened Levels
  import opened Mvcc
  import opened EngineState
  import opened EngineRuns

  // ---------- recovery ----------

  /** At any reachable point, replaying the file rebuilds the collapsed layers;
      it fails exactly when some record with an empty key was logged. */
  lemma ReplayRebuilds(crc: Crc, m: Machine)
    requires Good(crc, m) && m.Up?
    ensures RecoverFile(crc, m.view.wal, 0) ==
            if NoEmptyKey(m.log) then Ok(Recovered(Collapse(Layers(m.view)), MaxSeq(m.log)))
            else Err(MemTableFailure(EmptyKey))
  {
    RecoverLog(crc, m.log);
  }

  /** A crash that cuts the log at any byte, in any reachable state: reopening
      brings back exactly the records wholly inside the cut, unless the cut falls
      right after a checksum or inside a record header (or an empty key was
      logged before it): then the directory does not open at all. */
  lemma TornCrash(crc: Crc, m: Machine, cut: nat) returns (k: nat, off: nat)
    requires Good(crc, m) && m.Up? && cut <= |m.view.wal|
    ensures k <= |m.log| && cut == |EncodeAll(crc, m.log[..k])| + off
    ensures if k < |m.log| then off < |Encode(crc, m.log[k])| else off == 0
    ensures RecoverFile(crc, m.view.wal[..cut], 0) ==
            if !NoEmptyKey(m.log[..k]) then Err(MemTableFailure(EmptyKey))
            else if k < |m.log| && 4 <= off < 4 + |EncodeHeader(HeaderOf(m.log[k]))| then Err(WalFailure(DecodeError))
            else Ok(Recovered(Fold(m.log[..k]), MaxSeq(m.log[..k])))
  {
    k, off := TornLog(crc, m.log, cut);
    RecoverFold(m.log[..k]);
  }

  lemma {:induction false} HighestNumber(log: seq<WalRecord>)
    requires |log| <= U64_MAX && forall i :: 0 <= i < |log| ==> log[i].seqNo == i + 1
    ensures MaxSeq(log) == |log|
  {
    if log != [] {
      HighestNumber(log[..|log| - 1]);
    }
  }

  /** When the numbers in the log follow each other, as they do for one writer, and the
      directory opens after a crash that tore record k, the next write gets the number
      of the torn record, which is still at the end of the file. */
  lemma TornNumberIsReused(crc: Crc, m: Machine, cut: nat) returns (k: nat, off: nat)
    requires Good(crc, m) && m.Up? && cut <= |m.view.wal|
    requires |m.log| < U64_MAX && forall i :: 0 <= i < |m.log| ==> m.log[i].seqNo == i + 1
    requires RecoverFile(crc, m.view.wal[..cut], 0).Ok?
    ensures k <= |m.log| && cut == |EncodeAll(crc, m.log[..k])| + off
    ensures if k < |m.log| then off < |Encode(crc, m.log[k])| else off == 0
    ensures CounterAfterOpen(1, RecoverFile(crc, m.view.wal[..cut], 0).value) ==
            if k < |m.log| then m.log[k].seqNo else |m.log| + 1
  {
    k, off := TornCrash(crc, m, cut);
    HighestNumber(m.log[..k]);
  }

  /** Dropping the records at or below f changes nothing for a replay that skips them. */
  lemma {:induction false} RecoverAbove(rs: seq<WalRecord>, f: u64, sofar: Recovered)
    requires sofar.maxSeq >= f
    ensures Recover(Above(rs, f), f, sofar) == Recover(rs, f, sofar)
  {
    if rs != [] {
      var seen := sofar.(maxSeq := Max(sofar.maxSeq, rs[0].seqNo));
      RecoverAbove(rs[1..], f, seen);
      RecoverAbove(rs[1..], f, seen.(layer := seen.layer[rs[0].key := VersionOf(rs[0])]));
      if rs[0].seqNo > f {
        assert Above(rs, f)[1..] == Above(rs[1..], f);
      }
    }
  }

  /** Opening the file that `truncate_after(f)` writes gives the same memtable,
      the same highest number or the same error as opening the original with
      everything up to f flushed, whatever the order of the sequence numbers. */
  lemma TruncationInvisible(crc: Crc, file: Bytes, f: u64)
    requires Replay(crc, file).end == Clean
    ensures RecoverFile(crc, EncodeAll(crc, Above(Replay(crc, file).records, f)), f) == RecoverFile(crc, file, f)
  {
    var rs := Replay(crc, file).records;
    AboveFits(rs, f);
    ReplayEncodeAll(crc, Above(rs, f));
    RecoverAbove(rs, f, Recovered(map[], f));
  }

  lemma {:induction false} RecoverMax(rs: seq<WalRecord>, f: u64, sofar: Recovered)
    requires Recover(rs, f, sofar).Ok?
    ensures var top := Recover(rs, f, sofar).value.maxSeq;
            && sofar.maxSeq <= top && (forall i :: 0 <= i < |rs| ==> rs[i].seqNo <= top)
            && (top == sofar.maxSeq || exists i :: 0 <= i < |rs| && rs[i].seqNo == top)
  {
    if rs != [] {
      var seen := sofar.(maxSeq := Max(sofar.maxSeq, rs[0].seqNo));
      var next := if rs[0].seqNo <= f then seen else seen.(layer := seen.layer[rs[0].key := VersionOf(rs[0])]);
      RecoverMax(rs[1..], f, next);
      var top := Recover(rs, f, sofar).value.maxSeq;
      forall i | 0 <= i < |rs| ensures rs[i].seqNo <= top {
        if i > 0 {
          assert rs[i] == rs[1..][i - 1];
        }
      }
      if top != sofar.maxSeq && rs[0].seqNo != top {
        var i :| 0 <= i < |rs[1..]| && rs[1..][i].seqNo == top;
        assert rs[i + 1].seqNo == top;
      }
    }
  }

  /** After any successful open, whatever is in the log and the manifest, the
      next write gets a number above all of them and a read sees all of them,
      exactly when none of them is already the largest 64-bit number. */
  lemma CounterPassesEverything(crc: Crc, manifest: Manifest, file: Bytes, next: u64)
    requires RecoverFile(crc, file, manifest.walFlushedSeq).Ok?
    ensures var counter := CounterAfterOpen(next, RecoverFile(crc, file, manifest.walFlushedSeq).value);
            var rs := Replay(crc, file).records;
            (manifest.walFlushedSeq < counter && (forall i :: 0 <= i < |rs| ==> rs[i].seqNo < counter)
             <==> manifest.walFlushedSeq < U64_MAX && forall i :: 0 <= i < |rs| ==> rs[i].seqNo < U64_MAX)
            && (manifest.walFlushedSeq < counter && (forall i :: 0 <= i < |rs| ==> rs[i].seqNo < counter)
                ==> forall i :: 0 <= i < |rs| ==> rs[i].seqNo <= Snapshot(counter))
  {
    RecoverMax(Replay(crc, file).records, manifest.walFlushedSeq, Recovered(map[], manifest.walFlushedSeq));
  }

  // ---------- scans ----------

  lemma ScanLayerVisible(older: Layer, layer: Layer, prefix: Bytes, readSeq: nat)
    requires forall k :: k in layer ==> layer[k].seqNo <= readSeq
    ensures ScanLayer(Matching(Live(older), prefix), layer, prefix, readSeq) == Matching(Live(older + layer), prefix)
  {
  }

  lemma {:induction false} ScanLayersVisible(layers: seq<Layer>, prefix: Bytes, readSeq: u64)
    requires readSeq < U64_MAX && LayersBelow(layers, readSeq + 1)
    ensures ScanLayers(map[], layers, prefix, readSeq) == Matching(Live(Collapse(layers)), prefix)
  {
    if layers != [] {
      var init, last := layers[..|layers| - 1], layers[|layers| - 1];
      ScanLayersVisible(init, prefix, readSeq);
      ScanLayerVisible(Collapse(init), last, prefix, readSeq);
    }
  }

  lemma {:induction false} EmptyLevels(levels: seq<seq<SstMeta>>, prefix: Bytes, key: Bytes, readSeq: nat)
    requires forall i :: 0 <= i < |levels| ==> levels[i] == []
    ensures ScanTables(levels, map[], prefix, readSeq) == map[]
    ensures DeepGet(levels, map[], key, readSeq) == None
  {
    if levels != [] {
      EmptyLevels(levels[1..], prefix, key, readSeq);
    }
  }

  lemma NoTables(prefix: Bytes, key: Bytes, readSeq: nat)
    ensures ScanTables(NO_TABLES.levels, NO_TABLES.readers, prefix, readSeq) == map[]
    ensures TablesGet(NO_TABLES, key, readSeq) == None
  {
    var levels := NO_TABLES.levels;
    assert NO_TABLES.readers == map[];
    EmptyLevels(levels, prefix, key, readSeq);
    EmptyLevels(levels[1..], prefix, key, readSeq);
  }

  /** In every good state a prefix scan lists, in key order, exactly the entries
      with that prefix of the plain map the log describes. */
  lemma ScanIsPlain(crc: Crc, m: Machine, prefix: Bytes)
    requires Good(crc, m) && m.Up?
    ensures Scan(m.view, prefix, Snapshot(m.next)) == Listing(Matching(Plain(m.log), prefix))
  {
    var readSeq := Snapshot(m.next);
    NoTables(prefix, [], readSeq);
    LiveFold(m.log);
    if m.next > 1 {
      ScanLayersVisible(Layers(m.view), prefix, readSeq);
    } else {
      ScanLayersVisible(Layers(m.view), prefix, 1);
    }
  }

  // ---------- point lookup ----------

  ghost predicate NoLiveVersion(layers: seq<Layer>, key: Bytes) {
    forall i :: 0 <= i < |layers| && key in layers[i] ==> layers[i][key].Tombstone?
  }

  /** Searching visible layers from the newest: None exactly when no layer has a
      live version, and the latest version when that is live. */
  lemma {:induction false} FrozenGetVisible(layers: seq<Layer>, key: Bytes, readSeq: u64)
    requires readSeq < U64_MAX && LayersBelow(layers, readSeq + 1)
    ensures FrozenGet(layers, key, readSeq) == None <==> NoLiveVersion(layers, key)
    ensures key in Live(Collapse(layers)) ==> FrozenGet(layers, key, readSeq) == Some(Live(Collapse(layers))[key])
  {
    if layers != [] {
      var n := |layers| - 1;
      FrozenGetVisible(layers[..n], key, readSeq);
      assert NoLiveVersion(layers, key) <==>
             NoLiveVersion(layers[..n], key) && (key in layers[n] ==> layers[n][key].Tombstone?);
    }
  }

  /** A point lookup returns the latest value of every live key. For a key that
      is not live it agrees with the plain map exactly when no layer, however
      old, still holds a live version of it; with nothing frozen it always agrees. */
  lemma PointLookup(crc: Crc, m: Machine, key: Bytes)
    requires Good(crc, m) && m.Up?
    ensures var found := Get(m.view, key, Snapshot(m.next));
            && (key in Plain(m.log) ==> found == Some(Plain(m.log)[key]))
            && (found == Find(Plain(m.log), key) <==>
                key in Plain(m.log) || NoLiveVersion(Layers(m.view), key))
            && (m.view.frozen == [] ==> found == Find(Plain(m.log), key))
  {
    var readSeq := Snapshot(m.next);
    var layers := Layers(m.view);
    NoTables([], key, readSeq);
    LiveFold(m.log);
    FrozenGetVisible(layers, key, if m.next > 1 then readSeq else 1);
    assert layers[..|m.view.frozen|] == m.view.frozen;
    assert Get(m.view, key, readSeq) == FrozenGet(layers, key, readSeq);
    if m.view.frozen == [] {
      CollapseLayers(m.view);
    }
  }

  // ---------- one writer ----------

  /** What a single client does, one call at a time. */
  datatype Op = Put(key: Bytes, value: Bytes) | Delete(key: Bytes) | Kill | ReopenDir

  function Perform(crc: Crc, m: Machine, op: Op): Machine {
    match op
    case Put(key, value) => Next(crc, Next(crc, m, Allocate(0, key, Some(value))), Locked(0))
    case Delete(key) => Next(crc, Next(crc, m, Allocate(0, key, None)), Locked(0))
    case Kill => Next(crc, m, Crash(0))
    case ReopenDir => Next(crc, m, Reopen)
  }

  function Session(crc: Crc, ops: seq<Op>): Machine {
    if ops == [] then Start(crc, [], [], 1)
    else Perform(crc, Session(crc, ops[..|ops| - 1]), ops[|ops| - 1])
  }

  /** The plain map the calls build; a call with an empty key is refused. */
  function Model(ops: seq<Op>): map<Bytes, Bytes> {
    if ops == [] then map[] else
    var before := Model(ops[..|ops| - 1]);
    match ops[|ops| - 1]
    case Put(key, value) => if key == [] then before else before[key := value]
    case Delete(key) => before - {key}
    case _ => before
  }

  predicate IsWrite(op: Op) {
    op.Put? || op.Delete?
  }

  function Writes(ops: seq<Op>): nat {
    if ops == [] then 0 else Writes(ops[..|ops| - 1]) + if IsWrite(ops[|ops| - 1]) then 1 else 0
  }

  predicate OpFits(op: Op) {
    match op
    case Put(key, value) => Fits(WalRecord(0, key, Some(value)))
    case Delete(key) => Fits(WalRecord(0, key, None))
    case _ => true
  }

  predicate WritesEmptyKey(op: Op) {
    IsWrite(op) && op.key == []
  }

  /** Some restart comes after a write with an empty key. */
  ghost predicate Poisoned(ops: seq<Op>) {
    exists i, j :: 0 <= i < j < |ops| && WritesEmptyKey(ops[i]) && !IsWrite(ops[j])
  }

  ghost predicate Mirrors(m: Machine, ops: seq<Op>) {
    && (m.Down? <==> Poisoned(ops))
    && (m.Up? ==>
          && m.pending == map[] && m.next <= 1 + Writes(ops)
          && Plain(m.log) == Model(ops)
          && (NoEmptyKey(m.log) <==> forall i :: 0 <= i < |ops| ==> !WritesEmptyKey(ops[i])))
  }

  lemma PoisonedSnoc(ops: seq<Op>)
    requires ops != []
    ensures var n := |ops| - 1;
            Poisoned(ops) <==>
            Poisoned(ops[..n]) || (!IsWrite(ops[n]) && exists i :: 0 <= i < n && WritesEmptyKey(ops[i]))
  {
    var n := |ops| - 1;
    if !IsWrite(ops[n]) && exists i :: 0 <= i < n && WritesEmptyKey(ops[i]) {
      var i :| 0 <= i < n && WritesEmptyKey(ops[i]);
      assert WritesEmptyKey(ops[i]) && !IsWrite(ops[n]);
    }
    if Poisoned(ops[..n]) {
      var i, j :| 0 <= i < j < n && WritesEmptyKey(ops[..n][i]) && !IsWrite(ops[..n][j]);
      assert WritesEmptyKey(ops[i]) && !IsWrite(ops[j]);
    }
    if Poisoned(ops) {
      var i, j :| 0 <= i < j < |ops| && WritesEmptyKey(ops[i]) && !IsWrite(ops[j]);
      if j < n {
        assert WritesEmptyKey(ops[..n][i]) && !IsWrite(ops[..n][j]);
      }
    }
  }

  /** One write, from taking the number to unlocking. */
  lemma WriteStep(crc: Crc, m: Machine, key: Bytes, value: Option<Bytes>)
    requires Good(crc, m) && m.Up? && m.pending == map[] && m.next < U64_MAX
    requires Fits(WalRecord(0, key, value))
    ensures var m' := Next(crc, Next(crc, m, Allocate(0, key, value)), Locked(0));
            && Good(crc, m') && m'.Up? && m'.pending == map[] && m'.next == m.next + 1
            && m'.log == m.log + [WalRecord(m.next, key, value)]
            && m'.view == Commit(crc, m.view, WalRecord(m.next, key, value))
  {
    WriteIs(crc, m, key, value);
    AllocateGood(crc, m, 0, key, value);
    LockedGood(crc, Next(crc, m, Allocate(0, key, value)), 0);
  }

  lemma WriteIs(crc: Crc, m: Machine, key: Bytes, value: Option<Bytes>)
    requires m.Up? && m.pending == map[] && m.next < U64_MAX
    ensures var r, m1 := WalRecord(m.next, key, value), Next(crc, m, Allocate(0, key, value));
            && m1 == Up(m.view, m.next + 1, map[0 := r], m.log)
            && Next(crc, m1, Locked(0)) == Up(Commit(crc, m.view, r), m.next + 1, map[], m.log + [r])
  {
    var r := WalRecord(m.next, key, value);
    assert map[0 := r] - {0} == map[];
    assert m.pending[0 := r] == map[0 := r];
  }

  lemma PlainSnoc(log: seq<WalRecord>, r: WalRecord)
    ensures Plain(log + [r]) ==
            if r.key == [] then Plain(log)
            else if r.value.Some? then Plain(log)[r.key := r.value.value] else Plain(log) - {r.key}
    ensures NoEmptyKey(log + [r]) <==> NoEmptyKey(log) && r.key != []
  {
    assert (log + [r])[..|log|] == log;
    if NoEmptyKey(log + [r]) {
      assert forall i :: 0 <= i < |log| ==> log[i] == (log + [r])[i];
      assert (log + [r])[|log|] == r;
    }
  }

  lemma {:induction false} PlainHasNoEmptyKey(log: seq<WalRecord>)
    ensures [] !in Plain(log)
  {
    if log != [] {
      PlainHasNoEmptyKey(log[..|log| - 1]);
    }
  }

  lemma NoEmptyWriteSnoc(ops: seq<Op>, op: Op)
    ensures (forall i :: 0 <= i < |ops + [op]| ==> !WritesEmptyKey((ops + [op])[i])) <==>
            (forall i :: 0 <= i < |ops| ==> !WritesEmptyKey(ops[i])) && !WritesEmptyKey(op)
  {
    var all := ops + [op];
    assert forall i :: 0 <= i < |ops| ==> all[i] == ops[i];
    assert all[|ops|] == op;
  }

  lemma ModelSnoc(ops: seq<Op>, op: Op)
    ensures Model(ops + [op]) ==
            if op.Delete? then Model(ops) - {op.key}
            else if op.Put? && op.key != [] then Model(ops)[op.key := op.value]
            else Model(ops)
    ensures Writes(ops + [op]) == Writes(ops) + if IsWrite(op) then 1 else 0
  {
    assert (ops + [op])[..|ops|] == ops;
  }

  lemma PoisonedMore(ops: seq<Op>, op: Op)
    ensures Poisoned(ops + [op]) <==>
            Poisoned(ops) || (!IsWrite(op) && exists i :: 0 <= i < |ops| && WritesEmptyKey(ops[i]))
  {
    var all := ops + [op];
    assert all[..|ops|] == ops;
    PoisonedSnoc(all);
    assert forall i :: 0 <= i < |ops| ==> all[i] == ops[i];
  }

  lemma FreshStart(crc: Crc)
    ensures var m := Start(crc, [], [], 1);
            Good(crc, m) && m.Up? && m.pending == map[] && m.next == 1 && m.log == []
            && m.view.active == map[] && m.view.frozen == []
  {
    StartGood(crc, [], 1, 1);
    RecoverLog(crc, []);
  }

  lemma MirrorsWrite(m: Machine, m': Machine, ops: seq<Op>, op: Op, value: Option<Bytes>)
    requires Mirrors(m, ops) && m.Up? && IsWrite(op) && value == (if op.Put? then Some(op.value) else None)
    requires m'.Up? && m'.pending == map[] && m'.next == m.next + 1
    requires m'.log == m.log + [WalRecord(m.next, op.key, value)]
    ensures Mirrors(m', ops + [op])
  {
    PlainSnoc(m.log, WalRecord(m.next, op.key, value));
    PlainHasNoEmptyKey(m.log);
    ModelSnoc(ops, op);
    PoisonedMore(ops, op);
    NoEmptyWriteSnoc(ops, op);
  }

  lemma MirrorsRestart(m: Machine, m': Machine, ops: seq<Op>, op: Op)
    requires Mirrors(m, ops) && m.Up? && !IsWrite(op)
    requires m'.Up? <==> NoEmptyKey(m.log)
    requires m'.Up? ==> m'.log == m.log && m'.pending == map[] && m'.next <= m.next
    ensures Mirrors(m', ops + [op])
  {
    ModelSnoc(ops, op);
    PoisonedMore(ops, op);
    NoEmptyWriteSnoc(ops, op);
  }

  lemma PerformMirrors(crc: Crc, m: Machine, ops: seq<Op>, op: Op)
    requires Good(crc, m) && m.Up? && Mirrors(m, ops) && OpFits(op) && (IsWrite(op) ==> m.next < U64_MAX)
    ensures Good(crc, Perform(crc, m, op)) && Mirrors(Perform(crc, m, op), ops + [op])
  {
    if IsWrite(op) {
      var value := if op.Put? then Some(op.value) else None;
      WriteStep(crc, m, op.key, value);
      MirrorsWrite(m, Perform(crc, m, op), ops, op, value);
    } else {
      if op.Kill? {
        assert Kept(m.log, 0) == m.log;
        CrashGood(crc, m, 0);
      } else {
        ReopenGood(crc, m);
      }
      MirrorsRestart(m, Perform(crc, m, op), ops, op);
    }
  }

  lemma {:induction false} SessionMirrors(crc: Crc, ops: seq<Op>)
    requires Writes(ops) < U64_MAX && forall i :: 0 <= i < |ops| ==> OpFits(ops[i])
    ensures Good(crc, Session(crc, ops)) && Mirrors(Session(crc, ops), ops)
  {
    if ops == [] {
      FreshStart(crc);
    } else {
      var init, op := ops[..|ops| - 1], ops[|ops| - 1];
      SessionMirrors(crc, init);
      assert init + [op] == ops;
      var m := Session(crc, init);
      if m.Down? {
        PoisonedSnoc(ops);
      } else {
        PerformMirrors(crc, m, init, op);
      }
    }
  }

  /** Whole runs: from an empty directory, for every sequence of puts, deletes,
      kills and reopenings, the directory opens every time exactly when no
      restart follows a write with an empty key; and then every prefix scan
      returns exactly the key-sorted entries of the plain map the calls built. */
  lemma WholeRun(crc: Crc, ops: seq<Op>, prefix: Bytes)
    requires Writes(ops) < U64_MAX && forall i :: 0 <= i < |ops| ==> OpFits(ops[i])
    ensures var m := Session(crc, ops);
            && (m.Up? <==> !Poisoned(ops))
            && (m.Up? ==> Scan(m.view, prefix, Snapshot(m.next)) == Listing(Matching(Model(ops), prefix)))
  {
    SessionMirrors(crc, ops);
    if Session(crc, ops).Up? {
      ScanIsPlain(crc, Session(crc, ops), prefix);
    }
  }

  /** A put that fills the memtable leaves its entry in a frozen one. */
  lemma FreezingPut(crc: Crc, view: EngineView, key: Bytes, value: Bytes, seqNo: u64)
    requires view.active == map[] && key != []
    requires DEFAULT_SIZE_THRESHOLD <= |key| + |value| + ENTRY_OVERHEAD < U64_SIZE
    ensures var after := Commit(crc, view, WalRecord(seqNo, key, Some(value)));
            after.active == map[] && after.frozen == view.frozen + [map[key := Value(value, seqNo)]]
            && after.tables == view.tables
  {
    SizeUpdate(view.active, key, Value(value, seqNo));
    assert view.active[key := Value(value, seqNo)] == map[key := Value(value, seqNo)];
  }

  /** Deleting a key whose live version is frozen hides it from scans only. */
  lemma LookupPastTombstone(view: EngineView, key: Bytes, value: Bytes, seqNo: u64, readSeq: nat)
    requires view.frozen == [map[key := Value(value, seqNo)]] && seqNo <= readSeq
    requires key in view.active && view.active[key].Tombstone?
    ensures Get(view, key, readSeq) == Some(value)
  {
  }

  lemma AfterFreezingPut(crc: Crc, key: Bytes, value: Bytes)
    requires key != [] && OpFits(Put(key, value))
    requires |key| + |value| + ENTRY_OVERHEAD >= DEFAULT_SIZE_THRESHOLD
    ensures var m := Session(crc, [Put(key, value)]);
            Good(crc, m) && m.Up? && m.pending == map[] && m.next == 2
            && m.view.active == map[] && m.view.frozen == [map[key := Value(value, 1)]]
  {
    var m0 := Session(crc, []);
    FreshStart(crc);
    assert [Put(key, value)][..0] == [];
    WriteStep(crc, m0, key, Some(value));
    FreezingPut(crc, m0.view, key, value, 1);
  }

  /** A deleted key comes back: put an entry large enough to freeze the memtable,
      delete it, and a lookup still finds it although a scan does not list it. */
  lemma DeletedKeyComesBack(crc: Crc, key: Bytes, value: Bytes)
    requires key != [] && OpFits(Put(key, value))
    requires |key| + |value| + ENTRY_OVERHEAD >= DEFAULT_SIZE_THRESHOLD
    ensures var ops := [Put(key, value), Delete(key)];
            var m := Session(crc, ops);
            && m.Up? && Get(m.view, key, Snapshot(m.next)) == Some(value)
            && Scan(m.view, [], Snapshot(m.next)) == []
  {
    var ops := [Put(key, value), Delete(key)];
    var m1, m := Session(crc, [Put(key, value)]), Session(crc, ops);
    assert m.Up? && Get(m.view, key, Snapshot(m.next)) == Some(value) by {
      assert ops[..1] == [Put(key, value)];
      AfterFreezingPut(crc, key, value);
      WriteStep(crc, m1, key, None);
      LookupPastTombstone(m.view, key, value, 1, Snapshot(m.next));
    }
    PutThenDelete(key, value);
    WholeRun(crc, ops, []);
    assert Matching(map[], []) == map[];
  }

  lemma PutThenDelete(key: Bytes, value: Bytes)
    requires key != []
    ensures var ops := [Put(key, value), Delete(key)];
            Model(ops) == map[] && Writes(ops) == 2
  {
    var ops := [Put(key, value), Delete(key)];
    assert ops[..1] == [Put(key, value)] && ops[..1][..0] == [];
    assert Model(ops[..1]) == map[key := value] && Writes(ops[..1]) == 1;
    assert Model(ops) == Model(ops[..1]) - {key};
    assert Writes(ops) == Writes(ops[..1]) + 1;
  }
}
