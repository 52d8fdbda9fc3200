/** Which deleted keys a lookup still finds, told from the calls alone: memtables are
    frozen by the size of what was written since the last freeze or restart
    (crates/lsm/src/engine.rs, lines 107-119 and 210-216). */
module FrozenKeys {
  import opened Wrappers
  import opened Bytes
  import opened Ordered
  import opened MemTable
  import opened WalRecord
  import opened Mvcc
  import opened EngineState
  import opened EngineRuns
  import opened EngineTheorems
  import opened LogParts

  // ---------- what the calls write ----------

  function WithPut(layer: Layer, key: Bytes, value: Bytes): Layer {
    if key == [] then layer else layer[key := Value(value, 0)]
  }

  function WithDelete(layer: Layer, key: Bytes): Layer {
    if key == [] then layer else layer[key := Tombstone(0)]
  }

  function WithWrite(layer: Layer, op: Op): Layer
    requires IsWrite(op)
  {
    if op.Put? then WithPut(layer, op.key, op.value) else WithDelete(layer, op.key)
  }

  /** All keys ever written, as they were written last; numbers are left out. */
  function Written(ops: seq<Op>): Layer {
    if ops == [] then map[] else
    var before := Written(ops[..|ops| - 1]);
    match ops[|ops| - 1]
    case Put(key, value) => WithPut(before, key, value)
    case Delete(key) => WithDelete(before, key)
    case _ => before
  }

  /** This put fills the memtable. */
  predicate Fills(layer: Layer, key: Bytes, value: Bytes) {
    key != [] && Full(WithPut(layer, key, value))
  }

  /** The same since the last freeze, or since the last restart, which replays everything
      into one memtable. */
  function Unfrozen(ops: seq<Op>): Layer {
    if ops == [] then map[] else
    var before := Unfrozen(ops[..|ops| - 1]);
    match ops[|ops| - 1]
    case Put(key, value) => if Fills(before, key, value) then map[] else WithPut(before, key, value)
    case Delete(key) => WithDelete(before, key)
    case _ => Written(ops[..|ops| - 1])
  }

  /** The keys that were live when a memtable was frozen since the last restart. */
  function FrozenLive(ops: seq<Op>): set<Bytes> {
    if ops == [] || !IsWrite(ops[|ops| - 1]) then {} else
    var init, last := ops[..|ops| - 1], ops[|ops| - 1];
    FrozenLive(init) + if last.Put? && Fills(Unfrozen(init), last.key, last.value) then Model(ops).Keys else {}
  }

  // ---------- sizes ----------

  /** The same keys with entries of the same sizes. */
  ghost predicate SameShape(a: Layer, b: Layer) {
    a.Keys == b.Keys && forall k :: k in a ==> a[k].DataLen() == b[k].DataLen()
  }

  lemma {:induction false} SameTotal(a: Layer, b: Layer)
    requires SameShape(a, b)
    ensures TotalSize(a) == TotalSize(b)
    decreases a.Keys
  {
    if a != map[] {
      var k := Least(a.Keys);
      SameTotal(a - {k}, b - {k});
    }
  }

  lemma UnfrozenSnoc(ops: seq<Op>, op: Op)
    ensures Written(ops + [op]) ==
            if op.Put? then WithPut(Written(ops), op.key, op.value)
            else if op.Delete? then WithDelete(Written(ops), op.key) else Written(ops)
    ensures Unfrozen(ops + [op]) ==
            if op.Put? then
              if Fills(Unfrozen(ops), op.key, op.value) then map[] else WithPut(Unfrozen(ops), op.key, op.value)
            else if op.Delete? then WithDelete(Unfrozen(ops), op.key) else Written(ops)
  {
    assert (ops + [op])[..|ops|] == ops;
  }

  /** The machine's memtable and log have the shape that the calls say. */
  ghost predicate ShapeOk(m: Machine, ops: seq<Op>) {
    m.Up? && SameShape(m.view.active, Unfrozen(ops)) && SameShape(Fold(m.log), Written(ops))
  }

  /** What a locked put or delete does to the memtables, by the size of the one it writes to. */
  lemma CommitShape(crc: Crc, view: EngineView, r: WalRecord, unfrozen: Layer, op: Op)
    requires SameShape(view.active, unfrozen) && WritesAs(r, op)
    ensures var after := Commit(crc, view, r);
            if op.Put? && Fills(unfrozen, op.key, op.value)
            then after.active == map[] && after.frozen == view.frozen + [view.active[r.key := VersionOf(r)]]
            else after.frozen == view.frozen &&
                 SameShape(after.active, WithWrite(unfrozen, op))
  {
    if r.key != [] {
      var applied := view.active[r.key := VersionOf(r)];
      var written := WithWrite(unfrozen, op);
      assert SameShape(applied, written);
      SameTotal(applied, written);
    }
  }

  /** The record a put or delete logs. */
  predicate WritesAs(r: WalRecord, op: Op) {
    IsWrite(op) && r.key == op.key && r.value == (if op.Put? then Some(op.value) else None)
  }

  lemma FoldShape(log: seq<WalRecord>, r: WalRecord, written: Layer, op: Op)
    requires SameShape(Fold(log), written) && WritesAs(r, op)
    ensures SameShape(Fold(log + [r]), WithWrite(written, op))
  {
    FoldSnoc(log, r);
  }

  // ---------- what is frozen ----------

  /** The keys with a live version in some frozen memtable are these. */
  ghost predicate FrozenHolds(frozen: seq<Layer>, keys: set<Bytes>) {
    forall key :: key in keys <==> !NoLiveVersion(frozen, key)
  }

  lemma {:induction false} LiveIsInSome(layers: seq<Layer>, key: Bytes)
    requires key in Live(Collapse(layers))
    ensures !NoLiveVersion(layers, key)
  {
    var n := |layers| - 1;
    if key in layers[n] {
      assert layers[n][key].Value?;
    } else {
      LiveIsInSome(layers[..n], key);
      var i :| 0 <= i < n && key in layers[..n][i] && !layers[..n][i][key].Tombstone?;
      assert key in layers[i] && !layers[i][key].Tombstone?;
    }
  }

  lemma NoLiveSnoc(layers: seq<Layer>, layer: Layer, key: Bytes)
    ensures NoLiveVersion(layers + [layer], key) <==>
            NoLiveVersion(layers, key) && (key in layer ==> layer[key].Tombstone?)
  {
    var all := layers + [layer];
    assert all[|layers|] == layer && forall i :: 0 <= i < |layers| ==> all[i] == layers[i];
  }

  /** One more memtable is frozen. */
  lemma FrozenMore(frozen: seq<Layer>, layer: Layer, keys: set<Bytes>, more: set<Bytes>)
    requires FrozenHolds(frozen, keys) && more == keys + Live(Collapse(frozen + [layer])).Keys
    ensures FrozenHolds(frozen + [layer], more)
  {
    assert (frozen + [layer])[..|frozen|] == frozen;
    forall key ensures key in more <==> !NoLiveVersion(frozen + [layer], key) {
      NoLiveSnoc(frozen, layer, key);
      if key in Live(Collapse(frozen + [layer])) {
        LiveIsInSome(frozen + [layer], key);
      }
    }
  }

  /** With an empty memtable, the frozen ones together hold the log. */
  lemma FrozenHoldLog(crc: Crc, m: Machine)
    requires Good(crc, m) && m.Up? && m.view.active == map[]
    ensures Live(Collapse(m.view.frozen)) == Plain(m.log)
  {
    CollapseLayers(m.view);
    assert Collapse(m.view.frozen) + map[] == Collapse(m.view.frozen);
    LiveFold(m.log);
  }

  /** The log of a good machine without a memtable in use is all frozen. */
  lemma FrozenGrows(crc: Crc, m: Machine, frozen: seq<Layer>, layer: Layer, keys: set<Bytes>)
    requires Good(crc, m) && m.Up? && m.view.active == map[] && m.view.frozen == frozen + [layer]
    requires FrozenHolds(frozen, keys)
    ensures FrozenHolds(m.view.frozen, keys + Plain(m.log).Keys)
  {
    FrozenHoldLog(crc, m);
    FrozenMore(frozen, layer, keys, keys + Plain(m.log).Keys);
  }

  /** A locked write keeps the memtables as the calls say. */
  lemma CommitFrozen(crc: Crc, m: Machine, m': Machine, r: WalRecord, ops: seq<Op>, op: Op)
    requires m.Up? && Good(crc, m') && m'.Up? && m'.view == Commit(crc, m.view, r) && m'.log == m.log + [r]
    requires ShapeOk(m, ops) && FrozenHolds(m.view.frozen, FrozenLive(ops))
    requires WritesAs(r, op) && Plain(m'.log) == Model(ops + [op])
    ensures ShapeOk(m', ops + [op]) && FrozenHolds(m'.view.frozen, FrozenLive(ops + [op]))
  {
    CommitShape(crc, m.view, r, Unfrozen(ops), op);
    FoldShape(m.log, r, Written(ops), op);
    UnfrozenSnoc(ops, op);
    FrozenLiveSnoc(ops, op);
    if op.Put? && Fills(Unfrozen(ops), op.key, op.value) {
      FrozenGrows(crc, m', m.view.frozen, m.view.active[r.key := VersionOf(r)], FrozenLive(ops));
    }
  }

  lemma WriteFrozen(crc: Crc, m: Machine, ops: seq<Op>, op: Op)
    requires Good(crc, m) && m.Up? && m.next < U64_MAX && Mirrors(m, ops)
    requires ShapeOk(m, ops) && FrozenHolds(m.view.frozen, FrozenLive(ops))
    requires IsWrite(op) && OpFits(op)
    ensures var m' := Perform(crc, m, op);
            ShapeOk(m', ops + [op]) && FrozenHolds(m'.view.frozen, FrozenLive(ops + [op]))
  {
    var r := WalRecord(m.next, op.key, if op.Put? then Some(op.value) else None);
    WriteStep(crc, m, op.key, r.value);
    PerformMirrors(crc, m, ops, op);
    CommitFrozen(crc, m, Perform(crc, m, op), r, ops, op);
  }

  lemma FrozenLiveSnoc(ops: seq<Op>, op: Op)
    ensures FrozenLive(ops + [op]) ==
            if !IsWrite(op) then {}
            else if op.Put? && Fills(Unfrozen(ops), op.key, op.value) then FrozenLive(ops) + Model(ops + [op]).Keys
            else FrozenLive(ops)
  {
    assert (ops + [op])[..|ops|] == ops;
  }

  lemma RestartIs(crc: Crc, m: Machine, op: Op)
    requires Good(crc, m) && m.Up? && !IsWrite(op) && Perform(crc, m, op).Up?
    ensures var m' := Perform(crc, m, op);
            m'.log == m.log && m'.view.frozen == [] && m'.view.active == Fold(m.log)
  {
    if op.Kill? {
      assert Kept(m.log, 0) == m.log;
      CrashGood(crc, m, 0);
    } else {
      ReopenGood(crc, m);
    }
    CollapseLayers(Perform(crc, m, op).view);
  }

  /** A restart replays the whole log into one memtable. */
  lemma RestartFrozen(crc: Crc, m: Machine, ops: seq<Op>, op: Op)
    requires Good(crc, m) && m.Up? && ShapeOk(m, ops) && !IsWrite(op) && Perform(crc, m, op).Up?
    ensures var m' := Perform(crc, m, op);
            ShapeOk(m', ops + [op]) && FrozenHolds(m'.view.frozen, FrozenLive(ops + [op]))
  {
    RestartIs(crc, m, op);
    UnfrozenSnoc(ops, op);
    FrozenLiveSnoc(ops, op);
  }

  lemma PerformFrozen(crc: Crc, m: Machine, m': Machine, ops: seq<Op>, op: Op)
    requires Good(crc, m) && m.Up? && (IsWrite(op) ==> m.next < U64_MAX) && Mirrors(m, ops) && OpFits(op)
    requires ShapeOk(m, ops) && FrozenHolds(m.view.frozen, FrozenLive(ops))
    requires m' == Perform(crc, m, op) && m'.Up?
    ensures ShapeOk(m', ops + [op]) && FrozenHolds(m'.view.frozen, FrozenLive(ops + [op]))
  {
    if IsWrite(op) {
      WriteFrozen(crc, m, ops, op);
    } else {
      RestartFrozen(crc, m, ops, op);
    }
  }

  lemma FrozenAtStart(crc: Crc)
    ensures var m := Start(crc, [], [], 1);
            m.Up? && SameShape(m.view.active, map[]) && SameShape(Fold(m.log), map[]) && m.view.frozen == []
  {
    FreshStart(crc);
  }

  /** What the calls say of the memtables is so. */
  ghost predicate FrozenAs(m: Machine, ops: seq<Op>) {
    ShapeOk(m, ops) && FrozenHolds(m.view.frozen, FrozenLive(ops))
  }

  lemma SessionSnoc(crc: Crc, ops: seq<Op>, op: Op)
    requires Session(crc, ops + [op]).Up?
    ensures Session(crc, ops).Up? && Session(crc, ops + [op]) == Perform(crc, Session(crc, ops), op)
  {
    assert (ops + [op])[..|ops|] == ops;
  }

  lemma SessionStep(crc: Crc, ops: seq<Op>, op: Op, m: Machine, m': Machine)
    requires Writes(ops) + 1 < U64_MAX || (Writes(ops) < U64_MAX && !IsWrite(op))
    requires (forall i :: 0 <= i < |ops| ==> OpFits(ops[i])) && OpFits(op)
    requires m == Session(crc, ops) && m.Up? && FrozenAs(m, ops) && m' == Perform(crc, m, op) && m'.Up?
    ensures FrozenAs(m', ops + [op])
  {
    SessionMirrors(crc, ops);
    PerformFrozen(crc, m, m', ops, op);
  }

  /** After any calls, the keys with a live version in a frozen memtable are those
      that were live when a memtable was frozen since the last restart. */
  lemma {:induction false} SessionFrozen(crc: Crc, ops: seq<Op>)
    requires Writes(ops) < U64_MAX && forall i :: 0 <= i < |ops| ==> OpFits(ops[i])
    requires Session(crc, ops).Up?
    ensures FrozenAs(Session(crc, ops), ops)
  {
    if ops == [] {
      FrozenAtStart(crc);
    } else {
      var init, op := ops[..|ops| - 1], ops[|ops| - 1];
      assert init + [op] == ops;
      SessionSnoc(crc, init, op);
      ModelSnoc(init, op);
      SessionFrozen(crc, init);
      SessionStep(crc, init, op, Session(crc, init), Session(crc, ops));
    }
  }

  /** What a lookup returns, told from the calls alone: the value of every key they
      left; for any other key nothing, unless the key was live when a memtable was
      frozen since the last restart, and then some value of it. */
  lemma LookupOverCalls(crc: Crc, ops: seq<Op>, key: Bytes)
    requires Writes(ops) < U64_MAX && (forall i :: 0 <= i < |ops| ==> OpFits(ops[i])) && Session(crc, ops).Up?
    ensures var m := Session(crc, ops);
            var found := Get(m.view, key, Snapshot(m.next));
            if key in Model(ops) then found == Some(Model(ops)[key])
            else (found == None <==> NoLiveVersion(Layers(m.view), key))
                 && (NoLiveVersion(Layers(m.view), key) <==> key !in FrozenLive(ops))
  {
    var m := Session(crc, ops);
    SessionMirrors(crc, ops);
    SessionFrozen(crc, ops);
    PointLookup(crc, m, key);
    CollapseLayers(m.view);
    LiveFold(m.log);
    NoLiveSnoc(m.view.frozen, m.view.active, key);
  }

  // ---------- how much it takes to freeze ----------

  /** What the entries under some keys of a memtable account for. */
  function EntryBytes(layer: Layer, keys: seq<Bytes>): nat
    requires forall i :: 0 <= i < |keys| ==> keys[i] in layer
  {
    if keys == [] then 0 else
    var v := layer[keys[0]];
    |keys[0]| + (if v.Value? then |v.data| else 0) + 16 + EntryBytes(layer, keys[1..])
  }

  lemma {:induction false} EntryBytesOfRest(layer: Layer, rest: Layer, keys: seq<Bytes>)
    requires forall i :: 0 <= i < |keys| ==> keys[i] in layer && keys[i] in rest && layer[keys[i]] == rest[keys[i]]
    ensures EntryBytes(layer, keys) == EntryBytes(rest, keys)
  {
    if keys != [] {
      EntryBytesOfRest(layer, rest, keys[1..]);
    }
  }

  lemma KeysAreIn(layer: Layer)
    ensures forall i :: 0 <= i < |SortedKeys(layer.Keys)| ==> SortedKeys(layer.Keys)[i] in layer
  {
    SortedKeysMeaning(layer.Keys);
    var keys := SortedKeys(layer.Keys);
    forall i | 0 <= i < |keys| ensures keys[i] in layer {
      assert keys[i] in keys;
    }
  }

  /** All but the first key in order. */
  lemma KeysAfter(layer: Layer, k: Bytes)
    requires layer != map[] && k == Least(layer.Keys)
    ensures SortedKeys(layer.Keys) == [k] + SortedKeys((layer - {k}).Keys)
  {
    assert (layer - {k}).Keys == layer.Keys - {k};
  }

  lemma {:induction false} TotalOfEntries(layer: Layer)
    ensures forall i :: 0 <= i < |SortedKeys(layer.Keys)| ==> SortedKeys(layer.Keys)[i] in layer
    ensures TotalSize(layer) == EntryBytes(layer, SortedKeys(layer.Keys))
    decreases layer.Keys
  {
    KeysAreIn(layer);
    if layer != map[] {
      var k := Least(layer.Keys);
      var rest := layer - {k};
      TotalOfEntries(rest);
      KeysAfter(layer, k);
      var keys := SortedKeys(rest.Keys);
      assert ([k] + keys)[1..] == keys;
      EntryBytesOfRest(layer, rest, keys);
    }
  }

  /** What all entries of a memtable account for. */
  function MemtableBytes(layer: Layer): nat {
    TotalOfEntries(layer);
    EntryBytes(layer, SortedKeys(layer.Keys))
  }

  /** A put freezes the memtable it fills exactly when the entries then in it account for
      4 MiB or more, as keys, values and 16 bytes each, in a counter of 64 bits; the new
      entry is then in the frozen one. A delete never freezes. */
  lemma FreezesExactly(crc: Crc, view: EngineView, r: WalRecord, v: VersionedValue)
    requires r.key != [] && v == if r.value.Some? then Value(r.value.value, r.seqNo) else Tombstone(r.seqNo)
    ensures var now := view.active[r.key := v];
            var after := Commit(crc, view, r);
            if r.value.Some? && MemtableBytes(now) % 0x1_0000_0000_0000_0000 >= 4194304
            then after.active == map[] && after.frozen == view.frozen + [now]
            else after.active == now && after.frozen == view.frozen
  {
    TotalOfEntries(view.active[r.key := v]);
  }

  lemma OnlyKeySorted(key: Bytes)
    ensures SortedKeys({key}) == [key]
  {
    assert {key} - {Least({key})} == {};
  }

  lemma OneEntryBytes(key: Bytes, v: VersionedValue)
    ensures MemtableBytes(map[key := v]) == |key| + (if v.Value? then |v.data| else 0) + 16
  {
    var layer := map[key := v];
    assert layer.Keys == {key};
    OnlyKeySorted(key);
    assert [key][1..] == [];
    assert EntryBytes(layer, [key]) == |key| + (if v.Value? then |v.data| else 0) + 16;
  }

  /** Into an empty memtable, one put freezes exactly when its key and value have 16 bytes
      less than 4 MiB or more. */
  lemma OnePutFreezes(crc: Crc, view: EngineView, key: Bytes, value: Bytes, seqNo: u64)
    requires view.active == map[] && key != [] && |key| + |value| + 16 < 0x1_0000_0000_0000_0000
    ensures var after := Commit(crc, view, WalRecord(seqNo, key, Some(value)));
            && (after.frozen != view.frozen <==> |key| + |value| >= 4194288)
            && (after.active == map[] <==> |key| + |value| >= 4194288)
  {
    var now := view.active[key := Value(value, seqNo)];
    FreezesExactly(crc, view, WalRecord(seqNo, key, Some(value)), Value(value, seqNo));
    assert now == map[key := Value(value, seqNo)];
    OneEntryBytes(key, Value(value, seqNo));
  }

  /** All bytes that calls hand to the memtables. */
  function WrittenBytes(ops: seq<Op>): nat {
    if ops == [] then 0 else
    WrittenBytes(ops[..|ops| - 1]) +
    match ops[|ops| - 1]
    case Put(key, value) => |key| + |value| + 16
    case Delete(key) => |key| + 16
    case _ => 0
  }

  /** No memtable holds more than was written. */
  lemma {:induction false} HeldIsWritten(ops: seq<Op>)
    ensures TotalSize(Written(ops)) <= WrittenBytes(ops) && TotalSize(Unfrozen(ops)) <= WrittenBytes(ops)
  {
    if ops != [] {
      var init, op := ops[..|ops| - 1], ops[|ops| - 1];
      HeldIsWritten(init);
      if IsWrite(op) {
        HeldAfter(Written(init), op);
        HeldAfter(Unfrozen(init), op);
      }
    }
  }

  lemma HeldAfter(layer: Layer, op: Op)
    requires IsWrite(op)
    ensures TotalSize(WithWrite(layer, op)) <= TotalSize(layer) + |op.key| + (if op.Put? then |op.value| else 0) + 16
  {
    SizeUpdate(layer, op.key, if op.Put? then Value(op.value, 0) else Tombstone(0));
  }

  lemma FillsNothing(ops: seq<Op>, op: Op)
    requires IsWrite(op) && WrittenBytes(ops + [op]) < 4194304
    ensures op.Put? ==> !Fills(Unfrozen(ops), op.key, op.value)
  {
    assert (ops + [op])[..|ops|] == ops;
    HeldIsWritten(ops);
    HeldAfter(Unfrozen(ops), op);
  }

  lemma WrittenMore(ops: seq<Op>, op: Op)
    ensures WrittenBytes(ops) <= WrittenBytes(ops + [op]) && Writes(ops) <= Writes(ops + [op])
    ensures IsWrite(op) ==> Writes(ops) < Writes(ops + [op])
  {
    assert (ops + [op])[..|ops|] == ops;
  }

  lemma {:induction false} NothingFrozen(crc: Crc, ops: seq<Op>)
    requires Writes(ops) < U64_MAX && forall i :: 0 <= i < |ops| ==> OpFits(ops[i])
    requires Session(crc, ops).Up? && WrittenBytes(ops) < 4194304
    ensures Session(crc, ops).view.frozen == []
  {
    if ops == [] {
      FreshStart(crc);
    } else {
      var init, op := ops[..|ops| - 1], ops[|ops| - 1];
      assert ops == init + [op];
      assert Session(crc, init).Up? && Writes(init) < U64_MAX && WrittenBytes(init) < 4194304 by {
        SessionSnoc(crc, init, op);
        WrittenMore(init, op);
      }
      NothingFrozen(crc, init);
      NothingMore(crc, init, op);
    }
  }

  lemma NothingMore(crc: Crc, ops: seq<Op>, op: Op)
    requires Writes(ops + [op]) < U64_MAX && (forall i :: 0 <= i < |ops| ==> OpFits(ops[i])) && OpFits(op)
    requires Session(crc, ops).Up? && Session(crc, ops).view.frozen == []
    requires WrittenBytes(ops + [op]) < 4194304 && Session(crc, ops + [op]).Up?
    ensures Session(crc, ops + [op]).view.frozen == []
  {
    SessionSnoc(crc, ops, op);
    WrittenMore(ops, op);
    StepFreezesNothing(crc, Session(crc, ops), Session(crc, ops + [op]), ops, op);
  }

  lemma StepFreezesNothing(crc: Crc, m: Machine, m': Machine, ops: seq<Op>, op: Op)
    requires Writes(ops) < U64_MAX && (IsWrite(op) ==> Writes(ops) + 1 < U64_MAX)
    requires (forall i :: 0 <= i < |ops| ==> OpFits(ops[i])) && OpFits(op)
    requires m == Session(crc, ops) && m.Up? && m.view.frozen == [] && WrittenBytes(ops + [op]) < 4194304
    requires m' == Perform(crc, m, op) && m'.Up?
    ensures m'.view.frozen == []
  {
    SessionMirrors(crc, ops);
    if IsWrite(op) {
      SessionFrozen(crc, ops);
      WriteFreezesNothing(crc, m, ops, op);
    } else {
      RestartIs(crc, m, op);
    }
  }

  lemma WriteFreezesNothing(crc: Crc, m: Machine, ops: seq<Op>, op: Op)
    requires Good(crc, m) && m.Up? && m.pending == map[] && m.next < U64_MAX && IsWrite(op) && OpFits(op)
    requires SameShape(m.view.active, Unfrozen(ops)) && WrittenBytes(ops + [op]) < 4194304
    ensures Perform(crc, m, op).Up? && Perform(crc, m, op).view.frozen == m.view.frozen
  {
    var r := WalRecord(m.next, op.key, if op.Put? then Some(op.value) else None);
    WriteStep(crc, m, op.key, r.value);
    CommitShape(crc, m.view, r, Unfrozen(ops), op);
    FillsNothing(ops, op);
  }

  /** Calls that hand less than 4 MiB to the engine, all puts and deletes counted with keys,
      values and 16 bytes each, freeze nothing, and every lookup is that of the plain map. */
  lemma SmallRunsAreExact(crc: Crc, ops: seq<Op>, key: Bytes)
    requires Writes(ops) < U64_MAX && (forall i :: 0 <= i < |ops| ==> OpFits(ops[i])) && Session(crc, ops).Up?
    requires WrittenBytes(ops) < 4194304
    ensures var m := Session(crc, ops);
            m.view.frozen == [] && Get(m.view, key, Snapshot(m.next)) == Find(Model(ops), key)
  {
    NothingFrozen(crc, ops);
    SessionMirrors(crc, ops);
    PointLookup(crc, Session(crc, ops), key);
  }
}
