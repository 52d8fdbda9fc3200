/** Whole runs of the engine: writers that take a sequence number first and the
    engine's lock later, crashes that lose the last records, and reopening.
    The tables stay empty, as they do in the engine on a fresh directory. */
module EngineRuns {
  import opened Wrappers
  import opened Bytes
  import opened MemTable
  import opened WalRecord
  import opened WalLog
  import opened Levels
  import opened Mvcc
  import opened EngineState

  /** `pending` holds what a writer has made up its record of but not yet logged;
      `log` is the history of the records now in the file. */
  datatype Machine =
    | Up(view: EngineView, next: u64, pending: map<nat, WalRecord>, log: seq<WalRecord>)
    | Down(error: EngineError)

  datatype Event =
    | Allocate(thread: nat, key: Bytes, value: Option<Bytes>) // take a number, build the record
    | Locked(thread: nat)                                     // append, apply, maybe freeze
    | Crash(lost: nat)                                        // a new process; the last `lost` records are gone
    | Reopen                                                  // the same process opens the directory again

  /** Opening a directory without a manifest, with the counter at `next`. */
  function Start(crc: Crc, file: Bytes, log: seq<WalRecord>, next: u64): Machine {
    match Open(crc, FRESH_MANIFEST, file, map[])
    case Err(e) => Down(e)
    case Ok(view) => Up(view, CounterAfterOpen(next, RecoverFile(crc, file, 0).value), map[], log)
  }

  /** The log without its last `lost` records. */
  function Kept(log: seq<WalRecord>, lost: nat): seq<WalRecord> {
    if lost <= |log| then log[..|log| - lost] else []
  }

  function FirstBytes(file: Bytes, size: nat): Bytes {
    if size <= |file| then file[..size] else file
  }

  function Next(crc: Crc, m: Machine, e: Event): Machine {
    if m.Down? then m else
    match e
    case Allocate(t, key, value) =>
      if t in m.pending then m
      else m.(next := Successor(m.next), pending := m.pending[t := WalRecord(m.next, key, value)])
    case Locked(t) =>
      if t !in m.pending then m
      else Up(Commit(crc, m.view, m.pending[t]), m.next, m.pending - {t}, m.log + [m.pending[t]])
    case Crash(lost) =>
      var kept := Kept(m.log, lost);
      Start(crc, FirstBytes(m.view.wal, |EncodeAll(crc, kept)|), kept, 1)
    case Reopen => Start(crc, m.view.wal, m.log, m.next)
  }

  function Run(crc: Crc, events: seq<Event>): Machine {
    if events == [] then Start(crc, [], [], 1)
    else Next(crc, Run(crc, events[..|events| - 1]), events[|events| - 1])
  }

  function Allocations(events: seq<Event>): nat {
    if events == [] then 0
    else Allocations(events[..|events| - 1]) + if events[|events| - 1].Allocate? then 1 else 0
  }

  // ---------- what the log means ----------

  /** The log folded in log order; a record with an empty key changes nothing. */
  function Fold(log: seq<WalRecord>): Layer {
    if log == [] then map[] else
    var r := log[|log| - 1];
    var before := Fold(log[..|log| - 1]);
    if r.key == [] then before else before[r.key := VersionOf(r)]
  }

  /** The plain map the log describes: puts insert, deletes remove. */
  function Plain(log: seq<WalRecord>): map<Bytes, Bytes> {
    if log == [] then map[] else
    var r := log[|log| - 1];
    var before := Plain(log[..|log| - 1]);
    if r.key == [] then before
    else if r.value.Some? then before[r.key := r.value.value]
    else before - {r.key}
  }

  /** The keys whose version is a value, with that value. */
  function Live(layer: Layer): map<Bytes, Bytes> {
    map k | k in layer && layer[k].Value? :: layer[k].data
  }

  function Matching(m: map<Bytes, Bytes>, prefix: Bytes): map<Bytes, Bytes> {
    map k | k in m && prefix <= k :: m[k]
  }

  lemma {:induction false} LiveFold(log: seq<WalRecord>)
    ensures Live(Fold(log)) == Plain(log)
  {
    if log != [] {
      LiveFold(log[..|log| - 1]);
    }
  }

  predicate NoEmptyKey(log: seq<WalRecord>) {
    forall i :: 0 <= i < |log| ==> log[i].key != []
  }

  /** Layers from oldest to newest seen as one: newer layers replace older ones. */
  function Collapse(layers: seq<Layer>): Layer {
    if layers == [] then map[] else Collapse(layers[..|layers| - 1]) + layers[|layers| - 1]
  }

  function Layers(view: EngineView): seq<Layer> {
    view.frozen + [view.active]
  }

  lemma CollapseLayers(view: EngineView)
    ensures Collapse(Layers(view)) == Collapse(view.frozen) + view.active
  {
    assert Layers(view)[..|view.frozen|] == view.frozen;
  }

  // ---------- recovery ----------

  function MaxSeq(log: seq<WalRecord>): u64 {
    if log == [] then 0 else Max(MaxSeq(log[..|log| - 1]), log[|log| - 1].seqNo)
  }

  lemma {:induction false} RecoverSnoc(rs: seq<WalRecord>, r: WalRecord, flushedSeq: u64, sofar: Recovered)
    ensures Recover(rs + [r], flushedSeq, sofar) ==
            match Recover(rs, flushedSeq, sofar) case Err(e) => Err(e) case Ok(x) => Recover([r], flushedSeq, x)
  {
    if rs == [] {
      assert [] + [r] == [r];
    } else {
      assert (rs + [r])[1..] == rs[1..] + [r];
      var seen := sofar.(maxSeq := Max(sofar.maxSeq, rs[0].seqNo));
      RecoverSnoc(rs[1..], r, flushedSeq, seen);
      RecoverSnoc(rs[1..], r, flushedSeq, seen.(layer := seen.layer[rs[0].key := VersionOf(rs[0])]));
    }
  }

  /** Replaying a log rebuilds its fold; an empty key anywhere makes replay fail. */
  lemma {:induction false} RecoverFold(log: seq<WalRecord>)
    requires forall i :: 0 <= i < |log| ==> log[i].seqNo > 0
    ensures Recover(log, 0, Recovered(map[], 0)) ==
            if NoEmptyKey(log) then Ok(Recovered(Fold(log), MaxSeq(log))) else Err(MemTableFailure(EmptyKey))
  {
    if log != [] {
      var init, r := log[..|log| - 1], log[|log| - 1];
      RecoverFold(init);
      RecoverSnoc(init, r, 0, Recovered(map[], 0));
      assert log == init + [r];
      assert NoEmptyKey(log) <==> NoEmptyKey(init) && r.key != [];
    }
  }

  lemma {:induction false} MaxSeqBound(log: seq<WalRecord>, next: u64)
    requires next > 0 && forall i :: 0 <= i < |log| ==> log[i].seqNo < next
    ensures MaxSeq(log) < next
    ensures forall i :: 0 <= i < |log| ==> log[i].seqNo <= MaxSeq(log)
  {
    if log != [] {
      MaxSeqBound(log[..|log| - 1], next);
    }
  }

  /** What the log file of a good machine recovers to. */
  lemma RecoverLog(crc: Crc, log: seq<WalRecord>)
    requires AllFit(log) && forall i :: 0 <= i < |log| ==> log[i].seqNo > 0
    ensures RecoverFile(crc, EncodeAll(crc, log), 0) ==
            if NoEmptyKey(log) then Ok(Recovered(Fold(log), MaxSeq(log))) else Err(MemTableFailure(EmptyKey))
  {
    ReplayEncodeAll(crc, log);
    RecoverFold(log);
  }

  // ---------- the invariant ----------

  ghost predicate DistinctSeqs(log: seq<WalRecord>) {
    forall i, j :: 0 <= i < j < |log| ==> log[i].seqNo != log[j].seqNo
  }

  ghost predicate SeqsBelow(log: seq<WalRecord>, next: u64) {
    forall i :: 0 <= i < |log| ==> 0 < log[i].seqNo < next
  }

  /** Logged and pending numbers are distinct, positive and below the counter. */
  ghost predicate NumbersOk(pending: map<nat, WalRecord>, log: seq<WalRecord>, next: u64) {
    && next > 0 && DistinctSeqs(log) && SeqsBelow(log, next)
    && (forall t :: t in pending ==> 0 < pending[t].seqNo < next)
    && (forall t, u :: t in pending && u in pending && t != u ==> pending[t].seqNo != pending[u].seqNo)
    && (forall t, i :: t in pending && 0 <= i < |log| ==> pending[t].seqNo != log[i].seqNo)
  }

  lemma NumbersAllocate(pending: map<nat, WalRecord>, log: seq<WalRecord>, next: u64, t: nat, r: WalRecord)
    requires NumbersOk(pending, log, next) && next < U64_MAX && t !in pending && r.seqNo == next
    ensures NumbersOk(pending[t := r], log, next + 1)
  {
  }

  lemma NumbersLocked(pending: map<nat, WalRecord>, log: seq<WalRecord>, next: u64, t: nat)
    requires NumbersOk(pending, log, next) && t in pending
    ensures NumbersOk(pending - {t}, log + [pending[t]], next)
  {
    var log' := log + [pending[t]];
    assert forall i :: 0 <= i < |log'| ==> log'[i] == if i < |log| then log[i] else pending[t];
  }

  ghost predicate LayersBelow(layers: seq<Layer>, next: u64) {
    forall i, k :: 0 <= i < |layers| && k in layers[i] ==> layers[i][k].seqNo < next
  }

  const NO_TABLES := OpenLevels(FRESH_MANIFEST.levels, map[])

  ghost predicate FileOk(crc: Crc, view: EngineView, log: seq<WalRecord>) {
    && AllFit(log) && view.wal == EncodeAll(crc, log)
    && view.manifest == FRESH_MANIFEST && view.tables == NO_TABLES
  }

  ghost predicate LayersOk(view: EngineView, log: seq<WalRecord>, next: u64) {
    Collapse(Layers(view)) == Fold(log) && LayersBelow(Layers(view), next)
  }

  ghost predicate Good(crc: Crc, m: Machine) {
    m.Up? ==>
      && FileOk(crc, m.view, m.log) && LayersOk(m.view, m.log, m.next)
      && NumbersOk(m.pending, m.log, m.next)
      && forall t :: t in m.pending ==> Fits(m.pending[t])
  }

  lemma {:induction false} FoldBelow(log: seq<WalRecord>, next: u64)
    requires SeqsBelow(log, next)
    ensures forall k :: k in Fold(log) ==> Fold(log)[k].seqNo < next
  {
    if log != [] {
      FoldBelow(log[..|log| - 1], next);
    }
  }

  /** What opening the file of a log gives. */
  lemma StartIs(crc: Crc, log: seq<WalRecord>, start: u64)
    requires AllFit(log) && forall i :: 0 <= i < |log| ==> log[i].seqNo > 0
    ensures Start(crc, EncodeAll(crc, log), log, start) ==
            if NoEmptyKey(log)
            then Up(EngineView(Fold(log), [], EncodeAll(crc, log), NO_TABLES, FRESH_MANIFEST),
                    Max(start, SaturatingAdd(MaxSeq(log), 1)), map[], log)
            else Down(MemTableFailure(EmptyKey))
  {
    RecoverLog(crc, log);
  }

  /** A memtable that holds the folded log, with nothing frozen. */
  lemma FoldedLayer(view: EngineView, log: seq<WalRecord>, next: u64)
    requires view.active == Fold(log) && view.frozen == [] && SeqsBelow(log, next)
    ensures LayersOk(view, log, next)
  {
    CollapseLayers(view);
    FoldBelow(log, next);
  }

  /** Opening the file of a log: it works exactly when no record has an empty
      key, and then gives a good machine whose counter lies above every logged
      number but not above what the old counter was. */
  lemma StartGood(crc: Crc, log: seq<WalRecord>, start: u64, next: u64)
    requires AllFit(log) && DistinctSeqs(log) && SeqsBelow(log, next)
    requires 0 < start <= next
    ensures var m := Start(crc, EncodeAll(crc, log), log, start);
            && Good(crc, m) && (m.Up? <==> NoEmptyKey(log))
            && (m.Up? ==> m.log == log && m.pending == map[] && m.view.frozen == [] && start <= m.next <= next)
  {
    StartIs(crc, log, start);
    if NoEmptyKey(log) {
      MaxSeqBound(log, next);
      var view := EngineView(Fold(log), [], EncodeAll(crc, log), NO_TABLES, FRESH_MANIFEST);
      FoldedLayer(view, log, Max(start, SaturatingAdd(MaxSeq(log), 1)));
    }
  }

  lemma AllocateGood(crc: Crc, m: Machine, t: nat, key: Bytes, value: Option<Bytes>)
    requires Good(crc, m) && m.Up? && m.next < U64_MAX
    requires Fits(WalRecord(m.next, key, value))
    ensures var m' := Next(crc, m, Allocate(t, key, value));
            Good(crc, m') && m'.Up? && m'.view == m.view && m'.log == m.log && m'.next <= m.next + 1
  {
    if t !in m.pending {
      NumbersAllocate(m.pending, m.log, m.next, t, WalRecord(m.next, key, value));
      LayersBelowMore(Layers(m.view), m.next);
    }
  }

  lemma LayersBelowMore(layers: seq<Layer>, next: u64)
    requires LayersBelow(layers, next) && next < U64_MAX
    ensures LayersBelow(layers, next + 1)
  {
  }

  lemma FreezeCollapses(view: EngineView)
    ensures Collapse(Layers(MaybeFreeze(view))) == Collapse(Layers(view))
  {
    var after := MaybeFreeze(view);
    CollapseLayers(view);
    CollapseLayers(after);
    if after != view {
      assert after.frozen == Layers(view);
    }
  }

  lemma CommitCollapses(crc: Crc, view: EngineView, r: WalRecord)
    ensures Collapse(Layers(Commit(crc, view, r))) ==
            if r.key == [] then Collapse(Layers(view)) else Collapse(Layers(view))[r.key := VersionOf(r)]
  {
    var logged := view.(wal := view.wal + Encode(crc, r));
    CollapseLayers(view);
    if r.key != [] {
      var applied := logged.(active := view.active[r.key := VersionOf(r)]);
      CollapseLayers(applied);
      FreezeCollapses(applied);
      OverwriteNewest(Collapse(view.frozen), view.active, r.key, VersionOf(r));
    }
  }

  lemma OverwriteNewest(older: Layer, newest: Layer, key: Bytes, v: VersionedValue)
    ensures older + newest[key := v] == (older + newest)[key := v]
  {
  }

  lemma CommitBelow(crc: Crc, view: EngineView, r: WalRecord, next: u64)
    requires LayersBelow(Layers(view), next) && r.seqNo < next
    ensures LayersBelow(Layers(Commit(crc, view, r)), next)
  {
    var after := Commit(crc, view, r);
    forall i, k | 0 <= i < |Layers(after)| && k in Layers(after)[i]
      ensures Layers(after)[i][k].seqNo < next
    {
      if i < |view.frozen| {
        assert Layers(after)[i] == Layers(view)[i];
      } else {
        assert Layers(view)[|view.frozen|] == view.active;
      }
    }
  }

  lemma LockedGood(crc: Crc, m: Machine, t: nat)
    requires Good(crc, m) && m.Up? && t in m.pending
    ensures var m' := Next(crc, m, Locked(t));
            Good(crc, m') && m'.Up? && m'.next == m.next && m'.log == m.log + [m.pending[t]]
  {
    var r := m.pending[t];
    var log' := m.log + [r];
    NumbersLocked(m.pending, m.log, m.next, t);
    assert LayersOk(Commit(crc, m.view, r), log', m.next) by {
      CommitCollapses(crc, m.view, r);
      CommitBelow(crc, m.view, r, m.next);
      assert log'[..|m.log|] == m.log;
    }
    assert FileOk(crc, Commit(crc, m.view, r), log') by {
      CommitFile(crc, m.view, m.log, r);
    }
  }

  lemma CommitFile(crc: Crc, view: EngineView, log: seq<WalRecord>, r: WalRecord)
    requires FileOk(crc, view, log) && Fits(r)
    ensures FileOk(crc, Commit(crc, view, r), log + [r])
  {
    assert view.wal + Encode(crc, r) == EncodeAll(crc, log + [r]) by {
      EncodeAllAppend(crc, log, [r]);
      EncodeAllOne(crc, r);
    }
  }

  /** What is kept of the file when the last records are lost. */
  lemma KeptFile(crc: Crc, log: seq<WalRecord>, lost: nat)
    ensures FirstBytes(EncodeAll(crc, log), |EncodeAll(crc, Kept(log, lost))|) == EncodeAll(crc, Kept(log, lost))
  {
    var kept := Kept(log, lost);
    var gone := log[|kept|..];
    assert log == kept + gone;
    EncodeAllAppend(crc, kept, gone);
    FirstOfTwo(EncodeAll(crc, kept), EncodeAll(crc, gone));
  }

  lemma FirstOfTwo(a: Bytes, b: Bytes)
    ensures FirstBytes(a + b, |a|) == a
  {
  }

  lemma CrashGood(crc: Crc, m: Machine, lost: nat)
    requires Good(crc, m) && m.Up?
    ensures var m' := Next(crc, m, Crash(lost));
            && Good(crc, m') && (m'.Up? <==> NoEmptyKey(Kept(m.log, lost)))
            && (m'.Up? ==> m'.log == Kept(m.log, lost) && m'.pending == map[] && m'.view.frozen == [] &&
                           m'.next <= m.next)
  {
    var kept := Kept(m.log, lost);
    assert Next(crc, m, Crash(lost)) == Start(crc, EncodeAll(crc, kept), kept, 1) by {
      KeptFile(crc, m.log, lost);
    }
    assert AllFit(kept) && DistinctSeqs(kept) && SeqsBelow(kept, m.next);
    StartGood(crc, kept, 1, m.next);
  }

  lemma ReopenGood(crc: Crc, m: Machine)
    requires Good(crc, m) && m.Up?
    ensures var m' := Next(crc, m, Reopen);
            && Good(crc, m') && (m'.Up? <==> NoEmptyKey(m.log))
            && (m'.Up? ==> m'.log == m.log && m'.pending == map[] && m'.view.frozen == [] && m'.next == m.next)
  {
    assert Next(crc, m, Reopen) == Start(crc, EncodeAll(crc, m.log), m.log, m.next);
    StartGood(crc, m.log, m.next, m.next);
  }

  predicate EventFits(e: Event) {
    e.Allocate? ==> Fits(WalRecord(0, e.key, e.value))
  }

  /** Every state that any interleaving of writers, crashes and reopenings reaches
      is good: the collapsed layers are the fold of the log in log order, logged
      and pending numbers are distinct and below the counter, and the file is the
      encoding of the log. */
  lemma {:induction false} EveryRunIsGood(crc: Crc, events: seq<Event>)
    requires Allocations(events) < U64_MAX && forall i :: 0 <= i < |events| ==> EventFits(events[i])
    ensures Good(crc, Run(crc, events))
    ensures Run(crc, events).Up? ==> Run(crc, events).next <= 1 + Allocations(events)
  {
    if events == [] {
      StartGood(crc, [], 1, 1);
    } else {
      var init, e := events[..|events| - 1], events[|events| - 1];
      EveryRunIsGood(crc, init);
      var m := Run(crc, init);
      if m.Up? {
        match e
        case Allocate(t, key, value) => AllocateGood(crc, m, t, key, value);
        case Locked(t) => if t in m.pending { LockedGood(crc, m, t); }
        case Crash(lost) => CrashGood(crc, m, lost);
        case Reopen => ReopenGood(crc, m);
      }
    }
  }
}
