/** Which part of the log each memtable holds: the log is cut where memtables were frozen
    (crates/lsm/src/engine.rs, lines 83-100 and 210-216), and what the records up to a
    number leave. */
module LogParts {
  import opened Bytes
  import opened Sequences
  import opened MemTable
  import opened WalRecord
  import opened WalLog
  import opened EngineState
  import opened EngineRuns

  // ---------- the records up to a number ----------

  /** The logged records with at most this number. */
  function Upto(log: seq<WalRecord>, readSeq: nat): seq<WalRecord> {
    if log == [] then [] else
    var n := |log| - 1;
    Upto(log[..n], readSeq) + if log[n].seqNo <= readSeq then [log[n]] else []
  }

  lemma FoldSnoc(log: seq<WalRecord>, r: WalRecord)
    ensures Fold(log + [r]) == if r.key == [] then Fold(log) else Fold(log)[r.key := VersionOf(r)]
  {
    assert (log + [r])[..|log|] == log;
  }

  /** The last version of a key is the snapshot's when it is old enough. */
  lemma {:induction false} LastVersion(log: seq<WalRecord>, readSeq: nat, key: Bytes)
    ensures key in Fold(Upto(log, readSeq)) ==> key in Fold(log)
    ensures key in Fold(log) && Fold(log)[key].seqNo <= readSeq ==>
              key in Fold(Upto(log, readSeq)) && Fold(Upto(log, readSeq))[key] == Fold(log)[key]
  {
    if log != [] {
      var n := |log| - 1;
      LastVersion(log[..n], readSeq, key);
      FoldSnoc(Upto(log[..n], readSeq), log[n]);
      assert Upto(log[..n], readSeq) + [] == Upto(log[..n], readSeq);
    }
  }

  // ---------- one part per memtable ----------

  /** The log in parts, the layers from the oldest to the active one their folds. */
  ghost predicate Parted(view: EngineView, log: seq<WalRecord>, parts: seq<seq<WalRecord>>) {
    && Flatten(parts) == log && |parts| == |view.frozen| + 1
    && (forall i :: 0 <= i < |view.frozen| ==> view.frozen[i] == Fold(parts[i]))
    && view.active == Fold(parts[|view.frozen|])
  }

  /** Opening puts the whole log into one memtable. */
  lemma OnePart(view: EngineView, log: seq<WalRecord>)
    requires view.frozen == [] && view.active == Fold(log)
    ensures Parted(view, log, [log])
  {
    assert Flatten([log]) == log + Flatten([]) == log;
  }

  /** A locked write goes to the last part, and behind it a new one begins if it freezes. */
  lemma CommitParts(crc: Crc, view: EngineView, log: seq<WalRecord>, r: WalRecord, parts: seq<seq<WalRecord>>)
    returns (more: seq<seq<WalRecord>>)
    requires Parted(view, log, parts)
    ensures Parted(Commit(crc, view, r), log + [r], more)
  {
    var n, after := |view.frozen|, Commit(crc, view, r);
    var longer := parts[..n] + [parts[n] + [r]];
    FoldSnoc(parts[n], r);
    LongerPart(parts, log, r);
    if |after.frozen| > n {
      more := longer + [[]];
      FlattenSnoc(longer, []);
      assert Flatten(longer) + [] == Flatten(longer);
      assert after.frozen == view.frozen + [Fold(longer[n])] && after.active == Fold([]);
    } else {
      more := longer;
    }
  }

  lemma LongerPart(parts: seq<seq<WalRecord>>, log: seq<WalRecord>, r: WalRecord)
    requires parts != [] && Flatten(parts) == log
    ensures var n := |parts| - 1;
            Flatten(parts[..n] + [parts[n] + [r]]) == log + [r]
  {
    var n := |parts| - 1;
    FlattenSnoc(parts[..n], parts[n]);
    FlattenSnoc(parts[..n], parts[n] + [r]);
    assert parts[..n] + [parts[n]] == parts;
    Assoc(Flatten(parts[..n]), parts[n], [r]);
  }

  lemma StartParts(crc: Crc, log: seq<WalRecord>, start: u64, m: Machine) returns (parts: seq<seq<WalRecord>>)
    requires AllFit(log) && forall i :: 0 <= i < |log| ==> log[i].seqNo > 0
    requires m == Start(crc, EncodeAll(crc, log), log, start)
    ensures m.Up? ==> Parted(m.view, m.log, parts)
  {
    StartIs(crc, log, start);
    parts := [log];
    if m.Up? {
      OnePart(m.view, log);
    }
  }

  lemma NextParts(crc: Crc, m: Machine, e: Event, parts: seq<seq<WalRecord>>) returns (more: seq<seq<WalRecord>>)
    requires Good(crc, m) && m.Up? && Parted(m.view, m.log, parts)
    ensures Next(crc, m, e).Up? ==> Parted(Next(crc, m, e).view, Next(crc, m, e).log, more)
  {
    more := parts;
    match e
    case Allocate(_, _, _) =>
    case Locked(t) =>
      if t in m.pending {
        more := CommitParts(crc, m.view, m.log, m.pending[t], parts);
      }
    case Crash(lost) =>
      KeptFile(crc, m.log, lost);
      more := StartParts(crc, Kept(m.log, lost), 1, Next(crc, m, e));
    case Reopen =>
      more := StartParts(crc, m.log, m.next, Next(crc, m, e));
  }

  /** In every state of every run the memtables hold the log, each one part of it. */
  lemma {:induction false} RunParts(crc: Crc, events: seq<Event>) returns (parts: seq<seq<WalRecord>>)
    requires Allocations(events) < U64_MAX && forall i :: 0 <= i < |events| ==> EventFits(events[i])
    ensures Run(crc, events).Up? ==> Parted(Run(crc, events).view, Run(crc, events).log, parts)
  {
    if events == [] {
      parts := StartParts(crc, [], 1, Run(crc, events));
    } else {
      var init := events[..|events| - 1];
      EveryRunIsGood(crc, init);
      parts := RunParts(crc, init);
      if Run(crc, init).Up? {
        parts := NextParts(crc, Run(crc, init), events[|events| - 1], parts);
      }
    }
  }

  // ---------- where the snapshot's version of a key is ----------

  /** What the records up to a number leave. */
  function Due(log: seq<WalRecord>, readSeq: nat): Layer {
    Fold(Upto(log, readSeq))
  }

  lemma {:induction false} UptoAppend(a: seq<WalRecord>, b: seq<WalRecord>, readSeq: nat)
    ensures Upto(a + b, readSeq) == Upto(a, readSeq) + Upto(b, readSeq)
  {
    if b == [] {
      assert a + b == a;
    } else {
      var n := |b| - 1;
      assert (a + b)[..|a + b| - 1] == a + b[..n];
      UptoAppend(a, b[..n], readSeq);
      Assoc(Upto(a, readSeq), Upto(b[..n], readSeq), if b[n].seqNo <= readSeq then [b[n]] else []);
    }
  }

  lemma {:induction false} FoldAppend(a: seq<WalRecord>, b: seq<WalRecord>)
    ensures Fold(a + b) == Fold(a) + Fold(b)
  {
    if b == [] {
      assert a + b == a;
    } else {
      var n := |b| - 1;
      assert (a + b)[..|a + b| - 1] == a + b[..n];
      FoldAppend(a, b[..n]);
    }
  }

  /** The last part with a record of the key up to the number; -1 if there is none. */
  function LastPart(parts: seq<seq<WalRecord>>, key: Bytes, readSeq: nat): (n: int)
    ensures -1 <= n < |parts|
    ensures n >= 0 ==> key in Due(parts[n], readSeq)
    ensures forall i :: n < i < |parts| ==> key !in Due(parts[i], readSeq)
  {
    if parts == [] then -1
    else if key in Due(parts[|parts| - 1], readSeq) then |parts| - 1
    else LastPart(parts[..|parts| - 1], key, readSeq)
  }

  /** It is that part that says what the snapshot should show of the key. */
  lemma {:induction false} DueInParts(parts: seq<seq<WalRecord>>, key: Bytes, readSeq: nat)
    ensures var n, due := LastPart(parts, key, readSeq), Due(Flatten(parts), readSeq);
            && (n < 0 <==> key !in due)
            && (n >= 0 ==> due[key] == Due(parts[n], readSeq)[key])
  {
    if parts != [] {
      var init, last := parts[..|parts| - 1], parts[|parts| - 1];
      DueInParts(init, key, readSeq);
      assert init + [last] == parts;
      FlattenSnoc(init, last);
      UptoAppend(Flatten(init), last, readSeq);
      FoldAppend(Upto(Flatten(init), readSeq), Upto(last, readSeq));
    }
  }
}
