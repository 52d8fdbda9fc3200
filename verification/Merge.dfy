/** The k-way merge of compaction (crates/lsm/src/compaction.rs, lines 23-46 and
    110-146): a heap ordered by key, then newest first, that feeds the builder
    with the newest version of every key. */
module Merge {
  import opened Wrappers
  import opened Bytes
  import opened Levels
  import opened SsTableBuilder

  // ---------- what a merge is ----------

  /** Every version some input holds. */
  ghost predicate IsVersion(tables: seq<Table>, e: Entry) {
    exists i, j :: 0 <= i < |tables| && 0 <= j < |tables[i]| && tables[i][j] == e
  }

  /** No input holds a newer version of the same key. */
  ghost predicate IsNewest(tables: seq<Table>, e: Entry) {
    forall i, j :: 0 <= i < |tables| && 0 <= j < |tables[i]| && tables[i][j].key == e.key
      ==> tables[i][j].seqNo <= e.seqNo
  }

  /** Strictly ascending keys, each key of any input once, with a newest version of it. */
  ghost predicate IsMerge(tables: seq<Table>, out: Table) {
    && AscendingKeys(out)
    && (forall n {:trigger IsVersion(tables, out[n])} {:trigger IsNewest(tables, out[n])} :: 0 <= n < |out| ==>
          IsVersion(tables, out[n]) && IsNewest(tables, out[n]))
    && (forall i, j {:trigger HasKey(out, tables[i][j].key)} :: 0 <= i < |tables| && 0 <= j < |tables[i]| ==>
          HasKey(out, tables[i][j].key))
  }

  /** Two versions of one key never share a sequence number unless they are the same. */
  ghost predicate DistinctVersions(tables: seq<Table>) {
    forall d, e :: IsVersion(tables, d) && IsVersion(tables, e) && d.key == e.key && d.seqNo == e.seqNo ==> d == e
  }

  lemma MergeContains(tables: seq<Table>, a: Table, b: Table, e: Entry)
    requires DistinctVersions(tables) && IsMerge(tables, a) && IsMerge(tables, b)
    requires e in a
    ensures e in b
  {
    var n :| 0 <= n < |a| && a[n] == e;
    assert IsVersion(tables, a[n]) && IsNewest(tables, a[n]);
    var i, j :| 0 <= i < |tables| && 0 <= j < |tables[i]| && tables[i][j] == e;
    assert HasKey(b, tables[i][j].key);
    var m :| 0 <= m < |b| && b[m].key == e.key;
    assert IsVersion(tables, b[m]) && IsNewest(tables, b[m]);
    var k, l :| 0 <= k < |tables| && 0 <= l < |tables[k]| && tables[k][l] == b[m];
    assert tables[i][j].seqNo <= b[m].seqNo && tables[k][l].seqNo <= e.seqNo;
  }

  lemma {:induction false} SameElements(a: Table, b: Table)
    requires AscendingKeys(a) && AscendingKeys(b)
    requires forall e :: e in a <==> e in b
    ensures a == b
  {
    KeyOrder();
    if a == [] {
      if b != [] {
        FirstIn(b);
        assert false;
      }
    } else {
      FirstIn(a);
      var m :| 0 <= m < |b| && b[m] == a[0];
      FirstIn(b);
      var n :| 0 <= n < |a| && a[n] == b[0];
      FirstIsLeast(a, n);
      FirstIsLeast(b, m);
      KeyOnce(a, 0, n);
      forall e ensures e in a[1..] <==> e in b[1..] {
        InTail(a, e);
        InTail(b, e);
      }
      SameElements(a[1..], b[1..]);
      assert a == [a[0]] + a[1..] && b == [b[0]] + b[1..];
    }
  }

  lemma FirstIn(t: Table)
    requires t != []
    ensures t[0] in t
  {
  }

  lemma FirstIsLeast(t: Table, n: nat)
    requires AscendingKeys(t) && n < |t|
    ensures AtMost(t[0].key, t[n].key)
  {
    KeyOrder();
  }

  lemma InTail(t: Table, e: Entry)
    requires t != [] && AscendingKeys(t)
    ensures e in t[1..] <==> e in t && e != t[0]
  {
    LessIrreflexive(t[0].key);
    if e in t && e != t[0] {
      var i :| 0 <= i < |t| && t[i] == e;
      assert t[1..][i - 1] == e;
    }
    if e in t[1..] {
      var i :| 0 <= i < |t[1..]| && t[1..][i] == e;
      assert Less(t[0].key, t[i + 1].key);
    }
  }

  /** With distinct sequence numbers per key the merge is unique. */
  lemma MergeUnique(tables: seq<Table>, a: Table, b: Table)
    requires DistinctVersions(tables) && IsMerge(tables, a) && IsMerge(tables, b)
    ensures a == b
  {
    forall e ensures e in a <==> e in b {
      if e in a { MergeContains(tables, a, b, e); }
      if e in b { MergeContains(tables, b, a, e); }
    }
    SameElements(a, b);
  }

  // ---------- the heap ----------

  datatype HeapEntry = HeapEntry(entry: Entry, source: nat)

  /** `HeapEntry::cmp` is Less or Equal: by key, then the higher sequence number first. */
  predicate Ahead(a: Entry, b: Entry) {
    Less(a.key, b.key) || (a.key == b.key && a.seqNo >= b.seqNo)
  }

  lemma AheadIsTotal(a: Entry, b: Entry, c: Entry)
    ensures Ahead(a, b) || Ahead(b, a)
    ensures Ahead(a, b) && Ahead(b, c) ==> Ahead(a, c)
  {
    LessTotal(a.key, b.key);
    if Less(a.key, b.key) && Less(b.key, c.key) {
      LessTransitive(a.key, b.key, c.key);
    }
  }

  /** Popping takes away an entry that none is ahead of; which one, when several
      compare equal, is left open, as in Rust's `BinaryHeap`. */
  method PopMin(heap: seq<HeapEntry>) returns (at: nat)
    requires heap != []
    ensures at < |heap| && forall h :: 0 <= h < |heap| ==> Ahead(heap[at].entry, heap[h].entry)
  {
    at := 0;
    AheadIsTotal(heap[0].entry, heap[0].entry, heap[0].entry);
    for n := 1 to |heap|
      invariant at < n && forall h :: 0 <= h < n ==> Ahead(heap[at].entry, heap[h].entry)
    {
      if !Ahead(heap[at].entry, heap[n].entry) {
        forall h | 0 <= h < n + 1 ensures Ahead(heap[n].entry, heap[h].entry) {
          AheadIsTotal(heap[n].entry, heap[at].entry, heap[h].entry);
          AheadIsTotal(heap[at].entry, heap[n].entry, heap[h].entry);
          AheadIsTotal(heap[n].entry, heap[n].entry, heap[n].entry);
        }
        at := n;
      }
    }
  }

  // ---------- the invariant ----------

  ghost predicate Waiting(heap: seq<HeapEntry>, source: nat) {
    exists h :: 0 <= h < |heap| && heap[h].source == source
  }

  ghost predicate Positions(tables: seq<Table>, next: seq<nat>) {
    |next| == |tables| && forall i :: 0 <= i < |next| ==> next[i] <= |tables[i]|
  }

  /** The last entry pulled from its source. */
  ghost predicate LastPulled(tables: seq<Table>, next: seq<nat>, x: HeapEntry)
    requires Positions(tables, next)
  {
    x.source < |tables| && 1 <= next[x.source] && x.entry == tables[x.source][next[x.source] - 1]
  }

  /** Each source has its last pulled entry in the heap, or has run dry. */
  ghost predicate HeapOk(tables: seq<Table>, next: seq<nat>, heap: seq<HeapEntry>) {
    && Positions(tables, next)
    && (forall h :: 0 <= h < |heap| ==> LastPulled(tables, next, heap[h]))
    && (forall g, h :: 0 <= g < h < |heap| ==> heap[g].source != heap[h].source)
    && (forall i :: 0 <= i < |tables| && !Waiting(heap, i) ==> next[i] == |tables[i]|)
  }

  /** Out already holds the entry's key at least as new. */
  ghost predicate Covered(out: Table, e: Entry) {
    exists n :: 0 <= n < |out| && out[n].key == e.key && out[n].seqNo >= e.seqNo
  }

  /** Entry j of source i was popped. */
  ghost predicate Popped(next: seq<nat>, heap: seq<HeapEntry>, i: nat, j: nat)
    requires i < |next|
  {
    j < next[i] && (j == next[i] - 1 ==> !Waiting(heap, i))
  }

  ghost predicate OutOk(tables: seq<Table>, next: seq<nat>, heap: seq<HeapEntry>, out: Table)
    requires Positions(tables, next)
  {
    && AscendingKeys(out)
    && (forall n {:trigger IsVersion(tables, out[n])} :: 0 <= n < |out| ==> IsVersion(tables, out[n]))
    && (forall i, j {:trigger Covered(out, tables[i][j])} ::
          0 <= i < |tables| && 0 <= j < |tables[i]| && Popped(next, heap, i, j) ==> Covered(out, tables[i][j]))
    && (out != [] ==> forall h :: 0 <= h < |heap| ==> Ahead(out[|out| - 1], heap[h].entry))
  }

  /** When the heap is empty everything has been popped. */
  lemma AllCovered(tables: seq<Table>, next: seq<nat>, out: Table)
    requires HeapOk(tables, next, []) && OutOk(tables, next, [], out)
    ensures forall i, j :: 0 <= i < |tables| && 0 <= j < |tables[i]| ==> Covered(out, tables[i][j])
  {
    forall i, j | 0 <= i < |tables| && 0 <= j < |tables[i]| ensures Covered(out, tables[i][j]) {
      assert !Waiting([], i);
      assert Popped(next, [], i, j);
    }
  }

  /** Two entries of an ascending list with one key are one entry. */
  lemma KeyOnce(t: Table, m: nat, n: nat)
    requires AscendingKeys(t) && m < |t| && n < |t| && t[m].key == t[n].key
    ensures m == n
  {
    LessIrreflexive(t[m].key);
  }

  /** When the heap is empty the output is the merge of the inputs. */
  lemma DrainedIsMerge(tables: seq<Table>, next: seq<nat>, out: Table)
    requires HeapOk(tables, next, []) && OutOk(tables, next, [], out)
    ensures IsMerge(tables, out)
  {
    AllCovered(tables, next, out);
    forall n | 0 <= n < |out| ensures IsNewest(tables, out[n]) {
      forall i, j | 0 <= i < |tables| && 0 <= j < |tables[i]| && tables[i][j].key == out[n].key
        ensures tables[i][j].seqNo <= out[n].seqNo
      {
        var m :| 0 <= m < |out| && out[m].key == tables[i][j].key && out[m].seqNo >= tables[i][j].seqNo;
        KeyOnce(out, m, n);
      }
    }
    forall i, j | 0 <= i < |tables| && 0 <= j < |tables[i]| ensures HasKey(out, tables[i][j].key) {
      assert Covered(out, tables[i][j]);
    }
  }

  // ---------- one step ----------

  function Without(heap: seq<HeapEntry>, at: nat): seq<HeapEntry>
    requires at < |heap|
  {
    heap[..at] + heap[at + 1..]
  }

  /** The heap after popping entry `at` and pulling the next one of its source. */
  function Refilled(tables: seq<Table>, next: seq<nat>, heap: seq<HeapEntry>, at: nat): (seq<nat>, seq<HeapEntry>)
    requires at < |heap| && |next| == |tables| && heap[at].source < |tables|
  {
    var s := heap[at].source;
    if next[s] < |tables[s]|
    then (next[s := next[s] + 1], Without(heap, at) + [HeapEntry(tables[s][next[s]], s)])
    else (next, Without(heap, at))
  }

  /** Taking one entry out leaves the other sources waiting. */
  lemma WaitingWithout(heap: seq<HeapEntry>, at: nat, i: nat)
    requires at < |heap| && forall g, h :: 0 <= g < h < |heap| ==> heap[g].source != heap[h].source
    ensures Waiting(Without(heap, at), i) <==> i != heap[at].source && Waiting(heap, i)
  {
    var rest := Without(heap, at);
    if i != heap[at].source && Waiting(heap, i) {
      var h :| 0 <= h < |heap| && heap[h].source == i;
      assert rest[if h < at then h else h - 1].source == i;
    }
    if Waiting(rest, i) {
      var h :| 0 <= h < |rest| && rest[h].source == i;
      assert heap[if h < at then h else h + 1].source == i;
    }
  }

  lemma WaitingWith(heap: seq<HeapEntry>, x: HeapEntry, i: nat)
    ensures Waiting(heap + [x], i) <==> i == x.source || Waiting(heap, i)
  {
    var more := heap + [x];
    assert more[|heap|] == x;
    if Waiting(heap, i) {
      var h :| 0 <= h < |heap| && heap[h].source == i;
      assert more[h].source == i;
    }
  }

  /** What waits after the pop: the others, and the source again if it had more. */
  lemma WaitingAfter(tables: seq<Table>, next: seq<nat>, heap: seq<HeapEntry>, at: nat, i: nat)
    requires HeapOk(tables, next, heap) && at < |heap|
    ensures var s := heap[at].source;
            Waiting(Refilled(tables, next, heap, at).1, i) <==>
            if i == s then next[s] < |tables[s]| else Waiting(heap, i)
  {
    var s := heap[at].source;
    WaitingWithout(heap, at, i);
    if next[s] < |tables[s]| {
      WaitingWith(Without(heap, at), HeapEntry(tables[s][next[s]], s), i);
    }
  }

  /** The other entries are untouched; a pulled entry comes last. */
  lemma RefilledAt(tables: seq<Table>, next: seq<nat>, heap: seq<HeapEntry>, at: nat, h: nat)
    requires HeapOk(tables, next, heap) && at < |heap| && h < |Refilled(tables, next, heap, at).1|
    ensures var s, x := heap[at].source, Refilled(tables, next, heap, at).1[h];
            if h < |heap| - 1 then x == heap[if h < at then h else h + 1] && x.source != s
            else next[s] < |tables[s]| && x == HeapEntry(tables[s][next[s]], s)
  {
  }

  lemma RefilledOk(tables: seq<Table>, next: seq<nat>, heap: seq<HeapEntry>, at: nat)
    requires HeapOk(tables, next, heap) && at < |heap|
    ensures var (next', heap') := Refilled(tables, next, heap, at);
            HeapOk(tables, next', heap')
  {
    var (next', heap') := Refilled(tables, next, heap, at);
    assert Positions(tables, next');
    forall h | 0 <= h < |heap'| ensures LastPulled(tables, next', heap'[h]) {
      RefilledAt(tables, next, heap, at, h);
    }
    forall g, h | 0 <= g < h < |heap'| ensures heap'[g].source != heap'[h].source {
      RefilledAt(tables, next, heap, at, g);
      RefilledAt(tables, next, heap, at, h);
    }
    forall i | 0 <= i < |tables| && !Waiting(heap', i) ensures next'[i] == |tables[i]| {
      WaitingAfter(tables, next, heap, at, i);
    }
  }

  /** What the pop leaves behind is not ahead of what was popped: the others by
      choice, the source's next entry because its keys ascend. */
  lemma RestBehind(tables: seq<Table>, next: seq<nat>, heap: seq<HeapEntry>, at: nat, e: Entry)
    requires HeapOk(tables, next, heap) && at < |heap|
    requires forall i :: 0 <= i < |tables| ==> AscendingKeys(tables[i])
    requires forall h :: 0 <= h < |heap| ==> Ahead(heap[at].entry, heap[h].entry)
    requires Ahead(e, heap[at].entry)
    ensures var heap' := Refilled(tables, next, heap, at).1;
            forall h :: 0 <= h < |heap'| ==> Ahead(e, heap'[h].entry)
  {
    var heap' := Refilled(tables, next, heap, at).1;
    var popped := heap[at].entry;
    forall h | 0 <= h < |heap'| ensures Ahead(e, heap'[h].entry) {
      AheadIsTotal(e, popped, heap'[h].entry);
      if h < |heap| - 1 {
        assert heap'[h] == heap[if h < at then h else h + 1];
      } else {
        var s := heap[at].source;
        assert Less(tables[s][next[s] - 1].key, tables[s][next[s]].key);
      }
    }
  }

  /** Everything popped is covered once the popped entry itself is. */
  lemma PoppedCovered(tables: seq<Table>, next: seq<nat>, heap: seq<HeapEntry>, at: nat, out: Table, out': Table)
    requires HeapOk(tables, next, heap) && at < |heap| && OutOk(tables, next, heap, out)
    requires out <= out' && Covered(out', heap[at].entry)
    ensures var (next', heap') := Refilled(tables, next, heap, at);
            forall i, j :: 0 <= i < |tables| && 0 <= j < |tables[i]| && Popped(next', heap', i, j)
              ==> Covered(out', tables[i][j])
  {
    var (next', heap') := Refilled(tables, next, heap, at);
    var s := heap[at].source;
    forall i, j | 0 <= i < |tables| && 0 <= j < |tables[i]| && Popped(next', heap', i, j)
      ensures Covered(out', tables[i][j])
    {
      WaitingAfter(tables, next, heap, at, i);
      if i == s && j == next[s] - 1 {
        assert tables[i][j] == heap[at].entry;
      } else {
        assert Popped(next, heap, i, j);
        assert Covered(out, tables[i][j]);
        var n :| 0 <= n < |out| && out[n].key == tables[i][j].key && out[n].seqNo >= tables[i][j].seqNo;
        assert out'[n] == out[n];
      }
    }
  }

  /** A popped entry whose key was just written is an older version: skip it. */
  lemma SkipStep(tables: seq<Table>, next: seq<nat>, heap: seq<HeapEntry>, at: nat, out: Table)
    requires HeapOk(tables, next, heap) && at < |heap| && OutOk(tables, next, heap, out)
    requires forall i :: 0 <= i < |tables| ==> AscendingKeys(tables[i])
    requires forall h :: 0 <= h < |heap| ==> Ahead(heap[at].entry, heap[h].entry)
    requires out != [] && out[|out| - 1].key == heap[at].entry.key
    ensures var (next', heap') := Refilled(tables, next, heap, at);
            HeapOk(tables, next', heap') && OutOk(tables, next', heap', out)
  {
    RefilledOk(tables, next, heap, at);
    LessIrreflexive(heap[at].entry.key);
    assert Covered(out, heap[at].entry);
    PoppedCovered(tables, next, heap, at, out, out);
    RestBehind(tables, next, heap, at, out[|out| - 1]);
  }

  /** A popped entry with a new key is a newest version: write it. */
  lemma WriteStep(tables: seq<Table>, next: seq<nat>, heap: seq<HeapEntry>, at: nat, out: Table)
    requires HeapOk(tables, next, heap) && at < |heap| && OutOk(tables, next, heap, out)
    requires forall i :: 0 <= i < |tables| ==> AscendingKeys(tables[i])
    requires forall h :: 0 <= h < |heap| ==> Ahead(heap[at].entry, heap[h].entry)
    requires out == [] || out[|out| - 1].key != heap[at].entry.key
    ensures var (next', heap') := Refilled(tables, next, heap, at);
            HeapOk(tables, next', heap') && OutOk(tables, next', heap', out + [heap[at].entry])
  {
    var e, out' := heap[at].entry, out + [heap[at].entry];
    RefilledOk(tables, next, heap, at);
    AheadIsTotal(e, e, e);
    assert Covered(out', e) by {
      assert out'[|out|] == e;
    }
    PoppedCovered(tables, next, heap, at, out, out');
    RestBehind(tables, next, heap, at, e);
    AppendAscending(out, e);
    AppendVersion(tables, next, heap, at, out);
    assert out'[|out'| - 1] == e;
  }

  lemma AppendAscending(out: Table, e: Entry)
    requires AscendingKeys(out) && (out != [] ==> Less(out[|out| - 1].key, e.key))
    ensures AscendingKeys(out + [e])
  {
    forall i | 0 <= i < |out| ensures Less(out[i].key, e.key) {
      if i < |out| - 1 {
        LessTransitive(out[i].key, out[|out| - 1].key, e.key);
      }
    }
  }

  lemma AppendVersion(tables: seq<Table>, next: seq<nat>, heap: seq<HeapEntry>, at: nat, out: Table)
    requires HeapOk(tables, next, heap) && at < |heap|
    requires forall n :: 0 <= n < |out| ==> IsVersion(tables, out[n])
    ensures var out' := out + [heap[at].entry]; forall n :: 0 <= n < |out'| ==> IsVersion(tables, out'[n])
  {
    var s := heap[at].source;
    assert tables[s][next[s] - 1] == heap[at].entry;
    assert IsVersion(tables, heap[at].entry);
  }

  // ---------- termination ----------

  function Remaining(tables: seq<Table>, next: seq<nat>): nat
    requires Positions(tables, next)
  {
    if tables == [] then 0 else |tables[0]| - next[0] + Remaining(tables[1..], next[1..])
  }

  lemma {:induction false} RemainingStep(tables: seq<Table>, next: seq<nat>, s: nat)
    requires Positions(tables, next)
    requires s < |next| && next[s] < |tables[s]|
    ensures Remaining(tables, next[s := next[s] + 1]) == Remaining(tables, next) - 1
  {
    if s == 0 {
      assert next[0 := next[0] + 1][1..] == next[1..];
    } else {
      assert next[s := next[s] + 1][1..] == next[1..][s - 1 := next[s] + 1];
      RemainingStep(tables[1..], next[1..], s - 1);
    }
  }

  // ---------- the merge ----------

  /** The heap holds the first entry of every non-empty one of the first n sources. */
  ghost predicate Primed(tables: seq<Table>, next: seq<nat>, heap: seq<HeapEntry>, n: nat)
    requires n <= |tables|
  {
    && |next| == n && (forall i :: 0 <= i < n ==> next[i] == if tables[i] == [] then 0 else 1)
    && (forall h :: 0 <= h < |heap| ==>
          heap[h].source < n && tables[heap[h].source] != [] && heap[h].entry == tables[heap[h].source][0])
    && (forall g, h :: 0 <= g < h < |heap| ==> heap[g].source < heap[h].source)
    && (forall i :: 0 <= i < n && tables[i] != [] ==> Waiting(heap, i))
  }

  lemma PrimedOk(tables: seq<Table>, next: seq<nat>, heap: seq<HeapEntry>)
    requires Primed(tables, next, heap, |tables|)
    ensures HeapOk(tables, next, heap) && OutOk(tables, next, heap, [])
  {
  }

  lemma PrimedMore(tables: seq<Table>, next: seq<nat>, heap: seq<HeapEntry>, n: nat)
    requires n < |tables| && Primed(tables, next, heap, n) && tables[n] != []
    ensures Primed(tables, next + [1], heap + [HeapEntry(tables[n][0], n)], n + 1)
  {
    forall i | 0 <= i < n + 1 && tables[i] != [] ensures Waiting(heap + [HeapEntry(tables[n][0], n)], i) {
      WaitingWith(heap, HeapEntry(tables[n][0], n), i);
    }
  }

  /** The first entry of every source. */
  method Prime(tables: seq<Table>) returns (next: seq<nat>, heap: seq<HeapEntry>)
    ensures HeapOk(tables, next, heap) && OutOk(tables, next, heap, [])
  {
    next, heap := [], [];
    for i := 0 to |tables|
      invariant Primed(tables, next, heap, i)
    {
      if tables[i] == [] {
        next := next + [0];
      } else {
        PrimedMore(tables, next, heap, i);
        next := next + [1];
        heap := heap + [HeapEntry(tables[i][0], i)];
      }
    }
    PrimedOk(tables, next, heap);
  }

  /** Advances the source of the popped entry. */
  method Refill(tables: seq<Table>, next: seq<nat>, heap: seq<HeapEntry>, at: nat)
    returns (next': seq<nat>, heap': seq<HeapEntry>)
    requires HeapOk(tables, next, heap) && at < |heap|
    ensures (next', heap') == Refilled(tables, next, heap, at) && Positions(tables, next')
    ensures Remaining(tables, next') + |heap'| < Remaining(tables, next) + |heap|
  {
    var s := heap[at].source;
    assert LastPulled(tables, next, heap[at]);
    next', heap' := next, Without(heap, at);
    if next[s] < |tables[s]| {
      RemainingStep(tables, next, s);
      heap' := heap' + [HeapEntry(tables[s][next[s]], s)];
      next' := next[s := next[s] + 1];
    }
  }

  /** Tables as the builder writes them: a tombstone has no value bytes. */
  predicate Canonical(t: Table) {
    forall j :: 0 <= j < |t| && t[j].tombstone ==> t[j].value == []
  }

  /** An entry handed to the builder, unless its key was written last. */
  method Emit(builder: SsTableBuilder, entry: Entry, lastKey: Option<Bytes>)
    requires builder.Valid() && (entry.tombstone ==> entry.value == [])
    modifies builder, builder.currentBlock
    ensures builder.Valid() && (builder.currentBlock == old(builder.currentBlock) || fresh(builder.currentBlock))
    ensures builder.added == if lastKey == Some(entry.key) then old(builder.added) else old(builder.added) + [entry]
  {
    if lastKey == Some(entry.key) {
      return;
    }
    if entry.tombstone {
      builder.Add(entry.key, entry.seqNo, None);
    } else {
      builder.Add(entry.key, entry.seqNo, Some(entry.value));
    }
  }

  ghost predicate Inputs(tables: seq<Table>) {
    forall i :: 0 <= i < |tables| ==> AscendingKeys(tables[i]) && Canonical(tables[i])
  }

  /** The loop invariant: the heap, the output, and the key written last. */
  ghost predicate MergeOk(tables: seq<Table>, next: seq<nat>, heap: seq<HeapEntry>, out: Table,
                          lastKey: Option<Bytes>)
  {
    && HeapOk(tables, next, heap) && OutOk(tables, next, heap, out)
    && lastKey == (if out == [] then None else Some(out[|out| - 1].key))
  }

  /** One turn of the loop keeps the invariant, whichever least entry was popped. */
  lemma MergeStep(tables: seq<Table>, next: seq<nat>, heap: seq<HeapEntry>, at: nat, out: Table, lastKey: Option<Bytes>)
    requires Inputs(tables) && MergeOk(tables, next, heap, out, lastKey) && at < |heap|
    requires forall h :: 0 <= h < |heap| ==> Ahead(heap[at].entry, heap[h].entry)
    ensures var (next', heap') := Refilled(tables, next, heap, at);
            var e := heap[at].entry;
            && (e.tombstone ==> e.value == [])
            && MergeOk(tables, next', heap', if lastKey == Some(e.key) then out else out + [e], Some(e.key))
  {
    var e := heap[at].entry;
    assert LastPulled(tables, next, heap[at]) && Canonical(tables[heap[at].source]);
    if lastKey == Some(e.key) {
      SkipStep(tables, next, heap, at, out);
    } else {
      WriteStep(tables, next, heap, at, out);
      assert (out + [e])[|out|] == e;
    }
  }

  /** One turn of the loop: pop the least entry, advance its source, and write the entry
      unless its key was written last. */
  method MergeTurn(tables: seq<Table>, builder: SsTableBuilder, next: seq<nat>, heap: seq<HeapEntry>,
                   lastKey: Option<Bytes>)
    returns (next': seq<nat>, heap': seq<HeapEntry>, key: Bytes)
    requires Inputs(tables) && MergeOk(tables, next, heap, builder.added, lastKey) && heap != []
    requires builder.Valid()
    modifies builder, builder.currentBlock
    ensures builder.Valid() && (builder.currentBlock == old(builder.currentBlock) || fresh(builder.currentBlock))
    ensures MergeOk(tables, next', heap', builder.added, Some(key))
    ensures Remaining(tables, next') + |heap'| < Remaining(tables, next) + |heap|
  {
    var entry;
    entry, next', heap' := PopAndRefill(tables, next, heap, builder.added, lastKey);
    key := entry.key;
    Emit(builder, entry, lastKey);
  }

  /** The least entry, and the heap and positions after its source was advanced. */
  method PopAndRefill(tables: seq<Table>, next: seq<nat>, heap: seq<HeapEntry>, ghost out: Table,
                      ghost lastKey: Option<Bytes>)
    returns (entry: Entry, next': seq<nat>, heap': seq<HeapEntry>)
    requires Inputs(tables) && MergeOk(tables, next, heap, out, lastKey) && heap != []
    ensures entry.tombstone ==> entry.value == []
    ensures MergeOk(tables, next', heap', if lastKey == Some(entry.key) then out else out + [entry], Some(entry.key))
    ensures Remaining(tables, next') + |heap'| < Remaining(tables, next) + |heap|
  {
    var at := PopMin(heap);
    MergeStep(tables, next, heap, at, out, lastKey);
    entry := heap[at].entry;
    next', heap' := Refill(tables, next, heap, at);
  }

  /** The merge loop, for any number of ascending inputs: it ends, and the builder
      has received exactly the merge of the inputs, in ascending key order. */
  method MergeInto(tables: seq<Table>, builder: SsTableBuilder)
    requires builder.Valid() && builder.added == [] && Inputs(tables)
    modifies builder, builder.currentBlock
    ensures builder.Valid() && IsMerge(tables, builder.added)
    ensures builder.currentBlock == old(builder.currentBlock) || fresh(builder.currentBlock)
  {
    var next: seq<nat>, heap: seq<HeapEntry> := Prime(tables);
    var lastKey: Option<Bytes> := None;
    while heap != []
      invariant builder.Valid() && MergeOk(tables, next, heap, builder.added, lastKey)
      invariant builder.currentBlock == old(builder.currentBlock) || fresh(builder.currentBlock)
      decreases Remaining(tables, next) + |heap|
    {
      var key;
      next, heap, key := MergeTurn(tables, builder, next, heap, lastKey);
      lastKey := Some(key);
    }
    DrainedIsMerge(tables, next, builder.added);
  }
}
