/** The in-memory write buffer (crates/memtable/src/entry.rs,
    crates/memtable/src/memtable.rs). */
module MemTable {
  import opened Wrappers
  import opened Bytes
  import opened Ordered

  const DEFAULT_SIZE_THRESHOLD := 4 * 1024 * 1024
  const ENTRY_OVERHEAD := 16

  datatype VersionedValue = Value(data: Bytes, seqNo: u64) | Tombstone(seqNo: u64) {
    /** The data of a live value that is visible at `readSeq`. */
    function ReadAt(readSeq: nat): Option<Bytes> {
      if Value? && seqNo <= readSeq then Some(data) else None
    }

    function DataLen(): nat {
      if Value? then |data| else 0
    }
  }

  datatype MemTableError = EmptyKey

  /** The ordered map inside a memtable; it holds one version per key. */
  type Layer = map<Bytes, VersionedValue>

  function LayerGet(layer: Layer, key: Bytes, readSeq: nat): Option<Bytes> {
    if key in layer then layer[key].ReadAt(readSeq) else None
  }

  // ---------- size accounting ----------

  function EntrySize(key: Bytes, v: VersionedValue): nat {
    |key| + v.DataLen() + ENTRY_OVERHEAD
  }

  /** What an entry under this key accounts for now. */
  function SizeUnder(layer: Layer, key: Bytes): nat {
    if key in layer then EntrySize(key, layer[key]) else 0
  }

  function TotalSize(layer: Layer): nat
    decreases layer.Keys
  {
    if layer == map[] then 0 else
    var k := Least(layer.Keys);
    EntrySize(k, layer[k]) + TotalSize(layer - {k})
  }

  lemma {:induction false} SizeWithout(layer: Layer, key: Bytes)
    requires key in layer
    ensures TotalSize(layer) == EntrySize(key, layer[key]) + TotalSize(layer - {key})
    decreases layer.Keys
  {
    var k := Least(layer.Keys);
    if k != key {
      SizeWithout(layer - {k}, key);
      LeastIs((layer - {key}).Keys, k);
      assert layer - {k} - {key} == layer - {key} - {k};
    }
  }

  /** Overwriting one key changes the total by the difference of the two entries' sizes. */
  lemma SizeUpdate(layer: Layer, key: Bytes, v: VersionedValue)
    ensures TotalSize(layer[key := v]) == TotalSize(layer) - SizeUnder(layer, key) + EntrySize(key, v)
    ensures SizeUnder(layer, key) <= TotalSize(layer)
  {
    SizeWithout(layer[key := v], key);
    assert layer[key := v] - {key} == layer - {key};
    if key in layer {
      SizeWithout(layer, key);
    } else {
      assert layer - {key} == layer;
    }
  }

  // ---------- the memtable ----------

  class MemTable {
    var entries: Layer
    /** A `usize` of 64 bits: adding and subtracting wrap around. */
    var sizeBytes: u64
    const threshold: nat

    /** The counter is the total size of the entries, in the counter's width. */
    ghost predicate Valid()
      reads this
    {
      sizeBytes == TotalSize(entries) % U64_SIZE && [] !in entries
    }

    constructor (threshold: nat)
      ensures Valid() && entries == map[] && sizeBytes == 0 && this.threshold == threshold
    {
      entries := map[];
      sizeBytes := 0;
      this.threshold := threshold;
    }

    method Put(key: Bytes, value: Bytes, seqNo: u64) returns (r: Result<(), MemTableError>)
      requires Valid()
      modifies this
      ensures Valid()
      ensures key == [] ==> r == Err(EmptyKey) && entries == old(entries)
      ensures key != [] ==> r == Ok(()) && entries == old(entries)[key := Value(value, seqNo)]
    {
      if key == [] {
        return Err(EmptyKey);
      }
      var added := |key| + |value| + ENTRY_OVERHEAD;
      Insert(key, Value(value, seqNo), added);
      r := Ok(());
    }

    method Delete(key: Bytes, seqNo: u64) returns (r: Result<(), MemTableError>)
      requires Valid()
      modifies this
      ensures Valid()
      ensures key == [] ==> r == Err(EmptyKey) && entries == old(entries)
      ensures key != [] ==> r == Ok(()) && entries == old(entries)[key := Tombstone(seqNo)]
    {
      if key == [] {
        return Err(EmptyKey);
      }
      Insert(key, Tombstone(seqNo), |key| + ENTRY_OVERHEAD);
      r := Ok(());
    }

    /** What put and delete share: replace the entry, then move the counter by
        what was added and what was there. The subtraction takes away no more
        than the entries accounted for before (SizeUpdate). */
    method Insert(key: Bytes, v: VersionedValue, added: nat)
      requires Valid() && key != [] && added == EntrySize(key, v)
      modifies this
      ensures Valid() && entries == old(entries)[key := v]
    {
      SizeUpdate(entries, key, v);
      var removed := if key in entries then |key| + entries[key].DataLen() + ENTRY_OVERHEAD else 0;
      ghost var before := TotalSize(entries);
      entries := entries[key := v];
      sizeBytes := (sizeBytes + added) % U64_SIZE;
      sizeBytes := (sizeBytes - removed) % U64_SIZE;
      WrappingSum(before, added, removed);
    }

    /** Some exactly for a live version that is no newer than the read, and then its data. */
    method Get(key: Bytes, readSeq: nat) returns (r: Option<Bytes>)
      ensures r.Some? <==> key in entries && entries[key].Value? && entries[key].seqNo <= readSeq
      ensures r.Some? ==> r.value == entries[key].data
    {
      r := if key in entries then entries[key].ReadAt(readSeq) else None;
    }

    predicate IsOverThreshold()
      reads this
    {
      sizeBytes >= threshold
    }
  }

  lemma WrappingSum(total: nat, added: nat, removed: nat)
    ensures ((total % U64_SIZE + added) % U64_SIZE - removed) % U64_SIZE == (total + added - removed) % U64_SIZE
  {
  }
}
