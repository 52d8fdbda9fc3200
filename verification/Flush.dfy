/** Flushing a frozen memtable to a table file (crates/lsm/src/flush.rs), and
    what the file has to have room for. */
module Flush {
  import opened Wrappers
  import opened Bytes
  import opened Sequences
  import opened Ordered
  import opened MemTable
  import opened Levels
  import opened Block
  import opened SsTableBuilder
  import opened SsTableReader
  import opened SsTableTheorems

  // ---------- which entry lists a file has room for ----------

  /** What an entry adds to the index if its block ends with it. */
  function IndexCeiling(es: Table): nat {
    if es == [] then 0 else 14 + |es[0].key| + IndexCeiling(es[1..])
  }

  /** Entry lists whose keys, values, blocks, index and filter stay within the
      u16, u32 and u64 length fields, wherever the blocks are cut. */
  ghost predicate TableFits(es: Table, image: FilterImage) {
    && (forall i :: 0 <= i < |es| ==> |es[i].key| < U16_SIZE && ENTRY_HEADER + |es[i].key| + |es[i].value| < U32_SIZE)
    && IndexCeiling(es) < U32_SIZE && |image.bytes| < U32_SIZE && |EncodeEntries(es)| + U32_SIZE < U64_SIZE
  }

  lemma {:induction false} IndexCeilingAppend(a: Table, b: Table)
    ensures IndexCeiling(a + b) == IndexCeiling(a) + IndexCeiling(b)
  {
    if a == [] {
      assert a + b == b;
    } else {
      assert (a + b)[1..] == a[1..] + b;
      IndexCeilingAppend(a[1..], b);
    }
  }

  lemma {:induction false} LastKeyCeiling(es: Table)
    requires es != []
    ensures 14 + |LastKey(es)| <= IndexCeiling(es)
  {
    if |es| > 1 {
      LastKeyCeiling(es[1..]);
    }
  }

  lemma {:induction false} IndexSize(blocks: seq<Table>, offset: nat)
    requires forall i :: 0 <= i < |blocks| ==> blocks[i] != []
    ensures |EncodeIndex(IndexOf(blocks, offset))| <= IndexCeiling(Flatten(blocks))
  {
    if blocks != [] {
      var first, rest := IndexEntryFor(blocks[0], offset), IndexOf(blocks[1..], offset + |EncodeEntries(blocks[0])|);
      IndexSize(blocks[1..], offset + |EncodeEntries(blocks[0])|);
      LastKeyCeiling(blocks[0]);
      IndexCeilingAppend(blocks[0], Flatten(blocks[1..]));
      assert IndexOf(blocks, offset)[1..] == rest;
      assert |EncodeIndexEntry(first)| == 14 + |LastKey(blocks[0])|;
    }
  }

  /** A packed layout of a list that fits, fits. */
  lemma PackedFits(blocks: seq<Table>, image: FilterImage)
    requires Packed(blocks) && TableFits(Flatten(blocks), image)
    ensures FileFits(blocks, image)
  {
    IndexSize(blocks, 0);
    forall i | 0 <= i < |blocks|
      ensures |EncodeEntries(blocks[i])| < U32_SIZE && AllEntriesFit(blocks[i])
    {
      BlockFits(blocks, i);
    }
  }

  lemma BlockFits(blocks: seq<Table>, i: nat)
    requires i < |blocks| && Packed(blocks)
    requires forall n :: 0 <= n < |Flatten(blocks)| ==>
      && |Flatten(blocks)[n].key| < U16_SIZE
      && ENTRY_HEADER + |Flatten(blocks)[n].key| + |Flatten(blocks)[n].value| < U32_SIZE
    ensures |EncodeEntries(blocks[i])| < U32_SIZE && AllEntriesFit(blocks[i])
  {
    var block := blocks[i];
    forall n | 0 <= n < |block|
      ensures ENTRY_HEADER + |block[n].key| + |block[n].value| < U32_SIZE && EntryFits(block[n])
    {
      InFlatten(blocks, i, n);
    }
    if |block| == 1 {
      EncodeOneEntry(block[0]);
      assert block == [block[0]];
    }
  }

  // ---------- entries of a memtable ----------

  function EntryFor(key: Bytes, v: VersionedValue): Entry {
    EntryOf(key, v.seqNo, if v.Value? then Some(v.data) else None)
  }

  /** The entries under some keys of a layer, in that order. */
  function EntriesAt(layer: Layer, keys: seq<Bytes>): Table
    requires forall k :: k in keys ==> k in layer
  {
    seq(|keys|, i requires 0 <= i < |keys| => assert keys[i] in keys; EntryFor(keys[i], layer[keys[i]]))
  }

  /** The entries of a memtable in key order. */
  function EntriesOf(layer: Layer): Table {
    SortedKeysMeaning(layer.Keys);
    EntriesAt(layer, SortedKeys(layer.Keys))
  }

  lemma EntriesAscend(layer: Layer)
    ensures AscendingKeys(EntriesOf(layer))
    ensures forall key :: HasKey(EntriesOf(layer), key) <==> key in layer
  {
    SortedKeysMeaning(layer.Keys);
    var keys, es := SortedKeys(layer.Keys), EntriesOf(layer);
    assert forall i :: 0 <= i < |es| ==> es[i].key == keys[i];
    forall key ensures HasKey(es, key) <==> key in layer {
      if key in layer {
        assert key in keys;
        var i :| 0 <= i < |keys| && keys[i] == key;
        assert es[i].key == key;
      }
      if HasKey(es, key) {
        var i :| 0 <= i < |es| && es[i].key == key;
        assert keys[i] in keys;
      }
    }
  }

  /** Looking a key up in the entries of a memtable is looking it up in the memtable. */
  lemma EntriesLookup(layer: Layer, key: Bytes, readSeq: nat)
    ensures TableGet(EntriesOf(layer), key, readSeq) == LayerGet(layer, key, readSeq)
  {
    EntriesAscend(layer);
    var es := EntriesOf(layer);
    if key in layer {
      var i :| 0 <= i < |es| && es[i].key == key;
      TableGetAt(es, i, readSeq);
    } else {
      TableGetAbsent(es, key, readSeq);
    }
  }

  // ---------- flush ----------

  lemma NextEntry(layer: Layer, i: nat)
    requires i < |SortedKeys(layer.Keys)|
    ensures SortedKeys(layer.Keys)[i] in layer && |EntriesOf(layer)| == |SortedKeys(layer.Keys)|
    ensures var key := SortedKeys(layer.Keys)[i];
            EntriesOf(layer)[..i + 1] == EntriesOf(layer)[..i] + [EntryFor(key, layer[key])]
  {
    SortedKeysMeaning(layer.Keys);
    assert SortedKeys(layer.Keys)[i] in SortedKeys(layer.Keys);
    OneMore(EntriesOf(layer), i);
  }

  lemma OneMore(es: Table, i: nat)
    requires i < |es|
    ensures es[..i + 1] == es[..i] + [es[i]]
  {
  }

  method AddVersion(builder: SsTableBuilder, key: Bytes, val: VersionedValue)
    requires builder.Valid()
    modifies builder, builder.currentBlock
    ensures builder.Valid() && (builder.currentBlock == old(builder.currentBlock) || fresh(builder.currentBlock))
    ensures builder.added == old(builder.added) + [EntryFor(key, val)]
  {
    match val {
      case Value(data, seqNo) => builder.Add(key, seqNo, Some(data));
      case Tombstone(seqNo) => builder.Add(key, seqNo, None);
    }
  }

  /** The first and the last of the first n keys. */
  predicate Ends(keys: seq<Bytes>, n: nat, minKey: Option<Bytes>, maxKey: Option<Bytes>)
    requires n <= |keys|
  {
    if n == 0 then minKey == None && maxKey == None else minKey == Some(keys[0]) && maxKey == Some(keys[n - 1])
  }

  /** The loop of `flush_to_sstable`: every version in key order, and the first and last key. */
  method AddEntries(builder: SsTableBuilder, layer: Layer) returns (minKey: Option<Bytes>, maxKey: Option<Bytes>)
    requires builder.Valid() && builder.added == []
    modifies builder, builder.currentBlock
    ensures builder.Valid() && (builder.currentBlock == old(builder.currentBlock) || fresh(builder.currentBlock))
    ensures builder.added == EntriesOf(layer)
    ensures Ends(SortedKeys(layer.Keys), |SortedKeys(layer.Keys)|, minKey, maxKey)
  {
    minKey, maxKey := None, None;
    var keys := SortedKeys(layer.Keys);
    for i := 0 to |keys|
      invariant builder.Valid() && (builder.currentBlock == old(builder.currentBlock) || fresh(builder.currentBlock))
      invariant builder.added == EntriesOf(layer)[..i]
      invariant Ends(keys, i, minKey, maxKey)
    {
      var key := keys[i];
      NextEntry(layer, i);
      AddVersion(builder, key, layer[key]);
      if minKey.None? {
        minKey := Some(key);
      }
      maxKey := Some(key);
    }
    assert EntriesOf(layer)[..|keys|] == EntriesOf(layer);
  }

  /** `flush_to_sstable`: the entries in key order through the builder, with the
      first and last key as the range (both empty for an empty memtable). */
  method FlushToSstable(lib: FilterLib, layer: Layer, sstId: u64)
    returns (meta: SstMeta, file: Bytes, image: FilterImage, ghost layout: seq<Table>)
    ensures Flatten(layout) == EntriesOf(layer) && Packed(layout)
    ensures image == lib.image(|layer|, Keys(EntriesOf(layer)))
    ensures file == FileOf(layout, image, |layer| % U64_SIZE, MinSeq(EntriesOf(layer)))
    ensures meta.id == sstId && meta.entryCount == |layer|
    ensures layer == map[] ==> meta.minKey == [] && meta.maxKey == []
    ensures forall key :: key in layer ==> InRange(meta, key)
    ensures layer != map[] ==> meta.minKey in layer && meta.maxKey in layer
  {
    var builder := new SsTableBuilder(lib, |layer|);
    var minKey, maxKey := AddEntries(builder, layer);
    file, image, layout := builder.Finish();
    meta := SstMeta(sstId, if minKey.Some? then minKey.value else [],
                    if maxKey.Some? then maxKey.value else [], |layer|);
    RangeCovers(layer, meta, minKey, maxKey);
  }

  lemma RangeCovers(layer: Layer, meta: SstMeta, minKey: Option<Bytes>, maxKey: Option<Bytes>)
    requires Ends(SortedKeys(layer.Keys), |SortedKeys(layer.Keys)|, minKey, maxKey)
    requires minKey.Some? ==> meta.minKey == minKey.value
    requires maxKey.Some? ==> meta.maxKey == maxKey.value
    ensures forall key :: key in layer ==> InRange(meta, key)
    ensures layer != map[] ==> meta.minKey in layer && meta.maxKey in layer
    ensures layer == map[] ==> minKey == None && maxKey == None
  {
    SortedKeysMeaning(layer.Keys);
    var keys := SortedKeys(layer.Keys);
    if keys == [] {
      assert layer.Keys == {};
    } else {
      assert keys[0] in keys && keys[|keys| - 1] in keys;
      forall key | key in layer ensures InRange(meta, key) {
        var i :| 0 <= i < |keys| && keys[i] == key;
        EndsBound(keys, i);
      }
    }
  }

  lemma EndsBound(keys: seq<Bytes>, i: nat)
    requires Ascending(keys) && i < |keys|
    ensures AtMost(keys[0], keys[i]) && AtMost(keys[i], keys[|keys| - 1])
  {
    KeyOrder();
    assert i > 0 ==> Less(keys[0], keys[i]);
    assert i < |keys| - 1 ==> Less(keys[i], keys[|keys| - 1]);
  }

  /** Flushing is invisible: the file opens, looks every key up as the memtable
      does at every sequence number, and iterates over the same entries in the
      same order. */
  lemma FlushInvisible(lib: FilterLib, layer: Layer, layout: seq<Table>, image: FilterImage, key: Bytes, readSeq: nat)
    requires NoFalseNegatives(lib) && image == lib.image(|layer|, Keys(EntriesOf(layer)))
    requires Flatten(layout) == EntriesOf(layer) && Packed(layout) && TableFits(EntriesOf(layer), image)
    ensures var file := FileOf(layout, image, |layer| % U64_SIZE, MinSeq(EntriesOf(layer)));
            var handle := OpenFile(file);
            && handle.Ok?
            && Lookup(lib, file, handle.value.0, handle.value.1, key, readSeq) == Ok(LayerGet(layer, key, readSeq))
            && handle.value.0.indexOffset <= |file|
            && DecodeEntries(file[..handle.value.0.indexOffset]) == Ok(EntriesOf(layer))
  {
    var count, least := |layer| % U64_SIZE, MinSeq(EntriesOf(layer));
    PackedFits(layout, image);
    EntriesAscend(layer);
    LookupIsTableGet(lib, layout, image, count, least, key, readSeq);
    EntriesLookup(layer, key, readSeq);
    IterationYieldsEntries(layout, image, count, least);
    if key in layer {
      KeyIsInserted(EntriesOf(layer), key);
      assert lib.contains(lib.image(|layer|, Keys(EntriesOf(layer))), key);
    }
  }

  lemma KeyIsInserted(es: Table, key: Bytes)
    requires HasKey(es, key)
    ensures key in Keys(es)
  {
    var i :| 0 <= i < |es| && es[i].key == key;
    assert Keys(es)[i] == key;
  }
}
