/** A table file answers lookups and iteration exactly as the list of entries it
    was built from. */
module SsTableTheorems {
  import opened Wrappers
  import opened Bytes
  import opened Sequences
  import opened Levels
  import opened Block
  import opened SsTableBuilder
  import opened SsTableReader

  // ---------- looking a key up in blocks ----------

  /** The number of the first block whose last key is not below the key. */
  function BlockOf(blocks: seq<Table>, key: Bytes): (i: Option<nat>)
    ensures i.Some? ==> i.value < |blocks|
  {
    if blocks == [] then None
    else if AtMost(key, LastKey(blocks[0])) then Some(0)
    else match BlockOf(blocks[1..], key) case None => None case Some(i) => Some(i + 1)
  }

  lemma {:induction false} TableGetAppend(a: Table, b: Table, key: Bytes, readSeq: nat)
    ensures TableGet(a + b, key, readSeq) ==
            if HasKey(a, key) then TableGet(a, key, readSeq) else TableGet(b, key, readSeq)
  {
    if a == [] {
      assert a + b == b;
    } else {
      assert (a + b)[1..] == a[1..] + b;
      TableGetAppend(a[1..], b, key, readSeq);
      assert HasKey(a, key) <==> a[0].key == key || HasKey(a[1..], key) by {
        if HasKey(a, key) && a[0].key != key {
          var i :| 0 <= i < |a| && a[i].key == key;
          assert a[1..][i - 1].key == key;
        }
        if HasKey(a[1..], key) {
          var i :| 0 <= i < |a[1..]| && a[1..][i].key == key;
          assert a[i + 1].key == key;
        }
      }
    }
  }

  lemma AscendingSplit(a: Table, b: Table)
    requires AscendingKeys(a + b)
    ensures AscendingKeys(a) && AscendingKeys(b)
    ensures forall i, j :: 0 <= i < |a| && 0 <= j < |b| ==> Less(a[i].key, b[j].key)
  {
    var all := a + b;
    assert forall i :: 0 <= i < |a| ==> all[i] == a[i];
    assert forall j :: 0 <= j < |b| ==> all[|a| + j] == b[j];
    forall i, j | 0 <= i < |a| && 0 <= j < |b| ensures Less(a[i].key, b[j].key) {
      assert Less(all[i].key, all[|a| + j].key);
    }
    forall i, j | 0 <= i < j < |b| ensures Less(b[i].key, b[j].key) {
      assert Less(all[|a| + i].key, all[|a| + j].key);
    }
  }

  /** Nothing after a block reaches down to its last key; nothing in it goes above. */
  lemma FirstBlockDecides(first: Table, rest: Table, key: Bytes)
    requires first != [] && AscendingKeys(first + rest)
    ensures AtMost(key, LastKey(first)) ==> !HasKey(rest, key)
    ensures !AtMost(key, LastKey(first)) ==> !HasKey(first, key)
  {
    KeyOrder();
    AscendingSplit(first, rest);
    var last := first[|first| - 1];
    if HasKey(first, key) {
      var i :| 0 <= i < |first| && first[i].key == key;
      if i < |first| - 1 {
        assert Less(first[i].key, last.key);
      }
    }
    if HasKey(rest, key) {
      var j :| 0 <= j < |rest| && rest[j].key == key;
      assert Less(last.key, rest[j].key);
    }
  }

  /** One block is enough: it holds the key if any block does. */
  lemma {:induction false} OneBlockIsEnough(blocks: seq<Table>, key: Bytes, readSeq: nat)
    requires AscendingKeys(Flatten(blocks)) && forall i :: 0 <= i < |blocks| ==> blocks[i] != []
    ensures TableGet(Flatten(blocks), key, readSeq) ==
            match BlockOf(blocks, key) case None => None case Some(i) => TableGet(blocks[i], key, readSeq)
  {
    if blocks != [] {
      var first, rest := blocks[0], Flatten(blocks[1..]);
      AscendingSplit(first, rest);
      FirstBlockDecides(first, rest, key);
      TableGetAppend(first, rest, key, readSeq);
      if AtMost(key, LastKey(first)) {
        if !HasKey(first, key) {
          TableGetAbsent(first, key, readSeq);
          TableGetAbsent(rest, key, readSeq);
        }
      } else {
        OneBlockIsEnough(blocks[1..], key, readSeq);
      }
    }
  }

  // ---------- the index ----------

  predicate IndexEntryFits(i: IndexEntry) {
    |i.lastKey| < U16_SIZE
  }

  lemma IndexEntryParts(a: Bytes, k: Bytes, o: Bytes, l: Bytes, rest: Bytes)
    requires |a| == 2 && |o| == 8 && |l| == 4
    ensures var buf := a + k + o + l + rest;
            && buf[0..2] == a && buf[2..2 + |k|] == k
            && buf == (a + k) + o + (l + rest) && buf == (a + k + o) + l + rest
  {
  }

  lemma DecodeEncodedIndexEntry(i: IndexEntry, rest: Bytes)
    requires IndexEntryFits(i)
    ensures DecodeIndexEntry(EncodeIndexEntry(i) + rest) == Some((i, |EncodeIndexEntry(i)|))
  {
    var a, o, l := ToLe(|i.lastKey|, 2), ToLe(i.offset, 8), ToLe(i.len, 4);
    IndexEntryParts(a, i.lastKey, o, l, rest);
    assert FromLe(a) == |i.lastKey| by {
      Widths();
      LeRoundTrip(|i.lastKey|, 2);
    }
    FieldAt8(a + i.lastKey, i.offset, l + rest);
    FieldAt4(a + i.lastKey + o, i.len, rest);
  }

  /** Blocks whose places and sizes survive the casts of the index. */
  ghost predicate BlocksFit(blocks: seq<Table>, offset: nat) {
    && offset + |EncodeEntries(Flatten(blocks))| < U64_SIZE
    && forall i :: 0 <= i < |blocks| ==>
         blocks[i] != [] && |EncodeEntries(blocks[i])| < U32_SIZE && AllEntriesFit(blocks[i])
  }

  /** Where block i starts. */
  function StartOf(blocks: seq<Table>, i: nat): nat
    requires i <= |blocks|
  {
    if i == 0 then 0 else |EncodeEntries(blocks[0])| + StartOf(blocks[1..], i - 1)
  }

  /** The number of the first index entry whose last key is not below the key. */
  function FirstAtLeast(index: seq<IndexEntry>, key: Bytes): (i: Option<nat>)
    ensures i.Some? ==> i.value < |index|
  {
    if index == [] then None
    else if AtMost(key, index[0].lastKey) then Some(0)
    else match FirstAtLeast(index[1..], key) case None => None case Some(i) => Some(i + 1)
  }

  lemma FindBlockStep(first: IndexEntry, rest: Bytes, key: Bytes)
    requires IndexEntryFits(first)
    ensures FindBlock(EncodeIndexEntry(first) + rest, key) ==
            if AtMost(key, first.lastKey) then Some((first.offset, first.len)) else FindBlock(rest, key)
  {
    DecodeEncodedIndexEntry(first, rest);
    assert (EncodeIndexEntry(first) + rest)[|EncodeIndexEntry(first)|..] == rest;
  }

  /** Walking the encoded index finds the first entry that is not below the key. */
  lemma {:induction false} FindBlockInIndex(index: seq<IndexEntry>, key: Bytes)
    requires forall i :: 0 <= i < |index| ==> IndexEntryFits(index[i])
    ensures FindBlock(EncodeIndex(index), key) ==
            match FirstAtLeast(index, key)
            case None => None
            case Some(i) => Some((index[i].offset, index[i].len))
  {
    if index != [] {
      FindBlockStep(index[0], EncodeIndex(index[1..]), key);
      FindBlockInIndex(index[1..], key);
    }
  }

  /** Entry i of the index is about block i. */
  lemma {:induction false} IndexAt(blocks: seq<Table>, offset: nat, i: nat)
    requires i < |blocks|
    ensures |IndexOf(blocks, offset)| == |blocks|
    ensures IndexOf(blocks, offset)[i] == IndexEntryFor(blocks[i], offset + StartOf(blocks, i))
  {
    if i > 0 {
      IndexAt(blocks[1..], offset + |EncodeEntries(blocks[0])|, i - 1);
    } else if |blocks| > 1 {
      IndexAt(blocks[1..], offset + |EncodeEntries(blocks[0])|, 0);
    } else {
      assert blocks[1..] == [];
    }
  }

  lemma {:induction false} IndexPicksBlock(blocks: seq<Table>, offset: nat, key: Bytes)
    ensures FirstAtLeast(IndexOf(blocks, offset), key) == BlockOf(blocks, key)
  {
    if blocks != [] {
      var size := |EncodeEntries(blocks[0])|;
      IndexPicksBlock(blocks[1..], offset + size, key);
      assert IndexOf(blocks, offset)[1..] == IndexOf(blocks[1..], offset + size);
    }
  }

  /** A place and size below the widths of the index are stored as they are. */
  lemma ExactIndexEntry(block: Table, offset: nat)
    requires block != [] && |LastKey(block)| < U16_SIZE && offset < U64_SIZE && |EncodeEntries(block)| < U32_SIZE
    ensures var e := IndexEntryFor(block, offset);
            IndexEntryFits(e) && e.offset == offset && e.len == |EncodeEntries(block)|
  {
    SmallMod(offset, U64_SIZE);
    SmallMod(|EncodeEntries(block)|, U32_SIZE);
  }

  lemma SmallMod(n: nat, m: nat)
    requires n < m
    ensures n % m == n
  {
  }

  lemma IndexFromStart(blocks: seq<Table>, i: nat)
    requires i < |blocks|
    ensures |IndexOf(blocks, 0)| == |blocks|
    ensures IndexOf(blocks, 0)[i] == IndexEntryFor(blocks[i], StartOf(blocks, i))
  {
    IndexAt(blocks, 0, i);
  }

  lemma BlockFits(blocks: seq<Table>, i: nat)
    requires BlocksFit(blocks, 0) && i < |blocks|
    ensures blocks[i] != [] && |LastKey(blocks[i])| < U16_SIZE
    ensures StartOf(blocks, i) < U64_SIZE && |EncodeEntries(blocks[i])| < U32_SIZE
  {
    StartBound(blocks, i);
    assert EntryFits(blocks[i][|blocks[i]| - 1]);
  }

  /** Entry i of the index of a file that fits. */
  lemma IndexEntryAt(blocks: seq<Table>, i: nat)
    requires BlocksFit(blocks, 0) && i < |blocks|
    ensures |IndexOf(blocks, 0)| == |blocks|
    ensures var e := IndexOf(blocks, 0)[i];
            IndexEntryFits(e) && e.offset == StartOf(blocks, i) && e.len == |EncodeEntries(blocks[i])|
  {
    IndexFromStart(blocks, i);
    BlockFits(blocks, i);
    ExactIndexEntry(blocks[i], StartOf(blocks, i));
  }

  /** Walking the index of a file finds the place and size of the right block. */
  lemma FindBlockFinds(blocks: seq<Table>, key: Bytes)
    requires BlocksFit(blocks, 0)
    ensures FindBlock(EncodeIndex(IndexOf(blocks, 0)), key) ==
            match BlockOf(blocks, key)
            case None => None
            case Some(i) => Some((StartOf(blocks, i), |EncodeEntries(blocks[i])|))
  {
    var index := IndexOf(blocks, 0);
    if blocks != [] {
      IndexAt(blocks, 0, 0);
    }
    forall i | 0 <= i < |index| ensures IndexEntryFits(index[i]) {
      IndexEntryAt(blocks, i);
    }
    assert FindBlock(EncodeIndex(index), key) ==
           match FirstAtLeast(index, key) case None => None case Some(i) => Some((index[i].offset, index[i].len)) by {
      FindBlockInIndex(index, key);
    }
    IndexPicksBlock(blocks, 0, key);
    if BlockOf(blocks, key).Some? {
      IndexEntryAt(blocks, BlockOf(blocks, key).value);
    }
  }

  lemma {:induction false} StartBound(blocks: seq<Table>, i: nat)
    requires i <= |blocks|
    ensures StartOf(blocks, i) <= |EncodeEntries(Flatten(blocks))|
  {
    if i > 0 {
      DataSplits(blocks);
      StartBound(blocks[1..], i - 1);
    }
  }

  lemma {:induction false} StartOfNext(blocks: seq<Table>, i: nat)
    requires i < |blocks|
    ensures StartOf(blocks, i + 1) == StartOf(blocks, i) + |EncodeEntries(blocks[i])|
  {
    if i > 0 {
      StartOfNext(blocks[1..], i - 1);
    }
  }

  lemma DataSplits(blocks: seq<Table>)
    requires blocks != []
    ensures EncodeEntries(Flatten(blocks)) == EncodeEntries(blocks[0]) + EncodeEntries(Flatten(blocks[1..]))
  {
    EncodeEntriesAppend(blocks[0], Flatten(blocks[1..]));
  }

  /** The data region holds block i right after the blocks before it: they tile it in order. */
  lemma {:induction false} BlocksTile(blocks: seq<Table>, i: nat)
    requires i < |blocks|
    ensures StartOf(blocks, i + 1) == StartOf(blocks, i) + |EncodeEntries(blocks[i])|
    ensures Slice(EncodeEntries(Flatten(blocks)), StartOf(blocks, i), StartOf(blocks, i + 1)) ==
            Ok(EncodeEntries(blocks[i]))
  {
    StartOfNext(blocks, i);
    DataSplits(blocks);
    var first, rest := EncodeEntries(blocks[0]), EncodeEntries(Flatten(blocks[1..]));
    if i == 0 {
      SliceBefore(first, rest, 0, |first|);
      assert first[0..|first|] == first;
    } else {
      BlocksTile(blocks[1..], i - 1);
      SliceAfter(first, rest, StartOf(blocks[1..], i - 1), StartOf(blocks[1..], i));
    }
  }

  lemma SliceAfter(first: Bytes, rest: Bytes, from: nat, to: nat)
    requires from <= to <= |rest|
    ensures (first + rest)[|first| + from..|first| + to] == rest[from..to]
  {
  }

  // ---------- one block ----------

  /** Reading a block finds what the list of its entries says. */
  lemma {:induction false} BlockGetIsTableGet(es: Table, key: Bytes, readSeq: nat, found: Option<Bytes>)
    requires AscendingKeys(es) && AllEntriesFit(es)
    requires found.Some? ==> !HasKey(es, key)
    ensures BlockGet(EncodeEntries(es), key, readSeq, found) ==
            Ok(if HasKey(es, key) then TableGet(es, key, readSeq) else found)
  {
    if es != [] {
      var e, rest := es[0], EncodeEntries(es[1..]);
      DecodeEncodedEntry(e, rest);
      assert (EncodeEntry(e) + rest)[|EncodeEntry(e)|..] == rest;
      HeadOrTail(es, key);
      var hit := e.key == key && e.seqNo <= readSeq && !e.tombstone;
      BlockGetIsTableGet(es[1..], key, readSeq, if hit then Some(e.value) else found);
    }
  }

  /** In an ascending list a key is at the head or in the tail, never both. */
  lemma HeadOrTail(es: Table, key: Bytes)
    requires es != [] && AscendingKeys(es)
    ensures AscendingKeys(es[1..])
    ensures HasKey(es, key) <==> es[0].key == key || HasKey(es[1..], key)
    ensures es[0].key == key ==> !HasKey(es[1..], key)
  {
    assert [es[0]] + es[1..] == es;
    AscendingSplit([es[0]], es[1..]);
    LessIrreflexive(key);
    if HasKey(es, key) && es[0].key != key {
      var i :| 0 <= i < |es| && es[i].key == key;
      assert es[1..][i - 1].key == key;
    }
    if HasKey(es[1..], key) {
      var i :| 0 <= i < |es[1..]| && es[1..][i].key == key;
      assert es[i + 1].key == key;
    }
  }

  // ---------- the file ----------

  /** Everything the file's length fields must hold. */
  ghost predicate FileFits(blocks: seq<Table>, image: FilterImage) {
    && BlocksFit(blocks, 0)
    && |EncodeIndex(IndexOf(blocks, 0))| < U32_SIZE && |image.bytes| < U32_SIZE
    && |EncodeEntries(Flatten(blocks))| + U32_SIZE < U64_SIZE
  }

  lemma FileRegions(data: Bytes, index: Bytes, bloom: Bytes, footer: Bytes)
    ensures var file := data + index + bloom + footer;
            && file[0..|data|] == data
            && file[|data|..|data| + |index|] == index
            && file[|data| + |index|..|data| + |index| + |bloom|] == bloom
  {
  }

  /** A file with this footer behind it opens with the filter the footer points at. */
  lemma OpensWith(data: Bytes, index: Bytes, image: FilterImage, footer: Footer)
    requires footer.bloomOffset == |data| + |index| && footer.bloomLen == |image.bytes|
    requires footer.bloomBits == image.bits && footer.bloomK == image.hashes
    ensures OpenFile(data + index + image.bytes + EncodeFooter(footer)) == Ok((footer, image))
  {
    FooterRoundTrip(data + index + image.bytes, footer);
    FileRegions(data, index, image.bytes, EncodeFooter(footer));
  }

  lemma FooterExact(dataBuf: Bytes, indexBuf: Bytes, image: FilterImage, entryCount: u64, minSeq: u64)
    requires |dataBuf| + U32_SIZE < U64_SIZE && |indexBuf| < U32_SIZE && |image.bytes| < U32_SIZE
    ensures var footer := MakeFooter(dataBuf, indexBuf, image, entryCount, minSeq);
            && footer.indexOffset == |dataBuf| && footer.indexLen == |indexBuf|
            && footer.bloomOffset == |dataBuf| + |indexBuf| && footer.bloomLen == |image.bytes|
  {
  }

  /** What any file opens to, built or not: too small below 56 bytes, no table without the
      magic number in its last 4 bytes, a panic when the filter lies outside, and otherwise
      the filter's bytes where the footer says. */
  lemma OpenExactly(file: Bytes)
    ensures OpenFile(file) == Err(FileTooSmall) <==> |file| < 56
    ensures |file| >= 56 ==>
              (OpenFile(file) == Err(InvalidMagic) <==> FromLe(file[|file| - 4..]) != 0x4C534D54)
    ensures OpenFile(file).Ok? ==>
              var (footer, image) := OpenFile(file).value;
              && footer.bloomOffset + footer.bloomLen <= |file|
              && image.bytes == file[footer.bloomOffset..footer.bloomOffset + footer.bloomLen]
              && image.bits == footer.bloomBits && image.hashes == footer.bloomK
  {
    if |file| >= 56 {
      assert file[|file| - 56..][52..56] == file[|file| - 4..];
    }
  }

  /** A lookup asks the filter first: a key it does not have is not looked for, whatever
      the rest of the file holds. Behind the filter an index outside the file is a panic. */
  lemma FilterFirst(lib: FilterLib, file: Bytes, footer: Footer, image: FilterImage, key: Bytes, readSeq: nat)
    ensures !lib.contains(image, key) ==> Lookup(lib, file, footer, image, key, readSeq) == Ok(None)
    ensures lib.contains(image, key) && |file| < footer.indexOffset + footer.indexLen ==>
              Lookup(lib, file, footer, image, key, readSeq) == Err(OutOfBounds)
  {
  }

  /** The read can see the entry under the key. */
  predicate Seen(e: Entry, key: Bytes, readSeq: nat) {
    e.key == key && e.seqNo <= readSeq
  }

  ghost predicate NoneSeen(es: Table, from: nat, key: Bytes, readSeq: nat) {
    forall i :: from <= i < |es| ==> !Seen(es[i], key, readSeq)
  }

  ghost predicate NoTombstoneSeen(es: Table, key: Bytes, readSeq: nat) {
    forall i :: 0 <= i < |es| && Seen(es[i], key, readSeq) ==> !es[i].tombstone
  }

  /** What reading a block gives, in any order of entries and with any number of the same
      key: nothing if a tombstone of the key is seen, and otherwise the last value seen, or
      what was found before. */
  lemma {:induction false} AnyBlock(es: Table, key: Bytes, readSeq: nat, found: Option<Bytes>)
    requires AllEntriesFit(es)
    ensures var r := BlockGet(EncodeEntries(es), key, readSeq, found);
            && r.Ok?
            && (!NoTombstoneSeen(es, key, readSeq) ==> r.value == None)
            && (NoneSeen(es, 0, key, readSeq) ==> r.value == found)
            && (NoTombstoneSeen(es, key, readSeq) ==>
                  forall i :: 0 <= i < |es| && Seen(es[i], key, readSeq) && NoneSeen(es, i + 1, key, readSeq) ==>
                    r.value == Some(es[i].value))
  {
    if es != [] {
      var e, rest := es[0], es[1..];
      BlockGetFirst(e, rest, key, readSeq, found);
      SeenBehind(es, key, readSeq);
      if !Seen(e, key, readSeq) {
        AnyBlock(rest, key, readSeq, found);
      } else if !e.tombstone {
        AnyBlock(rest, key, readSeq, Some(e.value));
      }
    }
  }

  lemma BlockGetFirst(e: Entry, rest: Table, key: Bytes, readSeq: nat, found: Option<Bytes>)
    requires EntryFits(e)
    ensures BlockGet(EncodeEntry(e) + EncodeEntries(rest), key, readSeq, found) ==
            if !Seen(e, key, readSeq) then BlockGet(EncodeEntries(rest), key, readSeq, found)
            else if e.tombstone then Ok(None) else BlockGet(EncodeEntries(rest), key, readSeq, Some(e.value))
  {
    DecodeEncodedEntry(e, EncodeEntries(rest));
    assert (EncodeEntry(e) + EncodeEntries(rest))[|EncodeEntry(e)|..] == EncodeEntries(rest);
  }

  lemma SeenBehind(es: Table, key: Bytes, readSeq: nat)
    requires es != []
    ensures NoTombstoneSeen(es, key, readSeq) <==>
            NoTombstoneSeen(es[1..], key, readSeq) && (Seen(es[0], key, readSeq) ==> !es[0].tombstone)
    ensures forall i :: 0 <= i < |es| ==> (NoneSeen(es, i + 1, key, readSeq) <==> NoneSeen(es[1..], i, key, readSeq))
    ensures NoneSeen(es, 0, key, readSeq) <==> NoneSeen(es[1..], 0, key, readSeq) && !Seen(es[0], key, readSeq)
    ensures forall i :: 0 < i < |es| ==> es[i] == es[1..][i - 1]
  {
    var rest := es[1..];
    assert forall i :: 0 < i < |es| ==> es[i] == rest[i - 1];
    forall i | 0 <= i < |es| ensures NoneSeen(es, i + 1, key, readSeq) <==> NoneSeen(rest, i, key, readSeq) {
      if NoneSeen(es, i + 1, key, readSeq) {
        assert forall j :: i <= j < |rest| ==> rest[j] == es[j + 1];
      }
    }
    if NoTombstoneSeen(es, key, readSeq) {
      assert forall j :: 0 <= j < |rest| ==> rest[j] == es[j + 1];
    }
  }

  /** A built file opens, with the footer and filter it was written with. */
  lemma BuiltFileOpens(blocks: seq<Table>, image: FilterImage, entryCount: u64, minSeq: u64)
    requires FileFits(blocks, image)
    ensures var dataBuf, indexBuf := EncodeEntries(Flatten(blocks)), EncodeIndex(IndexOf(blocks, 0));
            var footer := MakeFooter(dataBuf, indexBuf, image, entryCount, minSeq);
            && OpenFile(FileOf(blocks, image, entryCount, minSeq)) == Ok((footer, image))
            && footer.indexOffset == |dataBuf| && footer.indexLen == |indexBuf|
  {
    var dataBuf, indexBuf := EncodeEntries(Flatten(blocks)), EncodeIndex(IndexOf(blocks, 0));
    var footer := MakeFooter(dataBuf, indexBuf, image, entryCount, minSeq);
    FooterExact(dataBuf, indexBuf, image, entryCount, minSeq);
    OpensWith(dataBuf, indexBuf, image, footer);
  }

  lemma SliceOfPrefix(data: Bytes, file: Bytes, from: nat, to: nat)
    requires from <= to <= |data| && data <= file
    ensures Slice(file, from, to) == Ok(data[from..to])
  {
    assert file[from..to] == data[from..to];
  }

  lemma BlockInFile(blocks: seq<Table>, i: nat, file: Bytes)
    requires i < |blocks| && EncodeEntries(Flatten(blocks)) <= file
    ensures Slice(file, StartOf(blocks, i), StartOf(blocks, i) + |EncodeEntries(blocks[i])|) ==
            Ok(EncodeEntries(blocks[i]))
  {
    BlocksTile(blocks, i);
    SliceOfPrefix(EncodeEntries(Flatten(blocks)), file, StartOf(blocks, i), StartOf(blocks, i + 1));
  }

  lemma BlockGetExact(es: Table, key: Bytes, readSeq: nat)
    requires AscendingKeys(es) && AllEntriesFit(es)
    ensures BlockGet(EncodeEntries(es), key, readSeq, None) == Ok(TableGet(es, key, readSeq))
  {
    BlockGetIsTableGet(es, key, readSeq, None);
    if !HasKey(es, key) {
      TableGetAbsent(es, key, readSeq);
    }
  }

  lemma ReadBlock(file: Bytes, start: nat, data: Bytes, key: Bytes, readSeq: nat, v: Option<Bytes>)
    requires Slice(file, start, start + |data|) == Ok(data) && BlockGet(data, key, readSeq, None) == Ok(v)
    ensures ReadFound(file, Some((start, |data|)), key, readSeq) == Ok(v)
  {
  }

  lemma BlockReads(file: Bytes, start: nat, es: Table, key: Bytes, readSeq: nat)
    requires Slice(file, start, start + |EncodeEntries(es)|) == Ok(EncodeEntries(es))
    requires AscendingKeys(es) && AllEntriesFit(es)
    ensures ReadFound(file, Some((start, |EncodeEntries(es)|)), key, readSeq) == Ok(TableGet(es, key, readSeq))
  {
    BlockGetExact(es, key, readSeq);
    ReadBlock(file, start, EncodeEntries(es), key, readSeq, TableGet(es, key, readSeq));
  }

  /** Any file that starts with the data region answers through the index as the list does. */
  lemma BlockLookup(blocks: seq<Table>, file: Bytes, key: Bytes, readSeq: nat)
    requires BlocksFit(blocks, 0) && AscendingKeys(Flatten(blocks)) && EncodeEntries(Flatten(blocks)) <= file
    ensures ReadFound(file, FindBlock(EncodeIndex(IndexOf(blocks, 0)), key), key, readSeq) ==
            Ok(TableGet(Flatten(blocks), key, readSeq))
  {
    FindBlockFinds(blocks, key);
    OneBlockIsEnough(blocks, key, readSeq);
    if BlockOf(blocks, key).Some? {
      var i := BlockOf(blocks, key).value;
      BlockAscending(blocks, i);
      BlockInFileReads(blocks, i, file, key, readSeq);
    }
  }

  lemma BlockInFileReads(blocks: seq<Table>, i: nat, file: Bytes, key: Bytes, readSeq: nat)
    requires i < |blocks| && EncodeEntries(Flatten(blocks)) <= file
    requires AscendingKeys(blocks[i]) && AllEntriesFit(blocks[i])
    ensures ReadFound(file, Some((StartOf(blocks, i), |EncodeEntries(blocks[i])|)), key, readSeq) ==
            Ok(TableGet(blocks[i], key, readSeq))
  {
    BlockInFile(blocks, i, file);
    BlockReads(file, StartOf(blocks, i), blocks[i], key, readSeq);
  }

  lemma LookupByIndex(lib: FilterLib, file: Bytes, index: Bytes, image: FilterImage, footer: Footer,
                      key: Bytes, readSeq: nat)
    requires Slice(file, footer.indexOffset, footer.indexOffset + footer.indexLen) == Ok(index)
    ensures Lookup(lib, file, footer, image, key, readSeq) ==
            if !lib.contains(image, key) then Ok(None) else ReadFound(file, FindBlock(index, key), key, readSeq)
  {
  }

  lemma LookupInFile(lib: FilterLib, blocks: seq<Table>, file: Bytes, image: FilterImage, footer: Footer,
                     key: Bytes, readSeq: nat)
    requires BlocksFit(blocks, 0) && AscendingKeys(Flatten(blocks)) && EncodeEntries(Flatten(blocks)) <= file
    requires Slice(file, footer.indexOffset, footer.indexOffset + footer.indexLen) ==
             Ok(EncodeIndex(IndexOf(blocks, 0)))
    ensures Lookup(lib, file, footer, image, key, readSeq) ==
            Ok(if lib.contains(image, key) then TableGet(Flatten(blocks), key, readSeq) else None)
  {
    LookupByIndex(lib, file, EncodeIndex(IndexOf(blocks, 0)), image, footer, key, readSeq);
    BlockLookup(blocks, file, key, readSeq);
  }

  lemma RegionsSlice(data: Bytes, index: Bytes, bloom: Bytes, footer: Bytes)
    ensures var file := data + index + bloom + footer;
            data <= file && Slice(file, |data|, |data| + |index|) == Ok(index)
  {
    FileRegions(data, index, bloom, footer);
  }

  /** The point lookup of a built file, for every filter: a key the filter does
      not report is not found, any other is looked up in the list of entries. */
  lemma LookupIsTableGet(lib: FilterLib, blocks: seq<Table>, image: FilterImage,
                         entryCount: u64, minSeq: u64, key: Bytes, readSeq: nat)
    requires FileFits(blocks, image) && AscendingKeys(Flatten(blocks))
    ensures var file := FileOf(blocks, image, entryCount, minSeq);
            var handle := OpenFile(file);
            handle.Ok? &&
            Lookup(lib, file, handle.value.0, handle.value.1, key, readSeq) ==
            Ok(if lib.contains(image, key) then TableGet(Flatten(blocks), key, readSeq) else None)
  {
    var footer := BuiltFooter(blocks, image, entryCount, minSeq);
    LookupInFile(lib, blocks, FileOf(blocks, image, entryCount, minSeq), image, footer, key, readSeq);
  }

  /** A built file opens to a footer that says where its index is. */
  lemma BuiltFooter(blocks: seq<Table>, image: FilterImage, entryCount: u64, minSeq: u64) returns (footer: Footer)
    requires FileFits(blocks, image)
    ensures var file := FileOf(blocks, image, entryCount, minSeq);
            && OpenFile(file) == Ok((footer, image))
            && EncodeEntries(Flatten(blocks)) <= file
            && Slice(file, footer.indexOffset, footer.indexOffset + footer.indexLen) ==
               Ok(EncodeIndex(IndexOf(blocks, 0)))
  {
    footer := FooterFor(EncodeEntries(Flatten(blocks)), EncodeIndex(IndexOf(blocks, 0)), image, entryCount, minSeq);
  }

  lemma FooterFor(data: Bytes, index: Bytes, image: FilterImage, entryCount: u64, minSeq: u64) returns (footer: Footer)
    requires |data| + U32_SIZE < U64_SIZE && |index| < U32_SIZE && |image.bytes| < U32_SIZE
    ensures var file := data + index + image.bytes + EncodeFooter(MakeFooter(data, index, image, entryCount, minSeq));
            && OpenFile(file) == Ok((footer, image)) && data <= file
            && Slice(file, footer.indexOffset, footer.indexOffset + footer.indexLen) == Ok(index)
  {
    footer := MakeFooter(data, index, image, entryCount, minSeq);
    FooterExact(data, index, image, entryCount, minSeq);
    assert OpenFile(data + index + image.bytes + EncodeFooter(footer)) == Ok((footer, image)) by {
      OpensWith(data, index, image, footer);
    }
    RegionsSlice(data, index, image.bytes, EncodeFooter(footer));
  }

  lemma SliceBefore(first: Bytes, rest: Bytes, from: nat, to: nat)
    requires from <= to <= |first|
    ensures (first + rest)[from..to] == first[from..to]
  {
  }

  lemma {:induction false} BlockAscending(blocks: seq<Table>, i: nat)
    requires i < |blocks| && AscendingKeys(Flatten(blocks))
    ensures AscendingKeys(blocks[i])
  {
    AscendingSplit(blocks[0], Flatten(blocks[1..]));
    if i > 0 {
      BlockAscending(blocks[1..], i - 1);
    }
  }

  /** Iterating over the data region yields the entries that were added, wherever blocks were cut. */
  lemma IterationYieldsEntries(blocks: seq<Table>, image: FilterImage, entryCount: u64, minSeq: u64)
    requires FileFits(blocks, image)
    ensures var file := FileOf(blocks, image, entryCount, minSeq);
            var handle := OpenFile(file);
            handle.Ok? && handle.value.0.indexOffset <= |file| &&
            DecodeEntries(file[..handle.value.0.indexOffset]) == Ok(Flatten(blocks))
  {
    var dataBuf, indexBuf := EncodeEntries(Flatten(blocks)), EncodeIndex(IndexOf(blocks, 0));
    var footer := MakeFooter(dataBuf, indexBuf, image, entryCount, minSeq);
    BuiltFileOpens(blocks, image, entryCount, minSeq);
    FileRegions(dataBuf, indexBuf, image.bytes, EncodeFooter(footer));
    FlattenFits(blocks);
    DecodeEncodedEntries(Flatten(blocks));
  }

  lemma {:induction false} FlattenFits(blocks: seq<Table>)
    requires forall i :: 0 <= i < |blocks| ==> AllEntriesFit(blocks[i])
    ensures AllEntriesFit(Flatten(blocks))
  {
    if blocks != [] {
      FlattenFits(blocks[1..]);
    }
  }

  /** The last keys in the index ascend strictly. */
  lemma {:induction false} LastKeysAscend(blocks: seq<Table>, i: nat, j: nat)
    requires AscendingKeys(Flatten(blocks)) && i < j < |blocks|
    requires forall n :: 0 <= n < |blocks| ==> blocks[n] != []
    ensures Less(LastKey(blocks[i]), LastKey(blocks[j]))
  {
    var first, rest := blocks[0], Flatten(blocks[1..]);
    AscendingSplit(first, rest);
    if i == 0 {
      var n := |blocks[j]| - 1;
      assert blocks[1..][j - 1] == blocks[j];
      InFlatten(blocks[1..], j - 1, n);
      var p :| 0 <= p < |rest| && rest[p] == blocks[j][n];
      assert Less(first[|first| - 1].key, rest[p].key);
    } else {
      assert blocks[1..][i - 1] == blocks[i] && blocks[1..][j - 1] == blocks[j];
      LastKeysAscend(blocks[1..], i - 1, j - 1);
    }
  }

  lemma {:induction false} InFlatten(blocks: seq<Table>, j: nat, n: nat)
    requires j < |blocks| && n < |blocks[j]|
    ensures exists p :: 0 <= p < |Flatten(blocks)| && Flatten(blocks)[p] == blocks[j][n]
  {
    if j == 0 {
      assert Flatten(blocks)[n] == blocks[0][n];
    } else {
      InFlatten(blocks[1..], j - 1, n);
      var p :| 0 <= p < |Flatten(blocks[1..])| && Flatten(blocks[1..])[p] == blocks[j][n];
      assert Flatten(blocks)[|blocks[0]| + p] == blocks[j][n];
    }
  }
}
