/** Building a sorted string table (crates/sstable/src/builder.rs,
    crates/sstable/src/footer.rs): entries packed into blocks, an index of last
    keys, a membership filter and a footer. */
module SsTableBuilder {
  import opened Wrappers
  import opened Bytes
  import opened Sequences
  import opened Levels
  import opened Block

  // ---------- the membership filter ----------

  /** What the footer and the file keep of a filter. */
  datatype FilterImage = FilterImage(bytes: Bytes, bits: u64, hashes: u32)

  /** The Bloom filter library: the image of a filter made for some number of
      keys after inserting them, and membership in the filter read back from an image. */
  datatype FilterLib = FilterLib(image: (nat, seq<Bytes>) -> FilterImage, contains: (FilterImage, Bytes) -> bool)

  ghost predicate NoFalseNegatives(lib: FilterLib) {
    forall n: nat, keys: seq<Bytes>, key: Bytes {:trigger lib.contains(lib.image(n, keys), key)} ::
      key in keys ==> lib.contains(lib.image(n, keys), key)
  }

  // ---------- footer ----------

  const FOOTER_SIZE := 56
  const MAGIC: u32 := 0x4C534D54

  datatype Footer = Footer(
    indexOffset: u64, indexLen: u32, bloomOffset: u64, bloomLen: u32,
    entryCount: u64, minSeq: u64, bloomBits: u64, bloomK: u32)

  function EncodeFooter(f: Footer): (s: Bytes)
    ensures |s| == FOOTER_SIZE
  {
    ToLe(f.indexOffset, 8) + ToLe(f.indexLen, 4) + ToLe(f.bloomOffset, 8) + ToLe(f.bloomLen, 4)
    + ToLe(f.entryCount, 8) + ToLe(f.minSeq, 8) + ToLe(f.bloomBits, 8) + ToLe(f.bloomK, 4) + ToLe(MAGIC, 4)
  }

  function U32At(buf: Bytes, at: nat): (n: u32)
    requires at + 4 <= |buf|
  {
    Widths();
    FromLeBound(buf[at..at + 4]);
    FromLe(buf[at..at + 4])
  }

  /** The footer in the last 56 bytes, if the magic number is there. */
  function DecodeFooter(buf: Bytes): Option<Footer> {
    if |buf| < FOOTER_SIZE then None else
    var b := buf[|buf| - FOOTER_SIZE..];
    if U32At(b, 52) != MAGIC then None else
    Some(Footer(U64At(b, 0), U32At(b, 8), U64At(b, 12), U32At(b, 20),
                U64At(b, 24), U64At(b, 32), U64At(b, 40), U32At(b, 48)))
  }

  lemma FieldAt8(before: Bytes, n: u64, after: Bytes)
    ensures U64At(before + ToLe(n, 8) + after, |before|) == n
  {
    Widths();
    LeRoundTrip(n, 8);
    assert (before + ToLe(n, 8) + after)[|before|..|before| + 8] == ToLe(n, 8);
  }

  lemma FieldAt4(before: Bytes, n: u32, after: Bytes)
    ensures U32At(before + ToLe(n, 4) + after, |before|) == n
  {
    Widths();
    LeRoundTrip(n, 4);
    assert (before + ToLe(n, 4) + after)[|before|..|before| + 4] == ToLe(n, 4);
  }

  /** Nine fields end to end, each between those before it and those behind it. */
  lemma NineFields(a: Bytes, b: Bytes, c: Bytes, d: Bytes, e: Bytes, f: Bytes, g: Bytes, h: Bytes, m: Bytes)
    ensures var s := a + b + c + d + e + f + g + h + m;
            && s == a + (b + (c + (d + (e + (f + (g + (h + m)))))))
            && s == a + b + (c + (d + (e + (f + (g + (h + m))))))
            && s == a + b + c + (d + (e + (f + (g + (h + m)))))
            && s == a + b + c + d + (e + (f + (g + (h + m))))
            && s == a + b + c + d + e + (f + (g + (h + m)))
            && s == a + b + c + d + e + f + (g + (h + m))
            && s == a + b + c + d + e + f + g + (h + m)
            && s == a + b + c + d + e + f + g + h + m
  {
    Assoc(a + b + c + d + e + f + g, h, m);
    Assoc(a + b + c + d + e + f, g, h + m);
    Assoc(a + b + c + d + e, f, g + (h + m));
    Assoc(a + b + c + d, e, f + (g + (h + m)));
    Assoc(a + b + c, d, e + (f + (g + (h + m))));
    Assoc(a + b, c, d + (e + (f + (g + (h + m)))));
    Assoc(a, b, c + (d + (e + (f + (g + (h + m))))));
  }

  /** A footer is read back from the end of whatever precedes it. */
  lemma FooterRoundTrip(before: Bytes, footer: Footer)
    ensures DecodeFooter(before + EncodeFooter(footer)) == Some(footer)
  {
    var buf := before + EncodeFooter(footer);
    assert buf[|buf| - FOOTER_SIZE..] == EncodeFooter(footer);
    var a, b, c, d := ToLe(footer.indexOffset, 8), ToLe(footer.indexLen, 4),
                      ToLe(footer.bloomOffset, 8), ToLe(footer.bloomLen, 4);
    var e, f, g, h, m := ToLe(footer.entryCount, 8), ToLe(footer.minSeq, 8),
                         ToLe(footer.bloomBits, 8), ToLe(footer.bloomK, 4), ToLe(MAGIC, 4);
    NineFields(a, b, c, d, e, f, g, h, m);
    assert [] + a == a;
    FieldAt8([], footer.indexOffset, b + (c + (d + (e + (f + (g + (h + m)))))));
    FieldAt4(a, footer.indexLen, c + (d + (e + (f + (g + (h + m))))));
    FieldAt8(a + b, footer.bloomOffset, d + (e + (f + (g + (h + m)))));
    FieldAt4(a + b + c, footer.bloomLen, e + (f + (g + (h + m))));
    FieldAt8(a + b + c + d, footer.entryCount, f + (g + (h + m)));
    FieldAt8(a + b + c + d + e, footer.minSeq, g + (h + m));
    FieldAt8(a + b + c + d + e + f, footer.bloomBits, h + m);
    FieldAt4(a + b + c + d + e + f + g, footer.bloomK, m);
    assert a + b + c + d + e + f + g + h + m + [] == a + b + c + d + e + f + g + h + m;
    FieldAt4(a + b + c + d + e + f + g + h, MAGIC, []);
  }

  // ---------- index ----------

  datatype IndexEntry = IndexEntry(lastKey: Bytes, offset: u64, len: u32)

  function EncodeIndexEntry(i: IndexEntry): (s: Bytes)
    ensures |s| == 2 + |i.lastKey| + 12
  {
    ToLe(|i.lastKey| % U16_SIZE, 2) + i.lastKey + ToLe(i.offset, 8) + ToLe(i.len, 4)
  }

  function EncodeIndex(index: seq<IndexEntry>): Bytes {
    if index == [] then [] else EncodeIndexEntry(index[0]) + EncodeIndex(index[1..])
  }

  lemma {:induction false} EncodeIndexSnoc(index: seq<IndexEntry>, last: IndexEntry)
    ensures EncodeIndex(index + [last]) == EncodeIndex(index) + EncodeIndexEntry(last)
  {
    if index == [] {
      assert EncodeIndex([last]) == EncodeIndexEntry(last) + [];
    } else {
      var first := EncodeIndexEntry(index[0]);
      calc {
        EncodeIndex(index + [last]);
        { assert (index + [last])[1..] == index[1..] + [last]; }
        first + EncodeIndex(index[1..] + [last]);
        { EncodeIndexSnoc(index[1..], last); }
        first + (EncodeIndex(index[1..]) + EncodeIndexEntry(last));
        (first + EncodeIndex(index[1..])) + EncodeIndexEntry(last);
      }
    }
  }

  /** The index of blocks laid end to end from `offset` on: each block's last key, place and size. */
  function IndexOf(blocks: seq<Table>, offset: nat): seq<IndexEntry> {
    if blocks == [] then [] else
    var size := |EncodeEntries(blocks[0])|;
    [IndexEntryFor(blocks[0], offset)] + IndexOf(blocks[1..], offset + size)
  }

  function IndexEntryFor(block: Table, offset: nat): IndexEntry {
    IndexEntry(LastKey(block), offset % U64_SIZE, |EncodeEntries(block)| % U32_SIZE)
  }

  lemma IndexOfCons(block: Table, rest: seq<Table>, offset: nat)
    ensures IndexOf([block] + rest, offset) ==
            [IndexEntryFor(block, offset)] + IndexOf(rest, offset + |EncodeEntries(block)|)
  {
    assert ([block] + rest)[1..] == rest;
  }

  lemma IndexOfTwo(first: Table, rest: seq<Table>, last: Table, offset: nat, next: nat, tail: IndexEntry)
    requires next == offset + |EncodeEntries(first)|
    requires IndexOf(rest + [last], next) == IndexOf(rest, next) + [tail]
    ensures IndexOf([first] + (rest + [last]), offset) == IndexOf([first] + rest, offset) + [tail]
  {
    IndexOfCons(first, rest + [last], offset);
    IndexOfCons(first, rest, offset);
    Assoc([IndexEntryFor(first, offset)], IndexOf(rest, next), [tail]);
  }

  /** The last block starts where the others end. */
  lemma {:induction false} IndexOfSnoc(blocks: seq<Table>, last: Table, offset: nat, end: nat)
    requires end == offset + |EncodeEntries(Flatten(blocks))|
    ensures IndexOf(blocks + [last], offset) == IndexOf(blocks, offset) + [IndexEntryFor(last, end)]
  {
    if blocks == [] {
      IndexOfCons(last, [], offset);
      assert [last] + [] == [last];
    } else {
      var first, rest := blocks[0], blocks[1..];
      var next := offset + |EncodeEntries(first)|;
      assert end == next + |EncodeEntries(Flatten(rest))| by {
        EncodeEntriesAppend(first, Flatten(rest));
      }
      IndexOfSnoc(rest, last, next, end);
      IndexOfTwo(first, rest, last, offset, next, IndexEntryFor(last, end));
      assert blocks == [first] + rest && blocks + [last] == [first] + (rest + [last]);
    }
  }

  /** Appending a block: the data region, the index and the contents each grow at the end. */
  lemma SealStep(sealed: seq<Table>, block: Table)
    ensures Flatten(sealed + [block]) == Flatten(sealed) + block
    ensures EncodeEntries(Flatten(sealed + [block])) == EncodeEntries(Flatten(sealed)) + EncodeEntries(block)
    ensures IndexOf(sealed + [block], 0) ==
            IndexOf(sealed, 0) + [IndexEntryFor(block, |EncodeEntries(Flatten(sealed))|)]
  {
    assert Flatten(sealed + [block]) == Flatten(sealed) + block by {
      FlattenSnoc(sealed, block);
    }
    assert EncodeEntries(Flatten(sealed) + block) == EncodeEntries(Flatten(sealed)) + EncodeEntries(block) by {
      EncodeEntriesAppend(Flatten(sealed), block);
    }
    assert IndexOf(sealed + [block], 0) ==
           IndexOf(sealed, 0) + [IndexEntryFor(block, |EncodeEntries(Flatten(sealed))|)] by {
      IndexOfSnoc(sealed, block, 0, |EncodeEntries(Flatten(sealed))|);
    }
  }

  // ---------- the file ----------

  /** Non-empty blocks, each within 4096 bytes unless it holds one entry, and each but the
      last without room for the entry behind it. */
  ghost predicate Packed(blocks: seq<Table>) {
    && (forall i :: 0 <= i < |blocks| ==> blocks[i] != [] && BlockShape(blocks[i]))
    && forall i :: 0 <= i < |blocks| - 1 ==> NoRoom(blocks[i], blocks[i + 1][0])
  }

  ghost predicate NoRoom(block: Table, e: Entry) {
    |EncodeEntries(block + [e])| > 4096
  }

  /** A block more, with an entry there was no room for. */
  lemma PackedSnoc(blocks: seq<Table>, block: Table)
    requires Packed(blocks) && block != [] && BlockShape(block)
    requires blocks != [] ==> NoRoom(blocks[|blocks| - 1], block[0])
    ensures Packed(blocks + [block])
  {
    var all := blocks + [block];
    forall i | 0 <= i < |all| - 1 ensures NoRoom(all[i], all[i + 1][0]) {
      assert all[i] == blocks[i] && (i + 1 < |blocks| ==> all[i + 1] == blocks[i + 1]);
    }
  }

  /** The same, as blocks are added at the end. */
  ghost predicate Tight(blocks: seq<Table>) {
    blocks == [] ||
    var n := |blocks| - 1;
    && Tight(blocks[..n]) && blocks[n] != [] && BlockShape(blocks[n])
    && (n > 0 ==> NoRoom(blocks[n - 1], blocks[n][0]))
  }

  lemma {:induction false} TightIsPacked(blocks: seq<Table>)
    requires Tight(blocks)
    ensures Packed(blocks)
  {
    if blocks != [] {
      var n := |blocks| - 1;
      TightIsPacked(blocks[..n]);
      PackedSnoc(blocks[..n], blocks[n]);
      assert blocks[..n] + [blocks[n]] == blocks;
    }
  }

  lemma TightSnoc(blocks: seq<Table>, block: Table)
    ensures Tight(blocks + [block]) <==>
            Tight(blocks) && block != [] && BlockShape(block)
            && (blocks != [] ==> NoRoom(blocks[|blocks| - 1], block[0]))
  {
    assert (blocks + [block])[..|blocks|] == blocks;
  }

  lemma PackedTail(blocks: seq<Table>)
    requires Packed(blocks) && blocks != []
    ensures Packed(blocks[1..]) && (|blocks| > 1 ==> NoRoom(blocks[0], blocks[1][0]))
  {
    var rest := blocks[1..];
    forall i | 0 <= i < |rest| - 1 ensures NoRoom(rest[i], rest[i + 1][0]) {
      assert rest[i] == blocks[i + 1] && rest[i + 1] == blocks[i + 2];
    }
  }

  /** The front of a block takes no more room than the block. */
  lemma FrontFits(block: Table, n: nat)
    requires n < |block|
    ensures |EncodeEntries(block[..n] + [block[n]])| <= |EncodeEntries(block)|
  {
    assert block == block[..n] + [block[n]] + block[n + 1..];
    EncodeEntriesAppend(block[..n] + [block[n]], block[n + 1..]);
  }

  lemma SharedFront(block: Table, rest: Table, n: nat)
    requires n < |block|
    ensures (block + rest)[..n] == block[..n] && (block + rest)[n] == block[n]
  {
  }

  lemma FirstOfRest(blocks: seq<Table>, n: nat)
    requires blocks != [] && n == |blocks[0]| < |Flatten(blocks)| && forall i :: 0 <= i < |blocks| ==> blocks[i] != []
    ensures |blocks| > 1 && Flatten(blocks)[..n] == blocks[0] && Flatten(blocks)[n] == blocks[1][0]
  {
    var rest := Flatten(blocks[1..]);
    assert Flatten(blocks) == blocks[0] + rest;
    assert |blocks| > 1 by {
      assert blocks[1..] == [] ==> rest == [];
    }
    assert rest[0] == blocks[1][0];
  }

  /** A first block cannot be shorter in one packed layout than in another. */
  lemma FirstNotShorter(a: seq<Table>, b: seq<Table>)
    requires Packed(a) && Packed(b) && a != [] && b != [] && Flatten(a) == Flatten(b)
    ensures |a[0]| >= |b[0]|
  {
    var n := |a[0]|;
    if n < |b[0]| {
      FrontFits(b[0], n);
      PackedTail(a);
      SharedFront(b[0], Flatten(b[1..]), n);
      FirstOfRest(a, n);
    }
  }

  /** A list of entries has one packed layout: blocks are cut only where they must be. */
  lemma {:induction false} PackedOnce(a: seq<Table>, b: seq<Table>)
    requires Packed(a) && Packed(b) && Flatten(a) == Flatten(b)
    ensures a == b
  {
    if a == [] || b == [] {
      assert a != [] ==> Flatten(a) != [];
      assert b != [] ==> Flatten(b) != [];
    } else {
      FirstNotShorter(a, b);
      FirstNotShorter(b, a);
      var n := |a[0]|;
      assert a[0] == Flatten(a)[..n] && b[0] == Flatten(b)[..n];
      assert Flatten(a[1..]) == Flatten(a)[n..] && Flatten(b[1..]) == Flatten(b)[n..];
      PackedTail(a);
      PackedTail(b);
      PackedOnce(a[1..], b[1..]);
      assert a == [a[0]] + a[1..] && b == [b[0]] + b[1..];
    }
  }

  function MakeFooter(dataBuf: Bytes, indexBuf: Bytes, image: FilterImage, entryCount: u64, minSeq: u64): Footer {
    var indexOffset := |dataBuf|;
    var indexLen := |indexBuf| % U32_SIZE;
    Footer(indexOffset % U64_SIZE, indexLen, (indexOffset + indexLen) % U64_SIZE, |image.bytes| % U32_SIZE,
           entryCount, if minSeq == U64_MAX then 0 else minSeq, image.bits, image.hashes)
  }

  /** Data region, index, filter, footer. */
  function FileOf(blocks: seq<Table>, image: FilterImage, entryCount: u64, minSeq: u64): Bytes {
    var dataBuf, indexBuf := EncodeEntries(Flatten(blocks)), EncodeIndex(IndexOf(blocks, 0));
    dataBuf + indexBuf + image.bytes + EncodeFooter(MakeFooter(dataBuf, indexBuf, image, entryCount, minSeq))
  }

  function MinSeq(es: Table): u64 {
    if es == [] then U64_MAX else
    var before := MinSeq(es[..|es| - 1]);
    if es[|es| - 1].seqNo < before then es[|es| - 1].seqNo else before
  }

  // ---------- builder ----------

  class SsTableBuilder {
    const lib: FilterLib
    const expected: nat
    var blocks: seq<IndexEntry>
    var currentBlock: BlockBuilder
    var dataBuf: Bytes
    /** The keys inserted into the filter. */
    var inserted: seq<Bytes>
    var entryCount: u64
    var minSeq: u64
    /** The blocks sealed so far, and everything added so far. */
    ghost var sealed: seq<Table>
    ghost var added: Table

    ghost predicate Laid()
      reads this`currentBlock, this`dataBuf, this`blocks, this`sealed, currentBlock
    {
      && currentBlock.Valid() && dataBuf == EncodeEntries(Flatten(sealed))
      && blocks == IndexOf(sealed, 0) && Tight(Cut())
    }

    /** The blocks as cut so far, the open one last. */
    ghost function Cut(): seq<Table>
      reads this`currentBlock, this`sealed, currentBlock
    {
      if currentBlock.entries == [] then sealed else sealed + [currentBlock.entries]
    }

    /** Only an empty builder has an empty open block. */
    ghost predicate Open()
      reads this`currentBlock, this`sealed, currentBlock
    {
      currentBlock.entries == [] ==> sealed == []
    }

    /** The entries in the data region, then those of the open block. */
    ghost function Contents(): Table
      reads this`currentBlock, this`sealed, currentBlock
    {
      Flatten(sealed) + currentBlock.entries
    }

    ghost predicate Valid()
      reads this, currentBlock
    {
      Laid() && Open() && Contents() == added && Counted()
    }

    ghost predicate Counted()
      reads this`inserted, this`entryCount, this`minSeq, this`added
    {
      inserted == Keys(added) && entryCount == |added| % U64_SIZE && minSeq == MinSeq(added)
    }

    constructor (lib: FilterLib, expected: nat)
      ensures Valid() && fresh(currentBlock) && added == [] && this.lib == lib && this.expected == expected
    {
      this.lib, this.expected := lib, expected;
      currentBlock := new BlockBuilder();
      blocks, dataBuf, inserted, entryCount, minSeq := [], [], [], 0, U64_MAX;
      sealed, added := [], [];
    }

    /** Adds an entry; the source asks its callers for ascending keys and does not check. */
    method Add(key: Bytes, seqNo: u64, value: Option<Bytes>)
      requires Valid()
      modifies this, currentBlock
      ensures Valid() && (currentBlock == old(currentBlock) || fresh(currentBlock))
      ensures added == old(added) + [EntryOf(key, seqNo, value)]
    {
      var entry := EntryOf(key, seqNo, value);
      Count(entry);
      Place(entry);
    }

    /** The filter, the entry count and the lowest sequence number. */
    method Count(entry: Entry)
      requires Counted()
      modifies this`inserted, this`entryCount, this`minSeq, this`added
      ensures Counted() && added == old(added) + [entry]
    {
      inserted := inserted + [entry.key];
      entryCount := (entryCount + 1) % U64_SIZE;
      if entry.seqNo < minSeq {
        minSeq := entry.seqNo;
      }
      AddedSnoc(added, entry);
      CountSnoc(|added|);
      added := added + [entry];
    }

    /** Puts the entry into the current block, or into a fresh one when it is full. */
    method Place(entry: Entry)
      requires Laid() && Open()
      modifies currentBlock, this`currentBlock, this`blocks, this`dataBuf, this`sealed
      ensures Laid() && Open() && (currentBlock == old(currentBlock) || fresh(currentBlock))
      ensures Contents() == old(Contents()) + [entry]
    {
      ghost var open, cut := currentBlock.entries, sealed;
      var fitted := currentBlock.Add(entry);
      if fitted {
        Assoc(Flatten(cut), open, [entry]);
        OpenGrows(cut, open, entry);
        assert Cut() == cut + [open + [entry]];
      } else {
        StartBlock(entry);
      }
    }

    /** Seals the current block, which has no room for the entry, and starts the next with it. */
    method StartBlock(entry: Entry)
      requires Laid() && currentBlock.entries != [] && NoRoom(currentBlock.entries, entry)
      modifies this`currentBlock, this`blocks, this`dataBuf, this`sealed
      ensures Laid() && Open() && fresh(currentBlock)
      ensures Contents() == old(Contents()) + [entry]
    {
      ghost var cut := Cut();
      SealBlock();
      var fitted := currentBlock.Add(entry);
      assert currentBlock.entries == [] + [entry] == [entry];
      TightSnoc(cut, [entry]);
      assert Cut() == cut + [[entry]];
    }

    /** Closes the current block: its bytes join the data region, its last key the index. */
    method SealBlock()
      requires Laid()
      modifies this`currentBlock, this`blocks, this`dataBuf, this`sealed
      ensures Laid() && fresh(currentBlock) && currentBlock.entries == []
      ensures Flatten(sealed) == old(Contents()) && sealed == old(Cut())
    {
      var builder := currentBlock;
      currentBlock := new BlockBuilder();
      if builder.data == [] {
        return;
      }
      SealStep(sealed, builder.entries);
      var offset := |dataBuf| % U64_SIZE;
      var len := |builder.data| % U32_SIZE;
      dataBuf := dataBuf + builder.data;
      blocks := blocks + [IndexEntry(builder.lastKey, offset, len)];
      sealed := sealed + [builder.entries];
    }

    /** Seals the last block and lays out the file. */
    method Finish() returns (file: Bytes, image: FilterImage, ghost layout: seq<Table>)
      requires Valid()
      modifies this
      ensures Flatten(layout) == old(added) && Packed(layout)
      ensures image == lib.image(expected, Keys(old(added)))
      ensures file == FileOf(layout, image, |old(added)| % U64_SIZE, MinSeq(old(added)))
    {
      ghost var all := added;
      SealBlock();
      layout := sealed;
      TightIsPacked(layout);
      var indexBuf := IndexBytes(blocks);
      image := lib.image(expected, inserted);
      var footer := MakeFooter(dataBuf, indexBuf, image, entryCount, minSeq);
      file := dataBuf + indexBuf + image.bytes + EncodeFooter(footer);
    }
  }

  /** The open block takes one entry more. */
  lemma OpenGrows(sealed: seq<Table>, open: Table, e: Entry)
    requires Tight(if open == [] then sealed else sealed + [open]) && BlockShape(open + [e])
    requires open == [] ==> sealed == []
    ensures Tight(sealed + [open + [e]])
  {
    TightSnoc(sealed, open);
    TightSnoc(sealed, open + [e]);
  }

  /** The index block that `finish` writes. */
  method IndexBytes(index: seq<IndexEntry>) returns (indexBuf: Bytes)
    ensures indexBuf == EncodeIndex(index)
  {
    indexBuf := [];
    for i := 0 to |index|
      invariant indexBuf == EncodeIndex(index[..i])
    {
      assert index[..i + 1] == index[..i] + [index[i]];
      EncodeIndexSnoc(index[..i], index[i]);
      indexBuf := indexBuf + EncodeIndexEntry(index[i]);
    }
    assert index[..|index|] == index;
  }

  /** A missing value is a tombstone with no bytes. */
  function EntryOf(key: Bytes, seqNo: u64, value: Option<Bytes>): Entry {
    Entry(key, seqNo, value.None?, if value.Some? then value.value else [])
  }

  lemma CountSnoc(n: nat)
    ensures (n % U64_SIZE + 1) % U64_SIZE == (n + 1) % U64_SIZE
  {
  }

  lemma AddedSnoc(es: Table, e: Entry)
    ensures Keys(es + [e]) == Keys(es) + [e.key]
    ensures MinSeq(es + [e]) == if e.seqNo < MinSeq(es) then e.seqNo else MinSeq(es)
  {
    assert (es + [e])[..|es|] == es;
  }
}
