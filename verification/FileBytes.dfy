/** The file formats byte by byte, as the comments that describe them give them
    (crates/wal/src/record.rs:1-4, crates/sstable/src/block.rs:1-2,
    crates/sstable/src/footer.rs:3-5, crates/sstable/src/builder.rs:80): what stands
    where, without the functions that write it. */
module FileBytes {
  import opened Bytes
  import opened Sequences
  import opened WalRecord
  import opened Levels
  import opened Block
  import opened SsTableBuilder
  import opened SsTableTheorems

  // ---------- integers ----------

  /** n without its i lowest bytes. */
  function Dropped(n: nat, i: nat): nat {
    if i == 0 then n else Dropped(n, i - 1) / 256
  }

  lemma {:induction false} DropFirst(n: nat, i: nat)
    ensures Dropped(n / 256, i) == Dropped(n, i + 1)
  {
    if i > 0 {
      DropFirst(n, i - 1);
    }
  }

  /** Little-endian: the i-th byte is the lowest one that is left without the i lower ones. */
  lemma {:induction false} LittleEndian(n: nat, width: nat, i: nat)
    requires i < width
    ensures ToLe(n, width)[i] == Dropped(n, i) % 256
  {
    if i > 0 {
      LittleEndian(n / 256, width - 1, i - 1);
      DropFirst(n, i - 1);
    }
  }

  /** An integer of a log header: one byte below 251, and otherwise a byte that names a
      width of 2, 4 or 8 bytes, the least that holds it, and the integer in that width. */
  lemma VarintBytes(n: nat)
    requires n < 0x1_0000_0000_0000_0000
    ensures var s := EncodeVarint(n);
            if n < 251 then s == [n]
            else if n < 0x1_0000 then |s| == 3 && s[0] == 251 && FromLe(s[1..]) == n
            else if n < 0x1_0000_0000 then |s| == 5 && s[0] == 252 && FromLe(s[1..]) == n
            else |s| == 9 && s[0] == 253 && FromLe(s[1..]) == n
  {
    Widths();
    var s := EncodeVarint(n);
    if n >= 251 {
      var w := |s| - 1;
      assert s[1..] == ToLe(n, w);
      LeRoundTrip(n, w);
    }
  }

  // ---------- the log ----------

  /** A log record: the checksum of all that follows it, the number, the length of the key,
      the length of the value or the largest u32 for a tombstone, the key, the value. */
  lemma RecordBytes(crc: Crc, r: WalRecord)
    requires |r.key| < 0x1_0000_0000 && (r.value.Some? ==> |r.value.value| < 0xFFFF_FFFF)
    ensures var s := Encode(crc, r);
            && |s| > 4 && FromLe(s[0..4]) == crc(s[4..])
            && s[4..] == EncodeVarint(r.seqNo) + EncodeVarint(|r.key|)
                         + EncodeVarint(if r.value.Some? then |r.value.value| else 0xFFFF_FFFF)
                         + r.key + (if r.value.Some? then r.value.value else [])
  {
    HeadAndTail(Checksum(crc, r), Payload(r));
    LengthsFit(r);
  }

  lemma HeadAndTail(c: Bytes, p: Bytes)
    requires |c| == 4
    ensures (c + p)[0..4] == c && (c + p)[4..] == p
  {
  }

  lemma LengthsFit(r: WalRecord)
    requires |r.key| < 0x1_0000_0000 && (r.value.Some? ==> |r.value.value| < 0xFFFF_FFFF)
    ensures HeaderOf(r) ==
            RecordHeader(r.seqNo, |r.key|, if r.value.Some? then |r.value.value| else 0xFFFF_FFFF)
  {
  }

  // ---------- table files ----------

  /** A block entry: number (8 bytes), tombstone flag (1), key length (2), value length (4),
      key, value. */
  lemma EntryBytes(e: Entry)
    requires |e.key| < 0x1_0000 && |e.value| < 0x1_0000_0000
    ensures var s := EncodeEntry(e);
            && |s| == 15 + |e.key| + |e.value|
            && FromLe(s[0..8]) == e.seqNo && s[8] == (if e.tombstone then 1 else 0)
            && FromLe(s[9..11]) == |e.key| && FromLe(s[11..15]) == |e.value|
            && s[15..15 + |e.key|] == e.key && s[15 + |e.key|..] == e.value
  {
    var s := EncodeEntry(e);
    HeaderFields(e, []);
    assert EntryHeader(e) + [] == EntryHeader(e) && s[..15] == EntryHeader(e);
    assert s[0..8] == EntryHeader(e)[0..8] && s[8] == EntryHeader(e)[8];
    assert s[9..11] == EntryHeader(e)[9..11] && s[11..15] == EntryHeader(e)[11..15];
  }

  /** An index entry: length of the last key (2 bytes), the key, place (8) and size (4) of the block. */
  lemma IndexEntryBytes(i: IndexEntry)
    requires |i.lastKey| < 0x1_0000
    ensures var s, end := EncodeIndexEntry(i), 2 + |i.lastKey|;
            && |s| == end + 12 && FromLe(s[0..2]) == |i.lastKey| && s[2..end] == i.lastKey
            && FromLe(s[end..end + 8]) == i.offset && FromLe(s[end + 8..]) == i.len
  {
    var s, end := EncodeIndexEntry(i), 2 + |i.lastKey|;
    var k, o, l := ToLe(|i.lastKey|, 2), ToLe(i.offset, 8), ToLe(i.len, 4);
    IndexParts(k, i.lastKey, o, l);
    assert |i.lastKey| % U16_SIZE == |i.lastKey|;
    Widths();
    LeRoundTrip(|i.lastKey|, 2);
    LeRoundTrip(i.offset, 8);
    LeRoundTrip(i.len, 4);
  }

  lemma IndexParts(k: Bytes, key: Bytes, o: Bytes, l: Bytes)
    requires |k| == 2 && |o| == 8 && |l| == 4
    ensures var s, end := k + key + o + l, 2 + |key|;
            s[0..2] == k && s[2..end] == key && s[end..end + 8] == o && s[end + 8..] == l
  {
  }

  /** The footer: its fields in the order of its comment, and the magic number. */
  lemma FooterBytes(f: Footer)
    ensures var s := EncodeFooter(f);
            && |s| == 56
            && FromLe(s[0..8]) == f.indexOffset && FromLe(s[8..12]) == f.indexLen
            && FromLe(s[12..20]) == f.bloomOffset && FromLe(s[20..24]) == f.bloomLen
            && FromLe(s[24..32]) == f.entryCount && FromLe(s[32..40]) == f.minSeq
            && FromLe(s[40..48]) == f.bloomBits && FromLe(s[48..52]) == f.bloomK
            && FromLe(s[52..56]) == 0x4C534D54
  {
    var s := EncodeFooter(f);
    FooterRoundTrip([], f);
    assert [] + s == s && s[|s| - 56..] == s;
  }

  /** A table file: data region, index, filter and a footer of 56 bytes that says where they
      are, with the number of entries, the lowest sequence number and the filter's parameters. */
  lemma TableFileBytes(blocks: seq<Table>, image: FilterImage, entryCount: u64, minSeq: u64)
    requires FileFits(blocks, image)
    ensures var file := FileOf(blocks, image, entryCount, minSeq);
            var data, index := EncodeEntries(Flatten(blocks)), EncodeIndex(IndexOf(blocks, 0));
            var bloom, end := |data| + |index|, |data| + |index| + |image.bytes|;
            && |file| == end + 56
            && file[0..|data|] == data && file[|data|..bloom] == index && file[bloom..end] == image.bytes
            && file[end..] == EncodeFooter(Footer(|data|, |index|, bloom, |image.bytes|, entryCount,
                                                  if minSeq == 0xFFFF_FFFF_FFFF_FFFF then 0 else minSeq,
                                                  image.bits, image.hashes))
  {
    var data, index := EncodeEntries(Flatten(blocks)), EncodeIndex(IndexOf(blocks, 0));
    var footer := MakeFooter(data, index, image, entryCount, minSeq);
    FooterExact(data, index, image, entryCount, minSeq);
    Regions(data, index, image.bytes, EncodeFooter(footer), |data| + |index|, |data| + |index| + |image.bytes|);
  }

  lemma Regions(data: Bytes, index: Bytes, bloom: Bytes, footer: Bytes, from: nat, end: nat)
    requires from == |data| + |index| && end == from + |bloom|
    ensures var file := data + index + bloom + footer;
            && |file| == end + |footer| && file[0..|data|] == data && file[|data|..from] == index
            && file[from..end] == bloom && file[end..] == footer
  {
  }

  /** The lowest sequence number: no entry has a lower one, and some entry has it unless
      there are none. */
  lemma {:induction false} LowestNumber(es: Table)
    ensures forall i :: 0 <= i < |es| ==> MinSeq(es) <= es[i].seqNo
    ensures MinSeq(es) == 0xFFFF_FFFF_FFFF_FFFF || exists i :: 0 <= i < |es| && es[i].seqNo == MinSeq(es)
  {
    if es != [] {
      var n := |es| - 1;
      LowestNumber(es[..n]);
      if MinSeq(es) != es[n].seqNo && MinSeq(es) != 0xFFFF_FFFF_FFFF_FFFF {
        var i :| 0 <= i < n && es[..n][i].seqNo == MinSeq(es[..n]);
        assert es[i].seqNo == MinSeq(es);
      }
    }
  }
}
