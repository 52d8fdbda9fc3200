/** Data blocks of a sorted string table (crates/sstable/src/block.rs). */
module Block {
  import opened Wrappers
  import opened Bytes
  import opened Levels

  const BLOCK_SIZE := 4096
  const ENTRY_HEADER := 15

  /** OutOfBounds stands for the panic of a slice beyond the end of the file. */
  datatype SsTableError = Io | InvalidMagic | FileTooSmall | OutOfBounds

  // ---------- one entry ----------

  /** The entries whose lengths survive the casts to u16 and u32. */
  predicate EntryFits(e: Entry) {
    |e.key| < U16_SIZE && |e.value| < U32_SIZE
  }

  function EntryHeader(e: Entry): (s: Bytes)
    ensures |s| == ENTRY_HEADER
  {
    ToLe(e.seqNo, 8) + [if e.tombstone then 1 else 0] + ToLe(|e.key| % U16_SIZE, 2) + ToLe(|e.value| % U32_SIZE, 4)
  }

  function EncodeEntry(e: Entry): (s: Bytes)
    ensures |s| == ENTRY_HEADER + |e.key| + |e.value|
  {
    EntryHeader(e) + e.key + e.value
  }

  function U64At(buf: Bytes, at: nat): (n: u64)
    requires at + 8 <= |buf|
  {
    Widths();
    FromLeBound(buf[at..at + 8]);
    FromLe(buf[at..at + 8])
  }

  /** The entry at the front of the buffer and its size. */
  function DecodeEntry(buf: Bytes): (r: Result<(Entry, nat), SsTableError>)
    ensures r.Ok? ==> r.value.1 == ENTRY_HEADER + |r.value.0.key| + |r.value.0.value| <= |buf|
  {
    if |buf| < ENTRY_HEADER then Err(Io) else
    var keyEnd := ENTRY_HEADER + FromLe(buf[9..11]);
    var valEnd := keyEnd + FromLe(buf[11..15]);
    if |buf| < valEnd then Err(Io)
    else Ok((Entry(buf[ENTRY_HEADER..keyEnd], U64At(buf, 0), buf[8] != 0, buf[keyEnd..valEnd]), valEnd))
  }

  lemma FourFields(s: Bytes, t: Byte, k: Bytes, v: Bytes, rest: Bytes)
    requires |s| == 8 && |k| == 2 && |v| == 4
    ensures var buf := s + [t] + k + v + rest;
            buf[0..8] == s && buf[8] == t && buf[9..11] == k && buf[11..15] == v
  {
  }

  lemma HeaderFields(e: Entry, rest: Bytes)
    requires EntryFits(e)
    ensures var buf := EntryHeader(e) + rest;
            U64At(buf, 0) == e.seqNo && (buf[8] != 0 <==> e.tombstone)
            && FromLe(buf[9..11]) == |e.key| && FromLe(buf[11..15]) == |e.value|
  {
    var s, k, v := ToLe(e.seqNo, 8), ToLe(|e.key|, 2), ToLe(|e.value|, 4);
    assert FromLe(s) == e.seqNo && FromLe(k) == |e.key| && FromLe(v) == |e.value| by {
      Widths();
      LeRoundTrip(e.seqNo, 8);
      LeRoundTrip(|e.key|, 2);
      LeRoundTrip(|e.value|, 4);
    }
    FourFields(s, if e.tombstone then 1 else 0, k, v, rest);
    assert EntryHeader(e) == s + [if e.tombstone then 1 else 0] + k + v by {
      SameLengths(e);
    }
  }

  lemma SameLengths(e: Entry)
    requires EntryFits(e)
    ensures |e.key| % U16_SIZE == |e.key| && |e.value| % U32_SIZE == |e.value|
  {
  }

  lemma EntryParts(h: Bytes, k: Bytes, v: Bytes, rest: Bytes)
    ensures var buf := h + k + v + rest;
            buf == h + (k + v + rest)
            && buf[|h|..|h| + |k|] == k && buf[|h| + |k|..|h| + |k| + |v|] == v
  {
  }

  lemma DecodeEncodedEntry(e: Entry, rest: Bytes)
    requires EntryFits(e)
    ensures DecodeEntry(EncodeEntry(e) + rest) == Ok((e, |EncodeEntry(e)|))
  {
    HeaderFields(e, e.key + e.value + rest);
    EntryParts(EntryHeader(e), e.key, e.value, rest);
  }

  /** Writing an entry is undone by reading it exactly for the entries within the
      length fields: a longer key, which the log does accept, comes back cut. */
  lemma EntryRoundTripExactly(e: Entry)
    ensures DecodeEntry(EncodeEntry(e)) == Ok((e, |EncodeEntry(e)|)) <==> EntryFits(e)
  {
    var buf := EncodeEntry(e);
    if EntryFits(e) {
      DecodeEncodedEntry(e, []);
      assert buf + [] == buf;
    } else {
      Widths();
      FromLeBound(buf[9..11]);
      FromLeBound(buf[11..15]);
    }
  }

  // ---------- many entries ----------

  function EncodeEntries(es: Table): Bytes {
    if es == [] then [] else EncodeEntry(es[0]) + EncodeEntries(es[1..])
  }

  predicate AllEntriesFit(es: Table) {
    forall i :: 0 <= i < |es| ==> EntryFits(es[i])
  }

  lemma {:induction false} EncodeEntriesAppend(es: Table, more: Table)
    ensures EncodeEntries(es + more) == EncodeEntries(es) + EncodeEntries(more)
  {
    if es == [] {
      assert es + more == more;
    } else {
      var first := EncodeEntry(es[0]);
      calc {
        EncodeEntries(es + more);
        { assert (es + more)[1..] == es[1..] + more; }
        first + EncodeEntries(es[1..] + more);
        { EncodeEntriesAppend(es[1..], more); }
        first + (EncodeEntries(es[1..]) + EncodeEntries(more));
        (first + EncodeEntries(es[1..])) + EncodeEntries(more);
      }
    }
  }

  lemma EncodeOneEntry(e: Entry)
    ensures EncodeEntries([e]) == EncodeEntry(e)
  {
    assert EncodeEntry(e) + [] == EncodeEntry(e);
  }

  /** Reading a stretch of bytes as entries to its end. */
  function DecodeEntries(buf: Bytes): Result<Table, SsTableError>
    decreases |buf|
  {
    if buf == [] then Ok([]) else
    match DecodeEntry(buf)
    case Err(e) => Err(e)
    case Ok((entry, n)) =>
      match DecodeEntries(buf[n..])
      case Err(e) => Err(e)
      case Ok(rest) => Ok([entry] + rest)
  }

  /** The entries that can be read before the end or the first that does not decode. */
  function ReadEntries(buf: Bytes): (r: Table)
    ensures DecodeEntries(buf).Ok? ==> r == DecodeEntries(buf).value
    decreases |buf|
  {
    if buf == [] || DecodeEntry(buf).Err? then [] else
    var (entry, n) := DecodeEntry(buf).value;
    [entry] + ReadEntries(buf[n..])
  }

  lemma DecodeFirst(e: Entry, rest: Bytes)
    requires EntryFits(e)
    ensures DecodeEntries(EncodeEntry(e) + rest) ==
            match DecodeEntries(rest) case Err(x) => Err(x) case Ok(es) => Ok([e] + es)
  {
    DecodeEncodedEntry(e, rest);
    assert (EncodeEntry(e) + rest)[|EncodeEntry(e)|..] == rest;
  }

  /** Entries written one after the other, wherever blocks were cut, read back as they were. */
  lemma {:induction false} DecodeEncodedEntries(es: Table)
    requires AllEntriesFit(es)
    ensures DecodeEntries(EncodeEntries(es)) == Ok(es)
  {
    if es != [] {
      DecodeEncodedEntries(es[1..]);
      DecodeFirst(es[0], EncodeEntries(es[1..]));
      assert [es[0]] + es[1..] == es;
    }
  }

  // ---------- builder ----------

  class BlockBuilder {
    var data: Bytes
    var lastKey: Bytes
    ghost var entries: Table

    ghost predicate Valid()
      reads this
    {
      && data == EncodeEntries(entries) && (entries == [] <==> data == [])
      && lastKey == LastKey(entries) && BlockShape(entries)
    }

    constructor ()
      ensures Valid() && entries == []
    {
      data, lastKey, entries := [], [], [];
    }

    /** False when the block is full; an empty block takes an entry of any size. */
    method Add(entry: Entry) returns (added: bool)
      requires Valid()
      modifies this
      ensures Valid()
      ensures added <==> old(entries) == [] || |EncodeEntries(old(entries) + [entry])| <= BLOCK_SIZE
      ensures entries == if added then old(entries) + [entry] else old(entries)
    {
      EncodeEntriesAppend(entries, [entry]);
      EncodeOneEntry(entry);
      var needed := 8 + 1 + 2 + 4 + |entry.key| + |entry.value|;
      if data != [] && |data| + needed > BLOCK_SIZE {
        return false;
      }
      data := data + EncodeEntry(entry);
      lastKey := entry.key;
      entries := entries + [entry];
      return true;
    }
  }

  function LastKey(es: Table): Bytes {
    if es == [] then [] else es[|es| - 1].key
  }

  /** A block is at most 4096 bytes or holds a single entry. */
  ghost predicate BlockShape(es: Table) {
    |es| <= 1 || |EncodeEntries(es)| <= 4096
  }

  // ---------- iterator ----------

  /** Reads entries until the end of the data; an error leaves it where it is. */
  class BlockIterator {
    const data: Bytes
    var pos: nat

    ghost predicate Valid()
      reads this
    {
      pos <= |data|
    }

    constructor (data: Bytes)
      ensures Valid() && this.data == data && pos == 0
    {
      this.data := data;
      pos := 0;
    }

    method Next() returns (item: Option<Result<Entry, SsTableError>>)
      requires Valid()
      modifies this
      ensures Valid()
      ensures var rest := data[old(pos)..];
              if rest == [] then item == None && pos == old(pos)
              else match DecodeEntry(rest)
                   case Err(e) => item == Some(Err(e)) && pos == old(pos)
                   case Ok((entry, n)) => item == Some(Ok(entry)) && pos == old(pos) + n
    {
      if pos >= |data| {
        return None;
      }
      match DecodeEntry(data[pos..]) {
        case Err(e) => return Some(Err(e));
        case Ok((entry, n)) =>
          pos := pos + n;
          return Some(Ok(entry));
      }
    }
  }
}
