/** Reading a sorted string table (crates/sstable/src/reader.rs): a point lookup
    that goes through the index to a single block, and iteration over the data
    region, both compared with the list of entries the table was built from. */
module SsTableReader {
  import opened Wrappers
  import opened Bytes
  import opened Levels
  import opened Block
  import opened SsTableBuilder

  // ---------- what the reader computes from bytes ----------

  function Slice(file: Bytes, start: nat, end: nat): Result<Bytes, SsTableError> {
    if start <= end <= |file| then Ok(file[start..end]) else Err(OutOfBounds)
  }

  /** The index entry at the front of the buffer and its size; None when it is cut short. */
  function DecodeIndexEntry(buf: Bytes): (r: Option<(IndexEntry, nat)>)
    ensures r.Some? ==> 0 < r.value.1 <= |buf|
  {
    if |buf| < 2 then None else
    var keyEnd := 2 + FromLe(buf[0..2]);
    if |buf| < keyEnd + 12 then None
    else Some((IndexEntry(buf[2..keyEnd], U64At(buf, keyEnd), U32At(buf, keyEnd + 8)), keyEnd + 12))
  }

  /** The first block whose last key is not below the key. */
  function FindBlock(index: Bytes, key: Bytes): Option<(nat, nat)>
    decreases |index|
  {
    match DecodeIndexEntry(index)
    case None => None
    case Some((entry, n)) =>
      if AtMost(key, entry.lastKey) then Some((entry.offset, entry.len)) else FindBlock(index[n..], key)
  }

  /** Reading a block to its end: a visible tombstone ends the search, a visible
      value is remembered. */
  function BlockGet(block: Bytes, key: Bytes, readSeq: nat, found: Option<Bytes>): Result<Option<Bytes>, SsTableError>
    decreases |block|
  {
    if block == [] then Ok(found) else
    match DecodeEntry(block)
    case Err(e) => Err(e)
    case Ok((entry, n)) =>
      if entry.key == key && entry.seqNo <= readSeq then
        if entry.tombstone then Ok(None) else BlockGet(block[n..], key, readSeq, Some(entry.value))
      else BlockGet(block[n..], key, readSeq, found)
  }

  function FilterAt(file: Bytes, footer: Footer): Result<FilterImage, SsTableError> {
    match Slice(file, footer.bloomOffset, footer.bloomOffset + footer.bloomLen)
    case Err(e) => Err(e)
    case Ok(bytes) => Ok(FilterImage(bytes, footer.bloomBits, footer.bloomK))
  }

  /** The footer and filter of a file, or why it does not open. */
  function OpenFile(file: Bytes): Result<(Footer, FilterImage), SsTableError> {
    if |file| < FOOTER_SIZE then Err(FileTooSmall) else
    match DecodeFooter(file)
    case None => Err(InvalidMagic)
    case Some(footer) =>
      match FilterAt(file, footer)
      case Err(e) => Err(e)
      case Ok(image) => Ok((footer, image))
  }

  /** Cutting the block out of the file that the index names, and reading it. */
  function ReadFound(file: Bytes, found: Option<(nat, nat)>, key: Bytes, readSeq: nat)
    : Result<Option<Bytes>, SsTableError>
  {
    match found
    case None => Ok(None)
    case Some((offset, len)) =>
      match Slice(file, offset, offset + len)
      case Err(e) => Err(e)
      case Ok(block) => BlockGet(block, key, readSeq, None)
  }

  function Lookup(lib: FilterLib, file: Bytes, footer: Footer, image: FilterImage, key: Bytes, readSeq: nat)
    : Result<Option<Bytes>, SsTableError>
  {
    if !lib.contains(image, key) then Ok(None) else
    match Slice(file, footer.indexOffset, footer.indexOffset + footer.indexLen)
    case Err(e) => Err(e)
    case Ok(index) =>
      ReadFound(file, FindBlock(index, key), key, readSeq)
  }

  // ---------- the reader ----------

  class SsTableReader {
    const lib: FilterLib
    const file: Bytes
    const footer: Footer
    const image: FilterImage

    constructor Assemble(lib: FilterLib, file: Bytes, footer: Footer, image: FilterImage)
      ensures this.lib == lib && this.file == file && this.footer == footer && this.image == image
    {
      this.lib, this.file, this.footer, this.image := lib, file, footer, image;
    }

    static method Open(lib: FilterLib, file: Bytes) returns (r: Result<SsTableReader, SsTableError>)
      ensures match OpenFile(file)
              case Err(e) => r == Err(e)
              case Ok((footer, image)) =>
                r.Ok? && fresh(r.value) && r.value.lib == lib && r.value.file == file
                && r.value.footer == footer && r.value.image == image
    {
      if |file| < FOOTER_SIZE {
        return Err(FileTooSmall);
      }
      var decoded := DecodeFooter(file);
      if decoded.None? {
        return Err(InvalidMagic);
      }
      var footer := decoded.value;
      var bloomStart := footer.bloomOffset;
      var bloomEnd := bloomStart + footer.bloomLen;
      if bloomEnd > |file| {
        return Err(OutOfBounds);
      }
      var image := FilterImage(file[bloomStart..bloomEnd], footer.bloomBits, footer.bloomK);
      var reader := new SsTableReader.Assemble(lib, file, footer, image);
      r := Ok(reader);
    }

    method Get(key: Bytes, readSeq: nat) returns (r: Result<Option<Bytes>, SsTableError>)
      ensures r == Lookup(lib, file, footer, image, key, readSeq)
    {
      if !lib.contains(image, key) {
        return Ok(None);
      }
      if footer.indexOffset + footer.indexLen > |file| {
        return Err(OutOfBounds);
      }
      var found := SearchIndex(file[footer.indexOffset..footer.indexOffset + footer.indexLen], key);
      assert Lookup(lib, file, footer, image, key, readSeq) == ReadFound(file, found, key, readSeq);
      if found.None? {
        return Ok(None);
      }
      var (offset, len) := found.value;
      r := ReadAt(file, offset, len, key, readSeq);
    }

    /** The block that the index names, read to its end. */
    static method ReadAt(file: Bytes, offset: nat, len: nat, key: Bytes, readSeq: nat)
      returns (r: Result<Option<Bytes>, SsTableError>)
      ensures r == ReadFound(file, Some((offset, len)), key, readSeq)
    {
      if offset + len > |file| {
        return Err(OutOfBounds);
      }
      r := SearchBlock(file[offset..offset + len], key, readSeq);
    }

    /** The index entry at a running position, field by field. */
    static lemma EntryInPlace(index: Bytes, pos: nat)
      requires pos < |index|
      ensures var keyStart := pos + 2;
              var keyLen := if keyStart <= |index| then FromLe(index[pos..keyStart]) else 0;
              if |index| < keyStart || |index| - keyStart < keyLen + 12 then DecodeIndexEntry(index[pos..]) == None
              else
                && DecodeIndexEntry(index[pos..]) ==
                   Some((IndexEntry(index[keyStart..keyStart + keyLen], U64At(index, keyStart + keyLen),
                                    U32At(index, keyStart + keyLen + 8)), 2 + keyLen + 12))
                && index[pos..][2 + keyLen + 12..] == index[keyStart + keyLen + 12..]
    {
      var rest := index[pos..];
      if pos + 2 <= |index| {
        assert rest[0..2] == index[pos..pos + 2];
        var keyLen := FromLe(rest[0..2]);
        if 2 + keyLen + 12 <= |rest| {
          assert rest[2..2 + keyLen] == index[pos + 2..pos + 2 + keyLen];
          SameField(index, pos, pos + 2 + keyLen, 8);
          SameField(index, pos, pos + 2 + keyLen + 8, 4);
        }
      }
    }

    /** The walk from a running position. */
    static ghost function WalkFrom(index: Bytes, pos: nat, key: Bytes): Option<(nat, nat)>
      requires pos <= |index|
      decreases |index| - pos
    {
      if |index| - pos < 2 then None else
      var keyStart := pos + 2;
      var keyLen := FromLe(index[pos..keyStart]);
      if |index| - keyStart < keyLen + 12 then None
      else if AtMost(key, index[keyStart..keyStart + keyLen])
      then Some((U64At(index, keyStart + keyLen), U32At(index, keyStart + keyLen + 8)))
      else WalkFrom(index, keyStart + keyLen + 12, key)
    }

    /** One turn of the walk, from an entry that lies whole in [pos, next). */
    static lemma WalkTurn(index: Bytes, pos: nat, key: Bytes, keyLen: nat, next: nat)
      requires next == pos + 2 + keyLen + 12 <= |index| && keyLen == FromLe(index[pos..pos + 2])
      ensures var keyStart := pos + 2;
              WalkFrom(index, pos, key) ==
              if AtMost(key, index[keyStart..keyStart + keyLen])
              then Some((U64At(index, keyStart + keyLen), U32At(index, keyStart + keyLen + 8)))
              else WalkFrom(index, next, key)
    {
    }

    static lemma FindBehind(buf: Bytes, key: Bytes, entry: IndexEntry, n: nat)
      requires DecodeIndexEntry(buf) == Some((entry, n)) && n <= |buf|
      ensures FindBlock(buf, key) ==
              if AtMost(key, entry.lastKey) then Some((entry.offset, entry.len)) else FindBlock(buf[n..], key)
    {
    }

    /** The same turn over what lies behind the position. */
    static lemma FindTurn(index: Bytes, pos: nat, key: Bytes, keyLen: nat, next: nat)
      requires next == pos + 2 + keyLen + 12 <= |index| && keyLen == FromLe(index[pos..pos + 2])
      ensures var keyStart := pos + 2;
              FindBlock(index[pos..], key) ==
              if AtMost(key, index[keyStart..keyStart + keyLen])
              then Some((U64At(index, keyStart + keyLen), U32At(index, keyStart + keyLen + 8)))
              else FindBlock(index[next..], key)
    {
      EntryInPlace(index, pos);
      var (entry, n) := DecodeIndexEntry(index[pos..]).value;
      FindBehind(index[pos..], key, entry, n);
    }

    static lemma FindNothing(index: Bytes, pos: nat, key: Bytes)
      requires pos <= |index|
      requires pos + 2 <= |index| ==> |index| - (pos + 2) < FromLe(index[pos..pos + 2]) + 12
      ensures FindBlock(index[pos..], key) == None && WalkFrom(index, pos, key) == None
    {
      if pos < |index| {
        EntryInPlace(index, pos);
      }
    }

    /** Walking from a position is walking what lies behind it. */
    static lemma {:induction false} WalkFromFinds(index: Bytes, pos: nat, key: Bytes)
      requires pos <= |index|
      ensures WalkFrom(index, pos, key) == FindBlock(index[pos..], key)
      decreases |index| - pos
    {
      if pos + 2 <= |index| && |index| - (pos + 2) >= FromLe(index[pos..pos + 2]) + 12 {
        var keyLen := FromLe(index[pos..pos + 2]);
        var next := pos + 2 + keyLen + 12;
        WalkFromFinds(index, next, key);
        WalkTurn(index, pos, key, keyLen, next);
        FindTurn(index, pos, key, keyLen, next);
      } else {
        FindNothing(index, pos, key);
      }
    }

    /** The walk over the index in `find_block`. */
    static method SearchIndex(index: Bytes, key: Bytes) returns (best: Option<(nat, nat)>)
      ensures best == FindBlock(index, key)
    {
      ghost var found := FindBlock(index, key);
      var pos := 0;
      assert found == WalkFrom(index, pos, key) by {
        WalkFromFinds(index, 0, key);
        assert index[0..] == index;
      }
      while pos < |index|
        invariant 0 <= pos <= |index|
        invariant found == WalkFrom(index, pos, key)
      {
        if |index| - pos < 2 {
          return None;
        }
        var keyStart := pos + 2;
        var keyLen := FromLe(index[pos..keyStart]);
        if |index| - keyStart < keyLen + 8 + 4 {
          return None;
        }
        WalkTurn(index, pos, key, keyLen, keyStart + keyLen + 12);
        var lastKey := index[keyStart..keyStart + keyLen];
        var offset := U64At(index, keyStart + keyLen);
        var len := U32At(index, keyStart + keyLen + 8);
        pos := keyStart + keyLen + 12;
        if AtMost(key, lastKey) {
          return Some((offset, len));
        }
      }
      best := None;
    }

    /** The loop of `get` over one block. */
    static method SearchBlock(block: Bytes, key: Bytes, readSeq: nat) returns (r: Result<Option<Bytes>, SsTableError>)
      ensures r == BlockGet(block, key, readSeq, None)
    {
      var entries := new BlockIterator(block);
      var result: Option<Bytes> := None;
      assert block[0..] == block;
      while true
        invariant fresh(entries) && entries.Valid() && entries.data == block
        invariant BlockGet(block, key, readSeq, None) == BlockGet(block[entries.pos..], key, readSeq, result)
        decreases |block| - entries.pos
      {
        ghost var rest := block[entries.pos..];
        var item := entries.Next();
        if item.None? {
          break;
        }
        if item.value.Err? {
          return Err(item.value.error);
        }
        var entry := item.value.value;
        assert block[entries.pos..] == rest[DecodeEntry(rest).value.1..];
        if entry.key == key && entry.seqNo <= readSeq {
          if entry.tombstone {
            return Ok(None);
          }
          result := Some(entry.value);
        }
      }
      r := Ok(result);
    }
  }

  lemma SameField(buf: Bytes, pos: nat, at: nat, width: nat)
    requires pos <= at && at + width <= |buf|
    ensures buf[pos..][at - pos..at - pos + width] == buf[at..at + width]
  {
  }

  /** Iterates over the data region as one stream of entries. */
  class SsTableIter {
    const file: Bytes
    const dataEnd: nat
    var pos: nat

    ghost predicate Valid()
      reads this
    {
      pos <= dataEnd <= |file|
    }

    constructor (file: Bytes, dataEnd: nat)
      requires dataEnd <= |file|
      ensures Valid() && this.file == file && this.dataEnd == dataEnd && pos == 0
    {
      this.file, this.dataEnd, pos := file, dataEnd, 0;
    }

    method Next() returns (item: Option<Result<Entry, SsTableError>>)
      requires Valid()
      modifies this
      ensures Valid()
      ensures var rest := file[old(pos)..dataEnd];
              if rest == [] then item == None && pos == old(pos)
              else match DecodeEntry(rest)
                   case Err(e) => item == Some(Err(e)) && pos == old(pos)
                   case Ok((entry, n)) => item == Some(Ok(entry)) && pos == old(pos) + n
    {
      if pos >= dataEnd {
        return None;
      }
      var buf := file[pos..dataEnd];
      var entries := new BlockIterator(buf);
      assert buf[0..] == buf;
      item := entries.Next();
      if item.Some? && item.value.Ok? {
        var e := item.value.value;
        pos := pos + (8 + 1 + 2 + 4 + |e.key| + |e.value|);
      }
    }

    /** Draining the iterator yields every entry of the data region. */
    method Drain() returns (r: Result<Table, SsTableError>)
      requires Valid() && pos == 0
      modifies this
      ensures r == DecodeEntries(file[..dataEnd])
    {
      var es: Table := [];
      assert file[0..dataEnd] == file[..dataEnd];
      assert forall more: Table :: es + more == more;
      while true
        invariant Valid()
        invariant DecodeEntries(file[..dataEnd]) ==
                  match DecodeEntries(file[pos..dataEnd]) case Err(e) => Err(e) case Ok(rest) => Ok(es + rest)
        decreases dataEnd - pos
      {
        ghost var rest := file[pos..dataEnd];
        var item := Next();
        if item.None? {
          break;
        }
        if item.value.Err? {
          return Err(item.value.error);
        }
        var entry := item.value.value;
        assert file[pos..dataEnd] == rest[DecodeEntry(rest).value.1..];
        assert forall more: Table :: es + ([entry] + more) == es + [entry] + more;
        es := es + [entry];
      }
      assert es + [] == es;
      r := Ok(es);
    }
  }
}
