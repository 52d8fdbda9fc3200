/** Sorted string tables as the engine sees them, their metadata, the manifest
    and the level manager (crates/lsm/src/manifest.rs, crates/lsm/src/levels.rs). */
module Levels {
  import opened Wrappers
  import opened Bytes

  /** One entry of a sorted string table; a tombstone carries no value. */
  datatype Entry = Entry(key: Bytes, seqNo: u64, tombstone: bool, value: Bytes) {
    function ReadAt(readSeq: nat): Option<Bytes> {
      if !tombstone && seqNo <= readSeq then Some(value) else None
    }
  }

  /** The entries of a table, in file order. */
  type Table = seq<Entry>

  function Keys(t: Table): seq<Bytes> {
    seq(|t|, i requires 0 <= i < |t| => t[i].key)
  }

  ghost predicate AscendingKeys(t: Table) {
    forall i, j :: 0 <= i < j < |t| ==> Less(t[i].key, t[j].key)
  }

  predicate HasKey(t: Table, key: Bytes) {
    exists i :: 0 <= i < |t| && t[i].key == key
  }

  /** Looking a key up in the list of entries. */
  function TableGet(t: Table, key: Bytes, readSeq: nat): Option<Bytes> {
    if t == [] then None
    else if t[0].key == key then t[0].ReadAt(readSeq)
    else TableGet(t[1..], key, readSeq)
  }

  lemma {:induction false} TableGetAt(t: Table, i: nat, readSeq: nat)
    requires AscendingKeys(t) && i < |t|
    ensures TableGet(t, t[i].key, readSeq) == t[i].ReadAt(readSeq)
  {
    KeyOrder();
    if i > 0 {
      assert Less(t[0].key, t[i].key);
      TableGetAt(t[1..], i - 1, readSeq);
    }
  }

  lemma {:induction false} TableGetAbsent(t: Table, key: Bytes, readSeq: nat)
    requires !HasKey(t, key)
    ensures TableGet(t, key, readSeq) == None
  {
    if t != [] {
      assert t[0].key != key;
      assert forall i :: 0 <= i < |t[1..]| ==> t[1..][i] == t[i + 1];
      TableGetAbsent(t[1..], key, readSeq);
    }
  }

  // ---------- metadata ----------

  datatype SstMeta = SstMeta(id: u64, minKey: Bytes, maxKey: Bytes, entryCount: nat)

  predicate InRange(meta: SstMeta, key: Bytes) {
    AtMost(meta.minKey, key) && AtMost(key, meta.maxKey)
  }

  datatype Manifest = Manifest(walFlushedSeq: u64, nextSstId: u64, levels: seq<seq<SstMeta>>)

  /** The manifest of a directory that has none. */
  const FRESH_MANIFEST := Manifest(0, 0, [[], [], []])

  // ---------- the level manager ----------

  /** levels[0] is searched newest-first; `readers` holds the tables that could be opened. */
  datatype LevelState = LevelState(levels: seq<seq<SstMeta>>, readers: map<u64, Table>)

  function LevelIds(levels: seq<seq<SstMeta>>): set<u64> {
    set i, j | 0 <= i < |levels| && 0 <= j < |levels[i]| :: levels[i][j].id
  }

  /** Opening the files the manifest lists; `disk` holds those that open. */
  function OpenLevels(levels: seq<seq<SstMeta>>, disk: map<u64, Table>): LevelState {
    LevelState(levels, map id | id in disk && id in LevelIds(levels) :: disk[id])
  }

  /** A file in front of level 0. */
  function InFront(levels: seq<seq<SstMeta>>, meta: SstMeta): seq<seq<SstMeta>> {
    var padded := if levels == [] then [[]] else levels;
    padded[0 := [meta] + padded[0]]
  }

  /** Installing a table at the front of level 0. */
  function WithL0(s: LevelState, meta: SstMeta, table: Table): LevelState {
    LevelState(InFront(s.levels, meta), s.readers[meta.id := table])
  }

  class LevelManager {
    var levels: seq<seq<SstMeta>>
    var readers: map<u64, Table>

    constructor (levels: seq<seq<SstMeta>>, disk: map<u64, Table>)
      ensures State() == OpenLevels(levels, disk)
    {
      this.levels := levels;
      this.readers := map id | id in disk && id in LevelIds(levels) :: disk[id];
    }

    function State(): LevelState
      reads this
    {
      LevelState(levels, readers)
    }

    method AddL0(meta: SstMeta, table: Table)
      modifies this
      ensures State() == WithL0(old(State()), meta, table)
    {
      if levels == [] {
        levels := levels + [[]];
      }
      levels := levels[0 := [meta] + levels[0]];
      readers := readers[meta.id := table];
    }
  }
}
