/** Compaction of level 0 into level 1 (crates/lsm/src/compaction.rs): which
    tables take part, the manifest update, and installing the new table. */
module Compaction {
  import opened Wrappers
  import opened Bytes
  import opened Sequences
  import opened Levels
  import opened Block
  import opened SsTableBuilder
  import opened SsTableReader
  import opened SsTableTheorems
  import opened Merge

  // ---------- which tables take part ----------

  function SmallestMin(metas: seq<SstMeta>): Bytes
    requires metas != []
  {
    if |metas| == 1 then metas[0].minKey else
    var rest := SmallestMin(metas[1..]);
    if Less(rest, metas[0].minKey) then rest else metas[0].minKey
  }

  function LargestMax(metas: seq<SstMeta>): Bytes
    requires metas != []
  {
    if |metas| == 1 then metas[0].maxKey else
    var rest := LargestMax(metas[1..]);
    if Less(metas[0].maxKey, rest) then rest else metas[0].maxKey
  }

  /** The level-1 tables whose range meets [minKey, maxKey]. */
  function Overlapping(level: seq<SstMeta>, minKey: Bytes, maxKey: Bytes): seq<SstMeta> {
    if level == [] then [] else
    var rest := Overlapping(level[1..], minKey, maxKey);
    if AtMost(level[0].minKey, maxKey) && AtMost(minKey, level[0].maxKey) then [level[0]] + rest else rest
  }

  datatype Plan = Plan(l0: seq<SstMeta>, overlapping: seq<SstMeta>, minKey: Bytes, maxKey: Bytes)

  function Level1(levels: seq<seq<SstMeta>>): seq<SstMeta> {
    if |levels| > 1 then levels[1] else []
  }

  /** Nothing to do without level-0 tables. */
  function PlanFor(s: LevelState): Option<Plan> {
    if s.levels == [] || s.levels[0] == [] then None else
    var l0 := s.levels[0];
    Some(Plan(l0, Overlapping(Level1(s.levels), SmallestMin(l0), LargestMax(l0)), SmallestMin(l0), LargestMax(l0)))
  }

  /** The tables of some files, leaving out those that could not be opened. */
  function TablesOf(metas: seq<SstMeta>, readers: map<u64, Table>): seq<Table> {
    if metas == [] then [] else
    (if metas[0].id in readers then [readers[metas[0].id]] else []) + TablesOf(metas[1..], readers)
  }

  function InputTables(s: LevelState, plan: Plan): seq<Table> {
    TablesOf(plan.l0 + plan.overlapping, s.readers)
  }

  function Ids(metas: seq<SstMeta>): set<u64> {
    set i | 0 <= i < |metas| :: metas[i].id
  }

  function CompactedIds(plan: Plan): set<u64> {
    Ids(plan.l0 + plan.overlapping)
  }

  /** The new table gets the range of the level-0 tables only. */
  function NewMeta(plan: Plan, id: u64): SstMeta {
    SstMeta(id, plan.minKey, plan.maxKey, 0)
  }

  // ---------- the manifest update ----------

  /** The id of the next table. */
  function NextId(m: Manifest): u64 {
    (m.nextSstId + 1) % U64_SIZE
  }

  function Retain(level: seq<SstMeta>, ids: set<u64>): seq<SstMeta> {
    if level == [] then []
    else if level[0].id in ids then Retain(level[1..], ids)
    else [level[0]] + Retain(level[1..], ids)
  }

  function RetainAll(levels: seq<seq<SstMeta>>, ids: set<u64>): seq<seq<SstMeta>> {
    seq(|levels|, i requires 0 <= i < |levels| => Retain(levels[i], ids))
  }

  /** At least two levels. */
  function Padded(levels: seq<seq<SstMeta>>): (r: seq<seq<SstMeta>>)
    ensures |r| >= 2
  {
    if |levels| == 0 then [[], []] else if |levels| == 1 then levels + [[]] else levels
  }

  function UpdatedManifest(m: Manifest, compacted: set<u64>, meta: SstMeta): Manifest {
    var levels := Padded(RetainAll(m.levels, compacted));
    Manifest(m.walFlushedSeq, meta.id, levels[1 := levels[1] + [meta]])
  }

  /** The manifest behind its lock. */
  class ManifestCell {
    var value: Manifest

    constructor (m: Manifest)
      ensures value == m
    {
      value := m;
    }

    method Replace(compacted: set<u64>, meta: SstMeta)
      modifies this
      ensures value == UpdatedManifest(old(value), compacted, meta)
    {
      var levels := value.levels;
      for i := 0 to |levels|
        invariant |levels| == |value.levels| && value == old(value)
        invariant forall n :: 0 <= n < |levels| ==>
          levels[n] == if n < i then Retain(value.levels[n], compacted) else value.levels[n]
      {
        levels := levels[i := Retain(levels[i], compacted)];
      }
      assert levels == RetainAll(value.levels, compacted);
      ghost var retained := levels;
      while |levels| < 2
        invariant Padded(levels) == Padded(retained)
      {
        levels := levels + [[]];
      }
      levels := levels[1 := levels[1] + [meta]];
      value := Manifest(value.walFlushedSeq, meta.id, levels);
    }
  }

  // ---------- the whole of run_l0_compaction ----------

  /** The entries of a file that opens, as far as they can be read: opening looks at
      the footer and the filter only. */
  function OpenTable(file: Bytes): Option<Table> {
    match OpenFile(file)
    case Err(_) => None
    case Ok((footer, _)) => Some(if footer.indexOffset > |file| then [] else ReadEntries(file[..footer.indexOffset]))
  }

  lemma BuiltTableOpens(blocks: seq<Table>, image: FilterImage, entryCount: u64, minSeq: u64)
    requires FileFits(blocks, image)
    ensures OpenTable(FileOf(blocks, image, entryCount, minSeq)) == Some(Flatten(blocks))
  {
    IterationYieldsEntries(blocks, image, entryCount, minSeq);
  }

  /** A table file that holds the merge of the inputs, laid out in packed blocks. */
  ghost predicate IsMergedFile(tables: seq<Table>, file: Bytes, layout: seq<Table>, image: FilterImage) {
    && IsMerge(tables, Flatten(layout)) && Packed(layout)
    && file == FileOf(layout, image, |Flatten(layout)| % U64_SIZE, MinSeq(Flatten(layout)))
  }

  /** The file holds the merge of the inputs, with a filter over the merged keys. */
  ghost predicate HoldsMerge(lib: FilterLib, tables: seq<Table>, file: Bytes, image: FilterImage) {
    exists layout :: IsMergedFile(tables, file, layout, image) && image == lib.image(1000, Keys(Flatten(layout)))
  }

  /** Merges the planned tables into a file. */
  method MergeToFile(lib: FilterLib, tables: seq<Table>) returns (file: Bytes, image: FilterImage)
    requires Inputs(tables)
    ensures HoldsMerge(lib, tables, file, image)
  {
    var builder := new SsTableBuilder(lib, 1000);
    MergeInto(tables, builder);
    ghost var layout;
    file, image, layout := builder.Finish();
    assert IsMergedFile(tables, file, layout, image);
  }

  /** The levels after the new file has been opened, if it opens, and put at the front of level 0. */
  function Installed(s: LevelState, meta: SstMeta, file: Bytes): LevelState {
    match OpenTable(file) case None => s case Some(table) => WithL0(s, meta, table)
  }

  method Install(levels: LevelManager, meta: SstMeta, file: Bytes)
    modifies levels
    ensures levels.State() == Installed(old(levels.State()), meta, file)
  {
    var table := OpenTable(file);
    if table.Some? {
      levels.AddL0(meta, table.value);
    }
  }

  /** `run_l0_compaction` when nothing else touches the manifest or the levels meanwhile. */
  method RunL0Compaction(lib: FilterLib, levels: LevelManager, cell: ManifestCell)
    returns (file: Option<Bytes>, image: FilterImage)
    requires PlanFor(levels.State()).Some? ==> Inputs(InputTables(levels.State(), PlanFor(levels.State()).value))
    modifies levels, cell
    ensures match PlanFor(old(levels.State()))
            case None => file == None && cell.value == old(cell.value) && levels.State() == old(levels.State())
            case Some(plan) =>
              var meta := NewMeta(plan, NextId(old(cell.value)));
              && file.Some? && HoldsMerge(lib, InputTables(old(levels.State()), plan), file.value, image)
              && cell.value == UpdatedManifest(old(cell.value), CompactedIds(plan), meta)
              && levels.State() == Installed(old(levels.State()), meta, file.value)
  {
    var state := levels.State();
    var planned := PlanFor(state);
    image := FilterImage([], 0, 0);
    if planned.None? {
      return None, image;
    }
    var plan := planned.value;
    var id := NextId(cell.value);
    var bytes;
    bytes, image := MergeToFile(lib, InputTables(state, plan));
    cell.Replace(CompactedIds(plan), NewMeta(plan, id));
    Install(levels, NewMeta(plan, id), bytes);
    file := Some(bytes);
  }
}
