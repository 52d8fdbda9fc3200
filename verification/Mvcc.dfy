/** The process-wide sequence counter (crates/lsm/src/mvcc.rs). */
module Mvcc {
  import opened Bytes

  function SaturatingAdd(a: u64, b: u64): u64 {
    if a + b > U64_MAX then U64_MAX else a + b
  }

  function Max(a: u64, b: u64): (m: u64) {
    if a >= b then a else b
  }

  /** The snapshot a read takes when the next write would get sequence number `next`. */
  function Snapshot(next: u64): u64 {
    Max(if next == 0 then 0 else next - 1, 1)
  }

  /** A snapshot sees a number that was handed out exactly when it is below the next one;
      before the first write it is that write's own number. */
  lemma SnapshotExactly(next: u64, seqNo: u64)
    requires seqNo > 0
    ensures seqNo <= Snapshot(next) <==> seqNo < next || (seqNo == 1 && next <= 1)
  {
  }

  /** `fetch_add(1)`: wraps around at the width of the counter. */
  function Successor(next: u64): u64 {
    (next + 1) % U64_SIZE
  }

  /** The static NEXT_SEQ; a fresh process starts it at 1. */
  class SeqCounter {
    var next: u64

    constructor ()
      ensures next == 1
    {
      next := 1;
    }

    function BeginRead(): u64
      reads this
    {
      Snapshot(next)
    }

    method NextWriteSeq() returns (seqNo: u64)
      modifies this
      ensures seqNo == old(next) && next == Successor(old(next))
    {
      seqNo := next;
      next := (next + 1) % U64_SIZE;
    }

    method BumpNextSeqTo(minNext: u64)
      modifies this
      ensures next == Max(old(next), minNext)
    {
      next := if next >= minNext then next else minNext;
    }
  }
}
