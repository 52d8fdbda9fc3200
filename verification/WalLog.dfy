/** The log file: appending records (crates/wal/src/writer.rs), reading them
    back and rewriting the file without the flushed ones (crates/wal/src/reader.rs). */
module WalLog {
  import opened Wrappers
  import opened Bytes
  import opened Sequences
  import opened WalRecord

  // ---------- what the file means ----------

  /** What one call of the reader's `next` finds at the front of the unread bytes. */
  datatype Step = End | Item(record: WalRecord, taken: nat) | Fail(error: WalError)

  function Peek(crc: Crc, rest: Bytes): (s: Step)
    ensures s.Item? ==> 0 < s.taken <= |rest|
  {
    if rest == [] then End else
    match Decode(crc, rest)
    case Ok((r, n)) => Item(r, n)
    case Err(Io) => End
    case Err(e) => Fail(e)
  }

  datatype ReplayEnd = Clean | Broken(error: WalError)

  datatype Replayed = Replayed(records: seq<WalRecord>, end: ReplayEnd)

  /** Everything the reader yields before it first ends or fails. */
  function Replay(crc: Crc, rest: Bytes): (r: Replayed)
    ensures forall i :: 0 <= i < |r.records| ==> Fits(r.records[i])
    decreases |rest|
  {
    match Peek(crc, rest)
    case End => Replayed([], Clean)
    case Fail(e) => Replayed([], Broken(e))
    case Item(record, n) =>
      var tail := Replay(crc, rest[n..]);
      Replayed([record] + tail.records, tail.end)
  }

  predicate AllFit(rs: seq<WalRecord>) {
    forall i :: 0 <= i < |rs| ==> Fits(rs[i])
  }

  function EncodeAll(crc: Crc, rs: seq<WalRecord>): Bytes {
    if rs == [] then [] else Encode(crc, rs[0]) + EncodeAll(crc, rs[1..])
  }

  lemma {:induction false} EncodeAllAppend(crc: Crc, rs: seq<WalRecord>, more: seq<WalRecord>)
    ensures EncodeAll(crc, rs + more) == EncodeAll(crc, rs) + EncodeAll(crc, more)
  {
    if rs == [] {
      assert rs + more == more;
    } else {
      var first := Encode(crc, rs[0]);
      calc {
        EncodeAll(crc, rs + more);
        { assert (rs + more)[1..] == rs[1..] + more; }
        first + EncodeAll(crc, rs[1..] + more);
        { EncodeAllAppend(crc, rs[1..], more); }
        first + (EncodeAll(crc, rs[1..]) + EncodeAll(crc, more));
        (first + EncodeAll(crc, rs[1..])) + EncodeAll(crc, more);
      }
    }
  }

  // ---------- replay ----------

  /** A record at the front of the file is the first one replayed. */
  lemma ReplayFirst(crc: Crc, r: WalRecord, rest: Bytes)
    requires Fits(r)
    ensures var tail := Replay(crc, rest);
            Replay(crc, Encode(crc, r) + rest) == Replayed([r] + tail.records, tail.end)
  {
    DecodeEncode(crc, r, rest);
    assert (Encode(crc, r) + rest)[|Encode(crc, r)|..] == rest;
  }

  /** A log with anything after it replays its own records, then that. */
  lemma {:induction false} ReplayPrefix(crc: Crc, rs: seq<WalRecord>, rest: Bytes)
    requires AllFit(rs)
    ensures var tail := Replay(crc, rest);
            Replay(crc, EncodeAll(crc, rs) + rest) == Replayed(rs + tail.records, tail.end)
  {
    if rs == [] {
      assert EncodeAll(crc, rs) + rest == rest;
    } else {
      var more := EncodeAll(crc, rs[1..]) + rest;
      assert EncodeAll(crc, rs) + rest == Encode(crc, rs[0]) + more;
      ReplayFirst(crc, rs[0], more);
      assert Replay(crc, more) == Replayed(rs[1..] + Replay(crc, rest).records, Replay(crc, rest).end) by {
        ReplayPrefix(crc, rs[1..], rest);
      }
      Assoc([rs[0]], rs[1..], Replay(crc, rest).records);
      assert [rs[0]] + rs[1..] == rs;
    }
  }

  lemma ReplayEncodeAll(crc: Crc, rs: seq<WalRecord>)
    requires AllFit(rs)
    ensures Replay(crc, EncodeAll(crc, rs)) == Replayed(rs, Clean)
  {
    ReplayPrefix(crc, rs, []);
    assert EncodeAll(crc, rs) + [] == EncodeAll(crc, rs);
  }

  /** How a single torn record replays. */
  lemma ReplayTorn(crc: Crc, r: WalRecord, cut: nat)
    requires Fits(r) && cut < |Encode(crc, r)|
    ensures Replay(crc, Encode(crc, r)[..cut]) ==
            Replayed([], if 4 <= cut < 4 + |EncodeHeader(HeaderOf(r))| then Broken(DecodeError) else Clean)
  {
    DecodeTorn(crc, r, cut);
  }

  function Encoded(crc: Crc, rs: seq<WalRecord>): seq<Bytes> {
    seq(|rs|, i requires 0 <= i < |rs| => Encode(crc, rs[i]))
  }

  lemma {:induction false} EncodeAllIs(crc: Crc, rs: seq<WalRecord>)
    ensures EncodeAll(crc, rs) == Flatten(Encoded(crc, rs))
  {
    if rs != [] {
      EncodeAllIs(crc, rs[1..]);
      assert Encoded(crc, rs)[1..] == Encoded(crc, rs[1..]);
    }
  }

  /** Any byte cut of a log leaves its first k records whole, then `off` bytes of record k. */
  lemma CutShape(crc: Crc, rs: seq<WalRecord>, cut: nat) returns (k: nat, off: nat)
    requires cut <= |EncodeAll(crc, rs)|
    ensures k <= |rs| && cut == |EncodeAll(crc, rs[..k])| + off
    ensures if k < |rs| then off < |Encode(crc, rs[k])| else off == 0
    ensures EncodeAll(crc, rs)[..cut] ==
            EncodeAll(crc, rs[..k]) + if k < |rs| then Encode(crc, rs[k])[..off] else []
  {
    EncodeAllIs(crc, rs);
    k, off := FlattenCut(Encoded(crc, rs), cut);
    EncodeAllIs(crc, rs[..k]);
    assert Encoded(crc, rs[..k]) == Encoded(crc, rs)[..k];
  }

  lemma EncodeAllSnoc(crc: Crc, init: seq<WalRecord>, last: WalRecord)
    ensures EncodeAll(crc, init + [last]) == EncodeAll(crc, init) + Encode(crc, last)
  {
    EncodeAllAppend(crc, init, [last]);
    EncodeAllOne(crc, last);
  }

  /** The exact account of a log cut at any byte: exactly the k records wholly
      inside the cut come back; then the replay fails if the cut falls right after
      the checksum of record k or inside its header, and ends cleanly otherwise. */
  lemma TornLog(crc: Crc, rs: seq<WalRecord>, cut: nat) returns (k: nat, off: nat)
    requires AllFit(rs) && cut <= |EncodeAll(crc, rs)|
    ensures k <= |rs| && cut == |EncodeAll(crc, rs[..k])| + off
    ensures if k < |rs| then off < |Encode(crc, rs[k])| else off == 0
    ensures Replay(crc, EncodeAll(crc, rs)[..cut]) ==
            Replayed(rs[..k], if k < |rs| && 4 <= off < 4 + |EncodeHeader(HeaderOf(rs[k]))|
                              then Broken(DecodeError) else Clean)
  {
    k, off := CutShape(crc, rs, cut);
    var tail := if k < |rs| then Encode(crc, rs[k])[..off] else [];
    ReplayPrefix(crc, rs[..k], tail);
    if k < |rs| {
      ReplayTorn(crc, rs[k], off);
    }
    assert rs[..k] + [] == rs[..k];
  }

  lemma EncodeAllOne(crc: Crc, r: WalRecord)
    ensures EncodeAll(crc, [r]) == Encode(crc, r)
  {
    assert Encode(crc, r) + [] == Encode(crc, r);
  }

  /** The record that the header of r cuts out of the bytes behind it. */
  function Mixed(r: WalRecord, rest: Bytes): WalRecord
    requires |rest| >= |r.key| + |ValueBytes(r)|
  {
    var keyLen, n := |r.key|, |r.key| + |ValueBytes(r)|;
    WalRecord(r.seqNo, rest[..keyLen], if r.value.Some? then Some(rest[keyLen..n]) else None)
  }

  /** What decoding makes of a checksum, the header of r and any bytes behind them. */
  function Outcome(crc: Crc, stored: nat, header: Bytes, r: WalRecord, rest: Bytes)
    : Result<(WalRecord, nat), WalError>
  {
    var n := |r.key| + |ValueBytes(r)|;
    if |rest| < n then Err(Io)
    else if crc(header + rest[..n]) != stored then Err(CrcMismatch)
    else Ok((Mixed(r, rest), 4 + |header| + n))
  }

  /** Any bytes behind the checksum and header of a record are taken for its body. */
  lemma DecodeMixed(crc: Crc, r: WalRecord, rest: Bytes)
    requires Fits(r)
    ensures var header := EncodeHeader(HeaderOf(r));
            Decode(crc, Checksum(crc, r) + header + rest) == Outcome(crc, crc(Payload(r)), header, r, rest)
  {
    var header, buf := EncodeHeader(HeaderOf(r)), Checksum(crc, r) + EncodeHeader(HeaderOf(r)) + rest;
    HeaderExact(r);
    Assoc(Checksum(crc, r), header, rest);
    HeaderRoundTrip(HeaderOf(r), rest);
    BodyMixed(crc, Checksum(crc, r), header, HeaderOf(r), r, rest, buf, 4 + |header|);
  }

  /** The header says how long key and value are. */
  predicate HeaderSays(h: RecordHeader, r: WalRecord) {
    && h.seqNo == r.seqNo && h.keyLen == |r.key|
    && if r.value.Some? then h.valLen == |r.value.value| < TOMBSTONE_SENTINEL else h.valLen == TOMBSTONE_SENTINEL
  }

  lemma HeaderExact(r: WalRecord)
    requires Fits(r)
    ensures HeaderSays(HeaderOf(r), r)
  {
  }

  lemma BodyMixed(crc: Crc, c: Bytes, header: Bytes, h: RecordHeader, r: WalRecord, rest: Bytes, buf: Bytes, start: nat)
    requires |c| == 4 && |header| >= 3 && HeaderSays(h, r) && buf == c + header + rest && start == 4 + |header|
    requires buf == c + (header + rest) && DecodeHeader(header + rest) == Some((h, |header|))
    ensures Decode(crc, buf) == Outcome(crc, FromLe(c), header, r, rest)
  {
    DecodeWithHeader(crc, c, h, |header|, start, header + rest, buf);
    PayloadMixed(crc, c, header, h, r, rest, buf, start);
  }

  lemma PayloadMixed(crc: Crc, checksum: Bytes, header: Bytes, h: RecordHeader, r: WalRecord, rest: Bytes,
                     buf: Bytes, start: nat)
    requires |checksum| == 4 && |header| >= 3 && HeaderSays(h, r)
    requires buf == checksum + header + rest && start == 4 + |header|
    ensures DecodePayload(crc, FromLe(checksum), h, start, buf) == Outcome(crc, FromLe(checksum), header, r, rest)
  {
    var n := |r.key| + |ValueBytes(r)|;
    var keyEnd := start + h.keyLen;
    var valEnd := keyEnd + if h.valLen == TOMBSTONE_SENTINEL then 0 else h.valLen;
    if n <= |rest| {
      BodySlices(checksum, header, rest, |r.key|, n, start, keyEnd, valEnd);
    }
  }

  lemma BodySlices(c: Bytes, h: Bytes, rest: Bytes, m: nat, n: nat, start: nat, keyEnd: nat, valEnd: nat)
    requires |c| == 4 && m <= n <= |rest| && start == 4 + |h| && keyEnd == start + m && valEnd == start + n
    ensures var buf := c + h + rest;
            && buf[4..valEnd] == h + rest[..n] && buf[valEnd..] == rest[n..]
            && buf[start..keyEnd] == rest[..m] && buf[keyEnd..valEnd] == rest[m..n]
  {
    SliceBehind(c + h, rest, 0, m);
    SliceBehind(c + h, rest, m, n);
    SliceBehind(c + h, rest, n, |rest|);
    assert rest[n..|rest|] == rest[n..];
    Assoc(c, h, rest);
    SliceBehind(c, h + rest, 0, |h| + n);
    assert (h + rest)[0..|h| + n] == h + rest[..n];
  }

  lemma SliceBehind(a: Bytes, b: Bytes, i: nat, j: nat)
    requires i <= j <= |b|
    ensures (a + b)[|a| + i..|a| + j] == b[i..j]
  {
  }

  /** What a checksum and the header of r make of the bytes behind them. With fewer
      than the missing body the log ends there and they are lost; when the checksum
      does not match the reader fails there; when it does match, the record that comes
      back has the header's number and a key and value cut out of those bytes, and
      reading goes on behind it. */
  function MistakenFor(crc: Crc, replay: Bytes -> Replayed, stored: nat, header: Bytes, r: WalRecord, rest: Bytes)
    : Replayed
  {
    var n := |r.key| + |ValueBytes(r)|;
    if |rest| < n then Replayed([], Clean)
    else if crc(header + rest[..n]) != stored then Replayed([], Broken(CrcMismatch))
    else var tail := replay(rest[n..]); Replayed([Mixed(r, rest)] + tail.records, tail.end)
  }

  function Mistaken(crc: Crc, r: WalRecord, rest: Bytes): Replayed {
    MistakenFor(crc, s => Replay(crc, s), crc(Payload(r)), EncodeHeader(HeaderOf(r)), r, rest)
  }

  /** The outcome of one decode decides how a replay starts. */
  lemma ReplayBy(crc: Crc, buf: Bytes, res: Result<(WalRecord, nat), WalError>)
    requires buf != [] && Decode(crc, buf) == res
    ensures Replay(crc, buf) ==
            if res.Err? then Replayed([], if res.error == Io then Clean else Broken(res.error))
            else var tail := Replay(crc, buf[res.value.1..]); Replayed([res.value.0] + tail.records, tail.end)
  {
  }

  /** From the outcome of the first decode, for any way of reading on. */
  lemma MistakenBy(crc: Crc, replay: Bytes -> Replayed, buf: Bytes, res: Result<(WalRecord, nat), WalError>,
                   stored: nat, header: Bytes, r: WalRecord, rest: Bytes)
    requires res.Ok? ==> res.value.1 <= |buf|
    requires replay(buf) ==
             if res.Err? then Replayed([], if res.error == Io then Clean else Broken(res.error))
             else var tail := replay(buf[res.value.1..]); Replayed([res.value.0] + tail.records, tail.end)
    requires res == Outcome(crc, stored, header, r, rest)
    requires res.Ok? ==> buf[res.value.1..] == rest[|r.key| + |ValueBytes(r)|..]
    ensures replay(buf) == MistakenFor(crc, replay, stored, header, r, rest)
  {
  }

  lemma ReplayMixed(crc: Crc, buf: Bytes, r: WalRecord, rest: Bytes)
    requires Fits(r) && buf == Checksum(crc, r) + EncodeHeader(HeaderOf(r)) + rest
    ensures Replay(crc, buf) == Mistaken(crc, r, rest)
  {
    var header, n := EncodeHeader(HeaderOf(r)), |r.key| + |ValueBytes(r)|;
    var res := Outcome(crc, crc(Payload(r)), header, r, rest);
    assert Decode(crc, buf) == res by {
      DecodeMixed(crc, r, rest);
    }
    ReplayBy(crc, buf, res);
    assert res.Ok? ==> buf[res.value.1..] == rest[n..] by {
      if n <= |rest| {
        BodySlices(Checksum(crc, r), header, rest, n, n, 4 + |header|, 4 + |header| + n, 4 + |header| + n);
      }
    }
    MistakenBy(crc, s => Replay(crc, s), buf, res, crc(Payload(r)), header, r, rest);
  }

  lemma TornAndMore(crc: Crc, r: WalRecord, c: Bytes, header: Bytes, kept: Bytes, cut: nat, more: Bytes)
    requires c == Checksum(crc, r) && header == EncodeHeader(HeaderOf(r))
    requires 4 + |header| <= cut < |Encode(crc, r)| && kept == (r.key + ValueBytes(r))[..cut - 4 - |header|]
    ensures Encode(crc, r)[..cut] + more == c + header + (kept + more)
  {
    TornBytes(c, header, r.key, ValueBytes(r), cut);
    Assoc(c + header, kept, more);
  }

  lemma AppendAfterKept(crc: Crc, rs: seq<WalRecord>, r: WalRecord, rest: Bytes, tail: Bytes)
    requires AllFit(rs) && Fits(r) && tail == Checksum(crc, r) + EncodeHeader(HeaderOf(r)) + rest
    ensures var next := Mistaken(crc, r, rest);
            Replay(crc, EncodeAll(crc, rs) + tail) == Replayed(rs + next.records, next.end)
  {
    ReplayMixed(crc, tail, r, rest);
    ReplayPrefix(crc, rs, tail);
  }

  /** What a log becomes when more is appended behind a last record that a crash tore
      in its body: the records before it, then whatever the torn header makes of the
      bytes that are left of the body and the ones appended. */
  lemma AppendAfterTornTail(crc: Crc, rs: seq<WalRecord>, r: WalRecord, cut: nat, more: Bytes)
    requires AllFit(rs) && Fits(r) && 4 + |EncodeHeader(HeaderOf(r))| <= cut < |Encode(crc, r)|
    ensures var body := r.key + ValueBytes(r);
            var next := Mistaken(crc, r, body[..cut - 4 - |EncodeHeader(HeaderOf(r))|] + more);
            Replay(crc, EncodeAll(crc, rs) + (Encode(crc, r)[..cut] + more)) == Replayed(rs + next.records, next.end)
  {
    var kept := (r.key + ValueBytes(r))[..cut - 4 - |EncodeHeader(HeaderOf(r))|];
    var tail := Encode(crc, r)[..cut] + more;
    assert tail == Checksum(crc, r) + EncodeHeader(HeaderOf(r)) + (kept + more) by {
      TornAndMore(crc, r, Checksum(crc, r), EncodeHeader(HeaderOf(r)), kept, cut, more);
    }
    AppendAfterKept(crc, rs, r, kept + more, tail);
  }

  /** What decoding makes of the bytes behind a checksum: header, key and value are all
      cut out of them. */
  function Behind(crc: Crc, stored: nat, rest: Bytes): Result<(WalRecord, nat), WalError> {
    match DecodeHeader(rest)
    case None => Err(DecodeError)
    case Some((h, n)) => BodyBehind(crc, stored, h, n, rest)
  }

  function BodyBehind(crc: Crc, stored: nat, h: RecordHeader, n: nat, rest: Bytes): Result<(WalRecord, nat), WalError> {
    var keyEnd := n + h.keyLen;
    var valEnd := keyEnd + if h.valLen == TOMBSTONE_SENTINEL then 0 else h.valLen;
    if |rest| < valEnd then Err(Io)
    else if crc(rest[0..valEnd]) != stored then Err(CrcMismatch)
    else
      var value := if h.valLen == TOMBSTONE_SENTINEL then None else Some(rest[keyEnd..valEnd]);
      Ok((WalRecord(h.seqNo, rest[n..keyEnd], value), 4 + valEnd))
  }

  lemma PayloadBehind(crc: Crc, c: Bytes, h: RecordHeader, n: nat, start: nat, rest: Bytes, buf: Bytes)
    requires |c| == 4 && 3 <= n <= |rest| && buf == c + rest && start == 4 + n
    ensures DecodePayload(crc, FromLe(c), h, start, buf) == BodyBehind(crc, FromLe(c), h, n, rest)
  {
    var keyEnd := n + h.keyLen;
    var valEnd := keyEnd + if h.valLen == TOMBSTONE_SENTINEL then 0 else h.valLen;
    if valEnd <= |rest| {
      SliceBehind(c, rest, 0, valEnd);
      SliceBehind(c, rest, n, keyEnd);
      SliceBehind(c, rest, keyEnd, valEnd);
    }
  }

  lemma BodyIsBehind(crc: Crc, c: Bytes, h: RecordHeader, n: nat, start: nat, rest: Bytes, buf: Bytes)
    requires |c| == 4 && buf == c + rest && DecodeHeader(rest) == Some((h, n)) && start == 4 + n
    ensures Decode(crc, buf) == BodyBehind(crc, FromLe(c), h, n, rest)
  {
    DecodeWithHeader(crc, c, h, n, start, rest, buf);
    PayloadBehind(crc, c, h, n, start, rest, buf);
  }

  lemma DecodeBehind(crc: Crc, c: Bytes, rest: Bytes, buf: Bytes)
    requires |c| == 4 && buf == c + rest
    ensures Decode(crc, buf) == Behind(crc, FromLe(c), rest)
  {
    if DecodeHeader(rest).None? {
      DecodeNoHeader(crc, c, rest, buf);
    } else {
      var (h, n) := DecodeHeader(rest).value;
      BodyIsBehind(crc, c, h, n, 4 + n, rest, buf);
    }
  }

  lemma ReplayBehind(crc: Crc, c: Bytes, rest: Bytes, first: Result<(WalRecord, nat), WalError>)
    requires |c| == 4 && first == Behind(crc, FromLe(c), rest)
    ensures first.Ok? ==> 4 <= first.value.1 <= 4 + |rest|
    ensures Replay(crc, c + rest) ==
            if first.Err? then Replayed([], if first.error == Io then Clean else Broken(first.error))
            else var tail := Replay(crc, rest[first.value.1 - 4..]); Replayed([first.value.0] + tail.records, tail.end)
  {
    assert Decode(crc, c + rest) == first by {
      DecodeBehind(crc, c, rest, c + rest);
    }
    ReplayBy(crc, c + rest, first);
    if first.Ok? {
      SliceBehind(c, rest, first.value.1 - 4, |rest|);
      assert (c + rest)[first.value.1..] == rest[first.value.1 - 4..];
    }
  }

  /** Torn inside its checksum, a record leaves a log that opens as well, but what is
      appended is read from its first bytes on as the missing ones: what comes of it is
      exactly what lies behind those makes of a header, a key and a value, and then of
      reading on. */
  lemma AppendAfterTornChecksum(crc: Crc, rs: seq<WalRecord>, part: Bytes, more: Bytes)
    requires AllFit(rs) && |part| < 4 <= |part| + |more|
    ensures var missing := 4 - |part|;
            var first := Behind(crc, FromLe(part + more[..missing]), more[missing..]);
            var replayed := Replay(crc, EncodeAll(crc, rs) + (part + more));
            if first.Err? then replayed == Replayed(rs, if first.error == Io then Clean else Broken(first.error))
            else
              && 4 <= first.value.1 <= |part| + |more|
              && var tail := Replay(crc, more[missing..][first.value.1 - 4..]);
                 replayed == Replayed(rs + ([first.value.0] + tail.records), tail.end)
  {
    var c, rest := part + more[..4 - |part|], more[4 - |part|..];
    assert part + more == c + rest by {
      Assoc(part, more[..4 - |part|], rest);
      assert more[..4 - |part|] + rest == more;
    }
    ReplayBehind(crc, c, rest, Behind(crc, FromLe(c), rest));
    ReplayPrefix(crc, rs, c + rest);
    assert rs + [] == rs;
  }

  // ---------- reader ----------

  class WalReader {
    const crc: Crc
    const data: Bytes
    var pos: nat

    ghost predicate Valid()
      reads this
    {
      pos <= |data|
    }

    constructor (crc: Crc, data: Bytes)
      ensures Valid() && pos == 0 && this.data == data && this.crc == crc
    {
      this.crc := crc;
      this.data := data;
      pos := 0;
    }

    /** `Iterator::next`: None at the end, and an error leaves the position where it was. */
    method Next() returns (item: Option<Result<WalRecord, WalError>>)
      requires Valid()
      modifies this
      ensures Valid()
      ensures match Peek(crc, data[old(pos)..])
              case End => item == None && pos == old(pos)
              case Fail(e) => item == Some(Err(e)) && pos == old(pos)
              case Item(r, n) => item == Some(Ok(r)) && pos == old(pos) + n
    {
      if pos >= |data| {
        return None;
      }
      match Decode(crc, data[pos..]) {
        case Ok((record, consumed)) =>
          pos := pos + consumed;
          return Some(Ok(record));
        case Err(Io) =>
          return None;
        case Err(e) =>
          return Some(Err(e));
      }
    }
  }

  /** Where the reader stands after n more calls of `next`. */
  function PosAfter(crc: Crc, data: Bytes, pos: nat, n: nat): (p: nat)
    requires pos <= |data|
    ensures p <= |data|
    decreases n
  {
    if n == 0 then pos else
    match Peek(crc, data[pos..])
    case Item(_, taken) => PosAfter(crc, data, pos + taken, n - 1)
    case _ => PosAfter(crc, data, pos, n - 1)
  }

  /** Once the reader fails it fails on every later call, at the same place:
      a consumer that drops errors and waits for None waits for ever. */
  lemma {:induction false} FailureRepeats(crc: Crc, data: Bytes, pos: nat, n: nat)
    requires pos <= |data| && Peek(crc, data[pos..]).Fail?
    ensures PosAfter(crc, data, pos, n) == pos
    ensures Peek(crc, data[PosAfter(crc, data, pos, n)..]).Fail?
  {
    if n > 0 {
      FailureRepeats(crc, data, pos, n - 1);
    }
  }

  // ---------- writer ----------

  /** The open log file: an append that returns has reached the disk. */
  class WalWriter {
    const crc: Crc
    var file: Bytes

    /** Opening appends to whatever is already there. */
    constructor Open(crc: Crc, existing: Bytes)
      ensures this.crc == crc && file == existing
    {
      this.crc := crc;
      file := existing;
    }

    method Append(record: WalRecord)
      modifies this
      ensures file == old(file) + Encode(crc, record)
    {
      file := file + Encode(crc, record);
    }
  }

  // ---------- dropping flushed records ----------

  /** The records with a sequence number above the flushed one, in log order. */
  function Above(rs: seq<WalRecord>, flushedSeq: nat): seq<WalRecord> {
    if rs == [] then []
    else if rs[0].seqNo > flushedSeq then [rs[0]] + Above(rs[1..], flushedSeq)
    else Above(rs[1..], flushedSeq)
  }

  lemma {:induction false} AboveMember(rs: seq<WalRecord>, flushedSeq: nat, r: WalRecord)
    ensures r in Above(rs, flushedSeq) <==> r in rs && r.seqNo > flushedSeq
  {
    if rs != [] {
      AboveMember(rs[1..], flushedSeq, r);
      assert r in rs <==> r == rs[0] || r in rs[1..];
    }
  }

  lemma {:induction false} AboveAppend(rs: seq<WalRecord>, r: WalRecord, flushedSeq: nat)
    ensures Above(rs + [r], flushedSeq) == Above(rs, flushedSeq) + if r.seqNo > flushedSeq then [r] else []
  {
    if rs == [] {
    } else {
      AboveAppend(rs[1..], r, flushedSeq);
      assert (rs + [r])[1..] == rs[1..] + [r];
    }
  }

  lemma AboveFits(rs: seq<WalRecord>, flushedSeq: nat)
    requires AllFit(rs)
    ensures AllFit(Above(rs, flushedSeq))
  {
    var kept := Above(rs, flushedSeq);
    forall i | 0 <= i < |kept| ensures Fits(kept[i]) {
      AboveMember(rs, flushedSeq, kept[i]);
    }
  }

  /** The reading half of `truncate_after`: collect the records above the threshold. */
  method CollectAbove(crc: Crc, data: Bytes, flushedSeq: nat) returns (records: seq<WalRecord>)
    requires Replay(crc, data).end == Clean
    ensures records == Above(Replay(crc, data).records, flushedSeq)
  {
    ghost var all := Replay(crc, data).records;
    var reader := new WalReader(crc, data);
    records := [];
    ghost var seen: seq<WalRecord> := [];
    assert data[0..] == data && seen + all == all;
    while true
      invariant fresh(reader) && reader.Valid() && reader.data == data && reader.crc == crc
      invariant Replay(crc, data[reader.pos..]).end == Clean
      invariant seen + Replay(crc, data[reader.pos..]).records == all
      invariant records == Above(seen, flushedSeq)
      decreases |data| - reader.pos
    {
      ghost var rest := data[reader.pos..];
      var item := reader.Next();
      if item == None {
        break;
      }
      match item.value {
        case Err(_) =>
          assert false;
        case Ok(r) =>
          assert data[reader.pos..] == rest[Peek(crc, rest).taken..];
          AboveAppend(seen, r, flushedSeq);
          Assoc(seen, [r], Replay(crc, data[reader.pos..]).records);
          seen := seen + [r];
          if r.seqNo > flushedSeq {
            records := records + [r];
          }
      }
    }
    assert seen == all;
  }

  /** The writing half: the records one after the other. */
  method WriteAll(crc: Crc, records: seq<WalRecord>) returns (file: Bytes)
    ensures file == EncodeAll(crc, records)
  {
    file := [];
    for i := 0 to |records|
      invariant file == EncodeAll(crc, records[..i])
    {
      assert records[..i + 1] == records[..i] + [records[i]];
      EncodeAllSnoc(crc, records[..i], records[i]);
      file := file + Encode(crc, records[i]);
    }
    assert records[..|records|] == records;
  }

  /** `truncate_after`: read everything, rewrite what is above the threshold.
      On a log that does not replay to a clean end the source does not return
      (FailureRepeats), which is what the requires says. The rewritten log
      replays, to a clean end, exactly the records above the threshold. */
  method TruncateAfter(crc: Crc, data: Bytes, flushedSeq: nat) returns (rewritten: Bytes)
    requires Replay(crc, data).end == Clean
    ensures rewritten == EncodeAll(crc, Above(Replay(crc, data).records, flushedSeq))
    ensures Replay(crc, rewritten) == Replayed(Above(Replay(crc, data).records, flushedSeq), Clean)
  {
    var records := CollectAbove(crc, data, flushedSeq);
    rewritten := WriteAll(crc, records);
    AboveFits(Replay(crc, data).records, flushedSeq);
    ReplayEncodeAll(crc, records);
  }
}
