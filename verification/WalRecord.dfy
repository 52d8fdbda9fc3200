/** One record of the write-ahead log: `encode` and `decode`
    (crates/wal/src/record.rs), with the variable-length integers of
    bincode 2's standard configuration that the record header is made of. */
module WalRecord {
  import opened Wrappers
  import opened Bytes

  const TOMBSTONE_SENTINEL: nat := U32_SIZE - 1

  /** The checksum is a parameter: nothing below depends on how CRC-32 is computed. */
  type Crc = Bytes -> u32

  datatype WalRecord = WalRecord(seqNo: u64, key: Bytes, value: Option<Bytes>)

  datatype WalError = Io | DecodeError | CrcMismatch

  datatype RecordHeader = RecordHeader(seqNo: u64, keyLen: u32, valLen: u32)

  // ---------- variable-length integers ----------

  function EncodeVarint(n: nat): (s: Bytes)
    requires n < U64_SIZE
    ensures 1 <= |s| <= 9
  {
    if n < 251 then [n]
    else if n < U16_SIZE then [251] + ToLe(n, 2)
    else if n < U32_SIZE then [252] + ToLe(n, 4)
    else [253] + ToLe(n, 8)
  }

  /** Reads an integer of at most `width` bytes (4 for a u32, 8 for a u64) and
      says how many bytes it took; None is bincode's decode error. */
  function DecodeVarint(buf: Bytes, width: nat): (r: Option<(nat, nat)>)
    ensures r.Some? ==> 1 <= r.value.1 <= |buf| && r.value.0 < (if width >= 8 then U64_SIZE else U32_SIZE)
  {
    Widths();
    if buf == [] then None
    else if buf[0] < 251 then Some((buf[0], 1))
    else if buf[0] == 251 then Fixed(buf, 2)
    else if buf[0] == 252 then Fixed(buf, 4)
    else if buf[0] == 253 && width >= 8 then Fixed(buf, 8)
    else None
  }

  function Fixed(buf: Bytes, n: nat): (r: Option<(nat, nat)>)
    requires buf != []
    ensures r.Some? ==> r.value.1 == 1 + n <= |buf| && r.value.0 < Pow256(n)
  {
    if |buf| < 1 + n then None
    else FromLeBound(buf[1..1 + n]); Some((FromLe(buf[1..1 + n]), 1 + n))
  }

  lemma VarintRoundTrip(n: nat, width: nat, rest: Bytes)
    requires n < if width >= 8 then U64_SIZE else U32_SIZE
    ensures DecodeVarint(EncodeVarint(n) + rest, width) == Some((n, |EncodeVarint(n)|))
  {
    Widths();
    var s := EncodeVarint(n);
    if n >= 251 {
      var w := |s| - 1;
      assert (s + rest)[1..1 + w] == ToLe(n, w);
      LeRoundTrip(n, w);
    }
  }

  /** No proper prefix of an encoded integer decodes. */
  lemma VarintPrefix(n: nat, width: nat, cut: nat)
    requires n < U64_SIZE
    requires cut < |EncodeVarint(n)|
    ensures DecodeVarint(EncodeVarint(n)[..cut], width) == None
  {
  }

  // ---------- record header ----------

  function EncodeHeader(h: RecordHeader): (s: Bytes)
    ensures 3 <= |s|
  {
    EncodeVarint(h.seqNo) + EncodeVarint(h.keyLen) + EncodeVarint(h.valLen)
  }

  function DecodeHeader(buf: Bytes): (r: Option<(RecordHeader, nat)>)
    ensures r.Some? ==> 3 <= r.value.1 <= |buf|
  {
    match DecodeVarint(buf, 8)
    case None => None
    case Some((seqNo, n1)) =>
      match DecodeVarint(buf[n1..], 4)
      case None => None
      case Some((keyLen, n2)) =>
        match DecodeVarint(buf[n1 + n2..], 4)
        case None => None
        case Some((valLen, n3)) => Some((RecordHeader(seqNo, keyLen, valLen), n1 + n2 + n3))
  }

  lemma ThreeIntegers(a: Bytes, m: u64, b: Bytes, n: u32, c: Bytes, k: u32, rest: Bytes)
    requires DecodeVarint(a + (b + (c + rest)), 8) == Some((m, |a|))
    requires DecodeVarint(b + (c + rest), 4) == Some((n, |b|)) && DecodeVarint(c + rest, 4) == Some((k, |c|))
    ensures DecodeHeader(a + (b + (c + rest))) == Some((RecordHeader(m, n, k), |a| + |b| + |c|))
  {
    var buf := a + (b + (c + rest));
    assert buf[|a|..] == b + (c + rest) && buf[|a| + |b|..] == c + rest;
  }

  lemma HeaderRoundTrip(h: RecordHeader, rest: Bytes)
    ensures DecodeHeader(EncodeHeader(h) + rest) == Some((h, |EncodeHeader(h)|))
  {
    var a, b, c := EncodeVarint(h.seqNo), EncodeVarint(h.keyLen), EncodeVarint(h.valLen);
    FourParts(a, b, c, rest);
    VarintRoundTrip(h.seqNo, 8, b + (c + rest));
    VarintRoundTrip(h.keyLen, 4, c + rest);
    VarintRoundTrip(h.valLen, 4, rest);
    ThreeIntegers(a, h.seqNo, b, h.keyLen, c, h.valLen, rest);
  }

  lemma FourParts(a: Bytes, b: Bytes, c: Bytes, d: Bytes)
    ensures a + b + c + d == a + (b + (c + d))
  {
  }

  lemma TakeParts(a: Bytes, b: Bytes, c: Bytes, cut: nat)
    requires cut <= |a| + |b| + |c|
    ensures (a + b + c)[..cut] ==
            if cut < |a| then a[..cut]
            else if cut < |a| + |b| then a + b[..cut - |a|]
            else a + (b + c[..cut - |a| - |b|])
  {
  }

  lemma SecondMissing(a: Bytes, n: nat, rest: Bytes)
    requires DecodeVarint(a + rest, 8) == Some((n, |a|)) && DecodeVarint(rest, 4) == None && n < U64_SIZE
    ensures DecodeHeader(a + rest) == None
  {
    assert (a + rest)[|a|..] == rest;
  }

  lemma ThirdMissing(a: Bytes, m: nat, b: Bytes, n: nat, rest: Bytes)
    requires DecodeVarint(a + (b + rest), 8) == Some((m, |a|)) && DecodeVarint(b + rest, 4) == Some((n, |b|))
    requires DecodeVarint(rest, 4) == None
    ensures DecodeHeader(a + (b + rest)) == None
  {
    assert (a + (b + rest))[|a|..] == b + rest && (a + (b + rest))[|a| + |b|..] == rest;
  }

  /** A header cut short anywhere does not decode. */
  lemma HeaderPrefix(h: RecordHeader, cut: nat)
    requires cut < |EncodeHeader(h)|
    ensures DecodeHeader(EncodeHeader(h)[..cut]) == None
  {
    var a, b, c := EncodeVarint(h.seqNo), EncodeVarint(h.keyLen), EncodeVarint(h.valLen);
    TakeParts(a, b, c, cut);
    if cut < |a| {
      VarintPrefix(h.seqNo, 8, cut);
    } else if cut < |a| + |b| {
      var rest := b[..cut - |a|];
      VarintRoundTrip(h.seqNo, 8, rest);
      VarintPrefix(h.keyLen, 4, cut - |a|);
      SecondMissing(a, h.seqNo, rest);
    } else {
      var rest := c[..cut - |a| - |b|];
      VarintRoundTrip(h.seqNo, 8, b + rest);
      VarintRoundTrip(h.keyLen, 4, rest);
      VarintPrefix(h.valLen, 4, cut - |a| - |b|);
      ThirdMissing(a, h.seqNo, b, h.keyLen, rest);
    }
  }

  // ---------- records ----------

  /** The records whose lengths survive the casts to u32 in `encode`. */
  predicate Fits(r: WalRecord) {
    |r.key| < U32_SIZE && (r.value.Some? ==> |r.value.value| < TOMBSTONE_SENTINEL)
  }

  function ValueBytes(r: WalRecord): Bytes {
    match r.value case Some(v) => v case None => []
  }

  /** `as u32` keeps the low 32 bits of a length. */
  function HeaderOf(r: WalRecord): RecordHeader {
    RecordHeader(r.seqNo, |r.key| % U32_SIZE,
                 if r.value.Some? then |r.value.value| % U32_SIZE else TOMBSTONE_SENTINEL)
  }

  function Payload(r: WalRecord): Bytes {
    EncodeHeader(HeaderOf(r)) + r.key + ValueBytes(r)
  }

  function Encode(crc: Crc, r: WalRecord): (s: Bytes)
    ensures |s| == 4 + |EncodeHeader(HeaderOf(r))| + |r.key| + |ValueBytes(r)|
  {
    Checksum(crc, r) + Payload(r)
  }

  /** The record at the front of `buf` and the number of bytes it takes. */
  function Decode(crc: Crc, buf: Bytes): (res: Result<(WalRecord, nat), WalError>)
    ensures res.Ok? ==> 7 <= res.value.1 <= |buf| && Fits(res.value.0)
  {
    if |buf| < 4 then Err(Io) else
    match DecodeHeader(buf[4..])
    case None => Err(DecodeError)
    case Some((h, headerLen)) => DecodePayload(crc, FromLe(buf[..4]), h, 4 + headerLen, buf)
  }

  function DecodePayload(crc: Crc, storedCrc: nat, h: RecordHeader, keyStart: nat, buf: Bytes)
    : (res: Result<(WalRecord, nat), WalError>)
    requires 7 <= keyStart <= |buf|
    ensures res.Ok? ==> keyStart <= res.value.1 <= |buf| && Fits(res.value.0)
  {
    var keyEnd := keyStart + h.keyLen;
    var valEnd := keyEnd + if h.valLen == TOMBSTONE_SENTINEL then 0 else h.valLen;
    if |buf| < valEnd then Err(Io)
    else if crc(buf[4..valEnd]) != storedCrc then Err(CrcMismatch)
    else Ok((WalRecord(h.seqNo, buf[keyStart..keyEnd],
                       if h.valLen == TOMBSTONE_SENTINEL then None else Some(buf[keyEnd..valEnd])),
             valEnd))
  }

  /** Decoding looks at the checksum first and at the header behind it. */
  lemma DecodeWithHeader(crc: Crc, c: Bytes, h: RecordHeader, n: nat, start: nat, rest: Bytes, buf: Bytes)
    requires |c| == 4 && buf == c + rest && DecodeHeader(rest) == Some((h, n)) && start == 4 + n
    ensures Decode(crc, buf) == DecodePayload(crc, FromLe(c), h, start, buf)
  {
    assert buf[4..] == rest && buf[..4] == c;
  }

  lemma DecodeNoHeader(crc: Crc, c: Bytes, rest: Bytes, buf: Bytes)
    requires |c| == 4 && buf == c + rest && DecodeHeader(rest) == None
    ensures Decode(crc, buf) == Err(DecodeError)
  {
    assert buf[4..] == rest;
  }

  function Checksum(crc: Crc, r: WalRecord): (s: Bytes)
    ensures |s| == 4 && FromLe(s) == crc(Payload(r))
  {
    Widths();
    LeRoundTrip(crc(Payload(r)), 4);
    ToLe(crc(Payload(r)), 4)
  }

  lemma BodyParts(c: Bytes, h: Bytes, k: Bytes, v: Bytes, rest: Bytes,
                  start: nat, keyEnd: nat, valEnd: nat)
    requires |c| == 4 && start == 4 + |h| && keyEnd == start + |k| && valEnd == keyEnd + |v|
    ensures var buf := c + (h + (k + v + rest));
            buf[start..keyEnd] == k && buf[keyEnd..valEnd] == v && buf[4..valEnd] == h + k + v
  {
  }

  /** Reading the body: given the checksum of what follows it, the key and value come back. */
  lemma PayloadDecodes(crc: Crc, checksum: Bytes, header: Bytes, r: WalRecord, h: RecordHeader, rest: Bytes,
                       buf: Bytes, start: nat, n: nat)
    requires |checksum| == 4 && |header| >= 3 && Fits(r) && h == HeaderOf(r)
    requires buf == checksum + (header + (r.key + ValueBytes(r) + rest))
    requires start == 4 + |header| && n == start + |r.key| + |ValueBytes(r)|
    ensures DecodePayload(crc, crc(header + r.key + ValueBytes(r)), h, start, buf) == Ok((r, n))
  {
    var keyEnd := start + h.keyLen;
    var valEnd := keyEnd + if h.valLen == TOMBSTONE_SENTINEL then 0 else h.valLen;
    BodyParts(checksum, header, r.key, ValueBytes(r), rest, start, keyEnd, valEnd);
  }

  /** The same body cut short is an I/O error. */
  lemma PayloadTorn(crc: Crc, stored: nat, size: nat, r: WalRecord, buf: Bytes)
    requires size >= 3 && Fits(r) && 4 + size <= |buf| < 4 + size + |r.key| + |ValueBytes(r)|
    ensures DecodePayload(crc, stored, HeaderOf(r), 4 + size, buf) == Err(Io)
  {
    assert HeaderOf(r).keyLen == |r.key|;
  }

  lemma Regroup(c: Bytes, h: Bytes, k: Bytes, v: Bytes, rest: Bytes)
    ensures c + (h + k + v) + rest == c + (h + (k + v + rest))
  {
  }

  lemma RecordDecodes(crc: Crc, c: Bytes, header: Bytes, r: WalRecord, rest: Bytes, buf: Bytes, n: nat)
    requires |c| == 4 && |header| >= 3 && Fits(r) && buf == c + (header + (r.key + ValueBytes(r) + rest))
    requires DecodeHeader(header + (r.key + ValueBytes(r) + rest)) == Some((HeaderOf(r), |header|))
    requires FromLe(c) == crc(header + r.key + ValueBytes(r)) && n == 4 + |header| + |r.key| + |ValueBytes(r)|
    ensures Decode(crc, buf) == Ok((r, n))
  {
    var start := 4 + |header|;
    DecodeWithHeader(crc, c, HeaderOf(r), |header|, start, header + (r.key + ValueBytes(r) + rest), buf);
    PayloadDecodes(crc, c, header, r, HeaderOf(r), rest, buf, start, n);
  }

  lemma DecodeEncode(crc: Crc, r: WalRecord, rest: Bytes)
    requires Fits(r)
    ensures Decode(crc, Encode(crc, r) + rest) == Ok((r, |Encode(crc, r)|))
  {
    var header := EncodeHeader(HeaderOf(r));
    Regroup(Checksum(crc, r), header, r.key, ValueBytes(r), rest);
    HeaderRoundTrip(HeaderOf(r), r.key + ValueBytes(r) + rest);
    RecordDecodes(crc, Checksum(crc, r), header, r, rest, Encode(crc, r) + rest, |Encode(crc, r)|);
  }

  /** Encoding is undone by decoding exactly for the records within the length
      fields: a longer key, or a value of 2^32 - 1 bytes or more, never comes back. */
  lemma RoundTripExactly(crc: Crc, r: WalRecord)
    ensures Decode(crc, Encode(crc, r)) == Ok((r, |Encode(crc, r)|)) <==> Fits(r)
  {
    if Fits(r) {
      DecodeEncode(crc, r, []);
      assert Encode(crc, r) + [] == Encode(crc, r);
    }
  }

  /** A header cut short is a decode error. */
  lemma HeaderTorn(crc: Crc, checksum: Bytes, h: RecordHeader, cut: nat)
    requires |checksum| == 4 && cut < |EncodeHeader(h)|
    ensures Decode(crc, checksum + EncodeHeader(h)[..cut]) == Err(DecodeError)
  {
    assert (checksum + EncodeHeader(h)[..cut])[4..] == EncodeHeader(h)[..cut];
    HeaderPrefix(h, cut);
  }

  /** A record cut after its header is an I/O error. */
  lemma BodyTorn(crc: Crc, checksum: Bytes, header: Bytes, r: WalRecord, kept: Bytes, torn: Bytes)
    requires |checksum| == 4 && |header| >= 3 && Fits(r) && |kept| < |r.key| + |ValueBytes(r)|
    requires DecodeHeader(header + kept) == Some((HeaderOf(r), |header|)) && torn == checksum + (header + kept)
    ensures Decode(crc, torn) == Err(Io)
  {
    DecodeWithHeader(crc, checksum, HeaderOf(r), |header|, 4 + |header|, header + kept, torn);
    PayloadTorn(crc, FromLe(checksum), |header|, r, torn);
  }

  /** An encoded record cut to its first bytes, by the part the cut falls in. */
  lemma TornBytes(c: Bytes, h: Bytes, k: Bytes, v: Bytes, cut: nat)
    requires |c| == 4 <= cut <= 4 + |h| + |k| + |v|
    ensures (c + (h + k + v))[..cut] ==
            if cut < 4 + |h| then c + h[..cut - 4] else c + (h + (k + v)[..cut - 4 - |h|])
  {
  }

  lemma TornInHeader(crc: Crc, c: Bytes, r: WalRecord, cut: nat, torn: Bytes)
    requires |c| == 4 && cut < |EncodeHeader(HeaderOf(r))|
    requires torn == c + EncodeHeader(HeaderOf(r))[..cut]
    ensures Decode(crc, torn) == Err(DecodeError)
  {
    HeaderTorn(crc, c, HeaderOf(r), cut);
  }

  /** What decoding makes of an encoded record cut to its first `cut` bytes. */
  lemma DecodeTorn(crc: Crc, r: WalRecord, cut: nat)
    requires Fits(r)
    requires cut < |Encode(crc, r)|
    ensures Decode(crc, Encode(crc, r)[..cut]) ==
            Err(if 4 <= cut < 4 + |EncodeHeader(HeaderOf(r))| then DecodeError else Io)
  {
    var size := |EncodeHeader(HeaderOf(r))|;
    if cut >= 4 {
      TornBytes(Checksum(crc, r), EncodeHeader(HeaderOf(r)), r.key, ValueBytes(r), cut);
      if cut < 4 + size {
        TornInHeader(crc, Checksum(crc, r), r, cut - 4, Encode(crc, r)[..cut]);
      } else {
        var kept := (r.key + ValueBytes(r))[..cut - 4 - size];
        HeaderRoundTrip(HeaderOf(r), kept);
        BodyTorn(crc, Checksum(crc, r), EncodeHeader(HeaderOf(r)), r, kept, Encode(crc, r)[..cut]);
      }
    }
  }
}
