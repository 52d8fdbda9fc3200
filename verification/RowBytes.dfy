/** Rows as bytes: the layout that bincode 2's standard configuration gives an
    ExpenseRow (crates/sql/src/executor.rs, lines 12-20, 65 and 77), for any way of
    writing amounts in 8 bytes. */
module RowBytes {
  import opened Wrappers
  import opened Bytes
  import opened WalRecord
  import opened EngineState
  import opened EngineTheorems
  import opened FrozenKeys
  import opened Mvcc
  import opened SqlAst
  import opened SqlExecutor
  import opened SqlTheorems

  /** How an amount is written in 64 bits and read from them. */
  datatype Floats = Floats(bits: real -> u64, value: u64 -> real)

  predicate Exact(f: Floats, x: real) {
    f.value(f.bits(x)) == x
  }

  // ---------- fields ----------

  const I64_SIZE := 0x8000_0000_0000_0000

  /** Signed integers are folded into unsigned ones: 0, -1, 1, -2, and so on. */
  function ZigZag(n: int): u64 {
    (if n >= 0 then 2 * n else -2 * n - 1) % U64_SIZE
  }

  function UnZigZag(n: u64): int {
    if n % 2 == 0 then n / 2 else -(n / 2) - 1
  }

  lemma ZigZagBack(n: int)
    requires -I64_SIZE <= n < I64_SIZE
    ensures UnZigZag(ZigZag(n)) == n
  {
  }

  /** A string is its length in bytes and its bytes. */
  function EncodeText(s: string): Bytes {
    EncodeVarint(|Utf8.Encode(s)| % U64_SIZE) + Utf8.Encode(s)
  }

  /** The string at the front of a buffer, and what lies behind it. */
  function DecodeText(buf: Bytes): Option<(string, Bytes)> {
    match DecodeVarint(buf, 8)
    case None => None
    case Some((n, at)) =>
      if |buf| - at < n then None else
      match Utf8.Decode(buf[at..at + n]) case None => None case Some(s) => Some((s, buf[at + n..]))
  }

  predicate TextFits(s: string) {
    |Utf8.Encode(s)| < U64_SIZE
  }

  lemma ThreeParts(a: Bytes, b: Bytes, c: Bytes)
    ensures var buf := a + b + c;
            buf == a + (b + c) && buf[|a|..|a| + |b|] == b && buf[|a| + |b|..] == c
  {
  }

  lemma TextRoundTrip(s: string, rest: Bytes)
    requires TextFits(s)
    ensures DecodeText(EncodeText(s) + rest) == Some((s, rest))
  {
    var bytes := Utf8.Encode(s);
    assert |bytes| % U64_SIZE == |bytes|;
    ThreeParts(EncodeVarint(|bytes|), bytes, rest);
    VarintRoundTrip(|bytes|, 8, bytes + rest);
    Utf8.DecodeEncode(s);
  }

  // ---------- rows ----------

  /** The fields in the order of their declaration. */
  function EncodeRow(f: Floats, row: ExpenseRow): Bytes {
    EncodeText(row.id) + (ToLe(f.bits(row.amount), 8) + EncodeRest(row))
  }

  function EncodeRest(row: ExpenseRow): Bytes {
    EncodeText(row.category) + (EncodeText(row.description) +
      (EncodeText(row.date) + EncodeVarint(ZigZag(row.createdAt))))
  }

  /** What follows the row is not looked at. */
  function DecodeRow(f: Floats, buf: Bytes): Option<ExpenseRow> {
    match DecodeText(buf)
    case None => None
    case Some((id, rest)) =>
      if |rest| < 8 then None else DecodeRest(id, Amount(f, rest[..8]), rest[8..])
  }

  function Amount(f: Floats, bytes: Bytes): real
    requires |bytes| == 8
  {
    Widths();
    FromLeBound(bytes);
    f.value(FromLe(bytes))
  }

  function DecodeRest(id: string, amount: real, buf: Bytes): Option<ExpenseRow> {
    match DecodeText(buf)
    case None => None
    case Some((category, buf1)) =>
      match DecodeText(buf1)
      case None => None
      case Some((description, buf2)) =>
        match DecodeText(buf2)
        case None => None
        case Some((date, buf3)) =>
          match DecodeVarint(buf3, 8)
          case None => None
          case Some((createdAt, _)) =>
            Some(ExpenseRow(id, amount, category, description, date, UnZigZag(createdAt)))
  }

  /** The rows that the fields of a value can hold. */
  predicate Storable(f: Floats, row: ExpenseRow) {
    && Exact(f, row.amount) && -I64_SIZE <= row.createdAt < I64_SIZE
    && TextFits(row.id) && TextFits(row.category) && TextFits(row.description) && TextFits(row.date)
  }

  lemma RestRoundTrip(row: ExpenseRow)
    requires -I64_SIZE <= row.createdAt < I64_SIZE
    requires TextFits(row.category) && TextFits(row.description) && TextFits(row.date)
    ensures DecodeRest(row.id, row.amount, EncodeRest(row)) == Some(row)
  {
    var last := EncodeVarint(ZigZag(row.createdAt));
    TextRoundTrip(row.category, EncodeText(row.description) + (EncodeText(row.date) + last));
    TextRoundTrip(row.description, EncodeText(row.date) + last);
    TextRoundTrip(row.date, last);
    assert last + [] == last;
    VarintRoundTrip(ZigZag(row.createdAt), 8, []);
    ZigZagBack(row.createdAt);
  }

  lemma AmountRoundTrip(f: Floats, x: real)
    requires Exact(f, x)
    ensures Amount(f, ToLe(f.bits(x), 8)) == x
  {
    Widths();
    LeRoundTrip(f.bits(x), 8);
  }

  /** Every row within the fields reads back as it was. */
  lemma RowRoundTrip(f: Floats, row: ExpenseRow)
    requires Storable(f, row)
    ensures DecodeRow(f, EncodeRow(f, row)) == Some(row)
  {
    var amount, rest := ToLe(f.bits(row.amount), 8), EncodeRest(row);
    TextRoundTrip(row.id, amount + rest);
    assert (amount + rest)[..8] == amount && (amount + rest)[8..] == rest;
    AmountRoundTrip(f, row.amount);
    RestRoundTrip(row);
  }

  /** Rows as values of the store. */
  function Rows(f: Floats): RowCodec {
    RowCodec(row => EncodeRow(f, row), buf => DecodeRow(f, buf), row => Storable(f, row))
  }

  /** What the theorems about queries ask of a codec is met, however amounts are written. */
  lemma RowsInverse(f: Floats)
    ensures Inverse(Rows(f))
  {
    forall row | Storable(f, row) ensures DecodeRow(f, EncodeRow(f, row)) == Some(row) {
      RowRoundTrip(f, row);
    }
  }

  /** For one row: id, amount, category, description, date and time, each text behind its
      length, the amount in 8 bytes, the time folded. */
  lemma RowExample(f: Floats, amount: real)
    ensures EncodeRow(f, ExpenseRow("a", amount, "b", "c", "d", -1)) ==
            [1, 97] + ToLe(f.bits(amount), 8) + [1, 98, 1, 99, 1, 100, 1]
  {
    OneLetter('a');
    OneLetter('b');
    OneLetter('c');
    OneLetter('d');
    var rest := EncodeRest(ExpenseRow("a", amount, "b", "c", "d", -1));
    assert rest == [1, 98] + ([1, 99] + ([1, 100] + [1]));
    assert [1, 97] + ToLe(f.bits(amount), 8) + rest == [1, 97] + (ToLe(f.bits(amount), 8) + rest);
  }

  lemma OneLetter(c: char)
    requires c < 128 as char
    ensures EncodeText([c]) == [1, c as int]
  {
    assert Utf8.Encode([c]) == [c as int] + Utf8.Encode("");
  }

  // ---------- amounts ----------

  function Pow2(e: int): real
    decreases if e < 0 then -e else e
  {
    if e == 0 then 1.0 else if e > 0 then 2.0 * Pow2(e - 1) else Pow2(e + 1) / 2.0
  }

  /** What the exponent and fraction of a double stand for; infinities and not-a-number
      stand for none. */
  function DoubleSize(exponent: nat, fraction: nat): real {
    if exponent == 0 then fraction as real * Pow2(-1074)
    else if exponent == 2047 then 0.0
    else (0x10_0000_0000_0000 + fraction) as real * Pow2(exponent - 1075)
  }

  /** The number a double stands for. */
  function DoubleValue(bits: u64): real {
    var size := DoubleSize(bits / 0x10_0000_0000_0000 % 2048, bits % 0x10_0000_0000_0000);
    if bits < I64_SIZE then size else -size
  }

  /** The bits of a double with this value, if there is one. */
  ghost function DoubleBits(x: real): u64 {
    if exists bits: u64 :: DoubleValue(bits) == x then var bits: u64 :| DoubleValue(bits) == x; bits else 0
  }

  ghost function Doubles(): Floats {
    Floats(x => DoubleBits(x), (bits: u64) => DoubleValue(bits))
  }

  /** With amounts as doubles, the storable amounts are the values of all finite doubles. */
  lemma DoublesAreExact(x: real)
    ensures Exact(Doubles(), x) <==> exists bits: u64 :: DoubleValue(bits) == x
  {
  }

  /** A whole number below 2^53 times a power of two that a double reaches, with a sign. */
  ghost predicate Dyadic(x: real, negative: bool, m: nat, e: int) {
    && m < 0x20_0000_0000_0000 && -1074 <= e <= 971
    && x == if negative then -(m as real * Pow2(e)) else m as real * Pow2(e)
  }

  lemma Halve(m: nat, e: int)
    ensures m as real * Pow2(e) == (2 * m) as real * Pow2(e - 1)
  {
    assert Pow2(e) == 2.0 * Pow2(e - 1);
    DoubleProduct(m, Pow2(e - 1));
  }

  lemma DoubleProduct(m: nat, p: real)
    ensures m as real * (2.0 * p) == (2 * m) as real * p
  {
  }

  /** The bits of such a number: with all 53 bits, or as small as a double gets. */
  lemma {:induction false} DyadicBits(m: nat, e: int) returns (bits: u64)
    requires m < 0x20_0000_0000_0000 && -1074 <= e <= 971
    ensures bits < I64_SIZE && DoubleValue(bits) == m as real * Pow2(e)
    decreases e + 1074
  {
    if m < 0x10_0000_0000_0000 && e > -1074 {
      Halve(m, e);
      bits := DyadicBits(2 * m, e - 1);
    } else if m < 0x10_0000_0000_0000 {
      bits := SmallestBits(m);
    } else {
      bits := NormalBits(e + 1075, m - 0x10_0000_0000_0000, m, e);
    }
  }

  lemma SmallestBits(m: nat) returns (bits: u64)
    requires m < 0x10_0000_0000_0000
    ensures bits < I64_SIZE && DoubleValue(bits) == m as real * Pow2(-1074)
  {
    bits := FieldsOf(0, m);
  }

  lemma NormalBits(exponent: nat, fraction: nat, m: nat, e: int) returns (bits: u64)
    requires 0 < exponent < 2047 && fraction < 0x10_0000_0000_0000
    requires e == exponent - 1075 && m == 0x10_0000_0000_0000 + fraction
    ensures bits < I64_SIZE && DoubleValue(bits) == m as real * Pow2(e)
  {
    bits := FieldsOf(exponent, fraction);
  }

  lemma FieldsOf(exponent: nat, fraction: nat) returns (bits: u64)
    requires exponent < 2048 && fraction < 0x10_0000_0000_0000
    ensures bits < I64_SIZE && DoubleValue(bits) == DoubleSize(exponent, fraction)
  {
    Fields(exponent, fraction);
    bits := exponent * 0x10_0000_0000_0000 + fraction;
  }

  lemma Fields(exponent: nat, fraction: nat)
    requires exponent < 2048 && fraction < 0x10_0000_0000_0000
    ensures var bits := exponent * 0x10_0000_0000_0000 + fraction;
            bits < I64_SIZE && bits / 0x10_0000_0000_0000 % 2048 == exponent
            && bits % 0x10_0000_0000_0000 == fraction
  {
  }

  /** The other way: the value of a double is such a number. */
  lemma BitsDyadic(bits: u64) returns (negative: bool, m: nat, e: int)
    ensures Dyadic(DoubleValue(bits), negative, m, e)
  {
    var exponent, fraction := bits / 0x10_0000_0000_0000 % 2048, bits % 0x10_0000_0000_0000;
    negative := bits >= I64_SIZE;
    if exponent == 0 {
      m, e := fraction, -1074;
    } else if exponent == 2047 {
      m, e := 0, 0;
    } else {
      m, e := 0x10_0000_0000_0000 + fraction, exponent - 1075;
    }
  }

  lemma TopBit(bits: u64)
    requires bits < I64_SIZE
    ensures var top := bits + I64_SIZE;
            && top / 0x10_0000_0000_0000 % 2048 == bits / 0x10_0000_0000_0000 % 2048
            && top % 0x10_0000_0000_0000 == bits % 0x10_0000_0000_0000
  {
    assert (bits + I64_SIZE) / 0x10_0000_0000_0000 == bits / 0x10_0000_0000_0000 + 2048;
  }

  lemma SignBit(bits: u64)
    requires bits < I64_SIZE
    ensures DoubleValue(bits + I64_SIZE) == -DoubleValue(bits)
  {
    TopBit(bits);
  }

  lemma SignedBits(x: real, negative: bool, m: nat, e: int) returns (bits: u64)
    requires Dyadic(x, negative, m, e)
    ensures DoubleValue(bits) == x
  {
    var low := DyadicBits(m, e);
    bits := WithSign(x, m as real * Pow2(e), negative, low);
  }

  lemma WithSign(x: real, v: real, negative: bool, low: u64) returns (bits: u64)
    requires low < I64_SIZE && DoubleValue(low) == v && x == if negative then -v else v
    ensures DoubleValue(bits) == x
  {
    bits := low;
    if negative {
      SignBit(low);
      bits := low + I64_SIZE;
    }
  }

  /** The amounts that can be stored as doubles are exactly m * 2^e and -m * 2^e for m below
      2^53 and e from -1074 to 971. */
  lemma StorableAmounts(x: real)
    ensures Exact(Doubles(), x) <==> exists negative, m, e :: Dyadic(x, negative, m, e)
  {
    DoublesAreExact(x);
    if bits: u64 :| DoubleValue(bits) == x {
      var negative, m, e := BitsDyadic(bits);
    }
    if negative, m, e :| Dyadic(x, negative, m, e) {
      var bits := SignedBits(x, negative, m, e);
    }
  }

  // ---------- queries over such rows ----------

  /** The id fast path over stores of rows in this layout, with nothing assumed of it. */
  lemma FastPathForRows(crc: Crc, f: Floats, ops: seq<Op>, q: SelectStmt, id: string, rows: seq<ExpenseRow>)
    requires Writes(ops) < U64_MAX && forall i :: 0 <= i < |ops| ==> OpFits(ops[i]) && RowOp(Rows(f), ops[i])
    requires ExtractIdEq(q.whereClause) == Some(id) && Session(crc, ops).Up?
    requires var m := Session(crc, ops); ScanResult(Rows(f), Scan(m.view, PREFIX, Snapshot(m.next)), q, rows)
    ensures var m := Session(crc, ops);
            FastRows(Rows(f), Get(m.view, KeyOf(id), Snapshot(m.next))) == Ok(rows)
            <==> if KeyOf(id) in Model(ops) then q.limit != Some(0) else KeyOf(id) !in FrozenLive(ops)
  {
    RowsInverse(f);
    FastPathAgrees(crc, Rows(f), ops, q, id, rows);
  }
}
