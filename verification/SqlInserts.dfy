/** What an INSERT stores, told from its columns and values
    (crates/sql/src/executor.rs, lines 39-69 and 244-263). */
module SqlInserts {
  import opened Wrappers
  import opened Bytes
  import opened MemTable
  import opened WalRecord
  import opened EngineState
  import opened Mvcc
  import opened SqlAst
  import opened SqlExecutor

  // ---------- columns and values ----------

  /** Columns and values go in pairs as far as both lists reach. */
  function Pairs(columns: seq<string>, values: seq<Value>): nat {
    if |columns| <= |values| then |columns| else |values|
  }

  ghost predicate Unnamed(columns: seq<string>, n: nat, column: string)
    requires n <= |columns|
  {
    forall j :: 0 <= j < n ==> columns[j] != column
  }

  /** The last of the first n columns with this name. */
  ghost predicate LastNamed(columns: seq<string>, n: nat, column: string, i: nat)
    requires n <= |columns|
  {
    i < n && columns[i] == column && forall j :: i < j < n ==> columns[j] != column
  }

  // ---------- what a value is in a column ----------

  /** A number, whole or not, as an amount. */
  predicate AsAmount(v: Value, x: real) {
    v == Real(x) || (v.Integer? && v.n as real == x)
  }

  /** A number cut towards zero and kept within 64 bits, as a time. */
  predicate AsTime(v: Value, t: int) {
    || v == Integer(t)
    || (v.Real? && -0x8000_0000_0000_0000 <= t <= 0x7FFF_FFFF_FFFF_FFFF
        && if v.amount >= 9223372036854775808.0 then t == 0x7FFF_FFFF_FFFF_FFFF
           else if v.amount <= -9223372036854775808.0 then t == -0x8000_0000_0000_0000
           else if v.amount >= 0.0 then t as real <= v.amount < (t + 1) as real
           else (t - 1) as real < v.amount <= t as real)
  }

  /** The value can go into the column. */
  predicate Goes(column: string, v: Value) {
    || (column in ["category", "description", "date"] && v.Text?)
    || (column in ["amount", "created_at"] && (v.Real? || v.Integer?))
  }

  function Refusal(column: string): SqlError {
    if column == "amount" then TypeError("REAL")
    else if column == "created_at" then TypeError("INTEGER")
    else if column in ["category", "description", "date"] then TypeError("TEXT")
    else UnknownColumn(column)
  }

  /** The field is what the last pair that names its column says, or what it was before. */
  ghost predicate AmountGiven(columns: seq<string>, values: seq<Value>, n: nat, was: real, now: real)
    requires n <= |columns| && n <= |values|
  {
    && (Unnamed(columns, n, "amount") ==> now == was)
    && forall i: nat :: LastNamed(columns, n, "amount", i) ==> AsAmount(values[i], now)
  }

  ghost predicate TextGiven(columns: seq<string>, values: seq<Value>, n: nat, column: string, was: string, now: string)
    requires n <= |columns| && n <= |values|
  {
    && (Unnamed(columns, n, column) ==> now == was)
    && forall i: nat :: LastNamed(columns, n, column, i) ==> values[i] == Text(now)
  }

  ghost predicate TimeGiven(columns: seq<string>, values: seq<Value>, n: nat, was: int, now: int)
    requires n <= |columns| && n <= |values|
  {
    && (Unnamed(columns, n, "created_at") ==> now == was)
    && forall i: nat :: LastNamed(columns, n, "created_at", i) ==> AsTime(values[i], now)
  }

  /** So is every field; the id stays. */
  ghost predicate Given(columns: seq<string>, values: seq<Value>, n: nat, before: ExpenseRow, row: ExpenseRow)
    requires n <= |columns| && n <= |values|
  {
    && row.id == before.id
    && AmountGiven(columns, values, n, before.amount, row.amount)
    && TextGiven(columns, values, n, "category", before.category, row.category)
    && TextGiven(columns, values, n, "description", before.description, row.description)
    && TextGiven(columns, values, n, "date", before.date, row.date)
    && TimeGiven(columns, values, n, before.createdAt, row.createdAt)
  }

  // ---------- the loop over the pairs ----------

  /** One pair: it goes in and changes the one field it names, or is refused. */
  lemma OnePair(row: ExpenseRow, column: string, v: Value)
    ensures var r := SetColumn(row, column, v);
            && (r.Ok? <==> Goes(column, v)) && (r.Err? ==> r.error == Refusal(column))
            && (r.Ok? ==>
                  && r.value.id == row.id
                  && (if column == "amount" then AsAmount(v, r.value.amount) else r.value.amount == row.amount)
                  && (if column == "category" then v == Text(r.value.category) else r.value.category == row.category)
                  && (if column == "description" then v == Text(r.value.description)
                      else r.value.description == row.description)
                  && (if column == "date" then v == Text(r.value.date) else r.value.date == row.date)
                  && (if column == "created_at" then AsTime(v, r.value.createdAt)
                      else r.value.createdAt == row.createdAt))
  {
  }

  /** Names in a list and in what follows its first column. */
  lemma NamesBehind(columns: seq<string>, n: nat, column: string)
    requires 0 < n <= |columns|
    ensures Unnamed(columns, n, column) <==> columns[0] != column && Unnamed(columns[1..], n - 1, column)
    ensures LastNamed(columns, n, column, 0) <==> columns[0] == column && Unnamed(columns[1..], n - 1, column)
    ensures forall i :: 0 < i < n ==>
              (LastNamed(columns, n, column, i) <==> LastNamed(columns[1..], n - 1, column, i - 1))
  {
    var rest := columns[1..];
    assert forall j :: 0 < j < n ==> columns[j] == rest[j - 1];
    if Unnamed(columns, n, column) {
      assert forall j :: 0 <= j < n - 1 ==> rest[j] == columns[j + 1];
    }
    if LastNamed(columns, n, column, 0) {
      assert forall j :: 0 <= j < n - 1 ==> rest[j] == columns[j + 1];
    }
    forall i | 0 < i < n ensures LastNamed(columns, n, column, i) <==> LastNamed(rest, n - 1, column, i - 1) {
      if LastNamed(columns, n, column, i) {
        assert forall j :: i - 1 < j < n - 1 ==> rest[j] == columns[j + 1];
      }
    }
  }

  lemma AmountMore(columns: seq<string>, values: seq<Value>, n: nat, was: real, next: real, now: real)
    requires 0 < n <= |columns| && n <= |values|
    requires if columns[0] == "amount" then AsAmount(values[0], next) else next == was
    requires AmountGiven(columns[1..], values[1..], n - 1, next, now)
    ensures AmountGiven(columns, values, n, was, now)
  {
    NamesBehind(columns, n, "amount");
    assert forall i :: 0 < i < n ==> values[i] == values[1..][i - 1];
  }

  lemma TextMore(columns: seq<string>, values: seq<Value>, n: nat, column: string, was: string, next: string,
                 now: string)
    requires 0 < n <= |columns| && n <= |values|
    requires if columns[0] == column then values[0] == Text(next) else next == was
    requires TextGiven(columns[1..], values[1..], n - 1, column, next, now)
    ensures TextGiven(columns, values, n, column, was, now)
  {
    NamesBehind(columns, n, column);
    assert forall i :: 0 < i < n ==> values[i] == values[1..][i - 1];
  }

  lemma TimeMore(columns: seq<string>, values: seq<Value>, n: nat, was: int, next: int, now: int)
    requires 0 < n <= |columns| && n <= |values|
    requires if columns[0] == "created_at" then AsTime(values[0], next) else next == was
    requires TimeGiven(columns[1..], values[1..], n - 1, next, now)
    ensures TimeGiven(columns, values, n, was, now)
  {
    NamesBehind(columns, n, "created_at");
    assert forall i :: 0 < i < n ==> values[i] == values[1..][i - 1];
  }

  /** The first pair and then the others. */
  lemma GivenMore(columns: seq<string>, values: seq<Value>, n: nat, before: ExpenseRow, next: ExpenseRow,
                  row: ExpenseRow)
    requires 0 < n <= |columns| && n <= |values| && SetColumn(before, columns[0], values[0]) == Ok(next)
    requires Given(columns[1..], values[1..], n - 1, next, row)
    ensures Given(columns, values, n, before, row)
  {
    OnePair(before, columns[0], values[0]);
    AmountMore(columns, values, n, before.amount, next.amount, row.amount);
    TextMore(columns, values, n, "category", before.category, next.category, row.category);
    TextMore(columns, values, n, "description", before.description, next.description, row.description);
    TextMore(columns, values, n, "date", before.date, next.date, row.date);
    TimeMore(columns, values, n, before.createdAt, next.createdAt, row.createdAt);
  }

  /** The first pair that is refused. */
  ghost predicate FirstRefused(columns: seq<string>, values: seq<Value>, n: nat, i: nat)
    requires n <= |columns| && n <= |values|
  {
    i < n && !Goes(columns[i], values[i]) && forall j :: 0 <= j < i ==> Goes(columns[j], values[j])
  }

  lemma RefusedBehind(columns: seq<string>, values: seq<Value>, n: nat, i: nat)
    requires 0 < n <= |columns| && n <= |values|
    ensures FirstRefused(columns, values, n, i) <==>
            if i == 0 then !Goes(columns[0], values[0])
            else Goes(columns[0], values[0]) && FirstRefused(columns[1..], values[1..], n - 1, i - 1)
  {
    var cs, vs := columns[1..], values[1..];
    if i > 0 && FirstRefused(columns, values, n, i) {
      assert forall j :: 0 <= j < i - 1 ==> cs[j] == columns[j + 1] && vs[j] == values[j + 1];
    }
    if i > 0 && FirstRefused(cs, vs, n - 1, i - 1) && Goes(columns[0], values[0]) {
      assert forall j :: 0 < j < i ==> columns[j] == cs[j - 1] && values[j] == vs[j - 1];
    }
  }

  lemma {:induction false} RefusedExactly(before: ExpenseRow, columns: seq<string>, values: seq<Value>, i: nat)
    requires FirstRefused(columns, values, Pairs(columns, values), i)
    ensures SetColumns(before, columns, values) == Err(Refusal(columns[i]))
    decreases |columns|
  {
    OnePair(before, columns[0], values[0]);
    RefusedBehind(columns, values, Pairs(columns, values), i);
    if i > 0 {
      RefusedExactly(SetColumn(before, columns[0], values[0]).value, columns[1..], values[1..], i - 1);
    }
  }

  ghost predicate AllGo(columns: seq<string>, values: seq<Value>) {
    forall i :: 0 <= i < Pairs(columns, values) ==> Goes(columns[i], values[i])
  }

  lemma AllGoBehind(columns: seq<string>, values: seq<Value>)
    requires AllGo(columns, values) && Pairs(columns, values) > 0
    ensures Goes(columns[0], values[0]) && AllGo(columns[1..], values[1..])
    ensures Pairs(columns[1..], values[1..]) == Pairs(columns, values) - 1
  {
    var n := Pairs(columns, values);
    assert forall i :: 0 <= i < n - 1 ==> columns[1..][i] == columns[i + 1] && values[1..][i] == values[i + 1];
  }

  lemma SetFirst(before: ExpenseRow, columns: seq<string>, values: seq<Value>, next: ExpenseRow)
    requires Pairs(columns, values) > 0 && SetColumn(before, columns[0], values[0]) == Ok(next)
    ensures SetColumns(before, columns, values) == SetColumns(next, columns[1..], values[1..])
  {
  }

  lemma {:induction false} AllStored(before: ExpenseRow, columns: seq<string>, values: seq<Value>, n: nat)
    returns (row: ExpenseRow)
    requires AllGo(columns, values) && n == Pairs(columns, values)
    ensures SetColumns(before, columns, values) == Ok(row) && Given(columns, values, n, before, row)
    decreases n
  {
    row := before;
    if n > 0 {
      AllGoBehind(columns, values);
      var next := GoesIn(before, columns[0], values[0]);
      row := AllStored(next, columns[1..], values[1..], n - 1);
      SetFirst(before, columns, values, next);
      GivenMore(columns, values, n, before, next, row);
    }
  }

  lemma GoesIn(before: ExpenseRow, column: string, v: Value) returns (next: ExpenseRow)
    requires Goes(column, v)
    ensures SetColumn(before, column, v) == Ok(next)
  {
    OnePair(before, column, v);
    next := SetColumn(before, column, v).value;
  }

  lemma {:induction false} SomeRefused(columns: seq<string>, values: seq<Value>, n: nat) returns (i: nat)
    requires n <= |columns| && n <= |values| && exists j :: 0 <= j < n && !Goes(columns[j], values[j])
    ensures FirstRefused(columns, values, n, i)
  {
    i := 0;
    while Goes(columns[i], values[i])
      invariant i < n && (exists j :: i <= j < n && !Goes(columns[j], values[j]))
      invariant forall j :: 0 <= j < i ==> Goes(columns[j], values[j])
      decreases n - i
    {
      i := i + 1;
    }
  }

  /** What an INSERT stores and when it fails, for any columns and values: it fails exactly
      when some pair is refused, with the error of the first one, and otherwise each field
      is what the last pair that names its column says: an amount a number, whole or not, a
      time a number cut towards zero. A field that no pair names is blank, and the time is
      the clock's. */
  lemma InsertStores(id: string, now: int, columns: seq<string>, values: seq<Value>)
    ensures var n, r := Pairs(columns, values), SetColumns(BlankRow(id, now), columns, values);
            && (r.Ok? <==> AllGo(columns, values))
            && (r.Ok? ==> Given(columns, values, n, ExpenseRow(id, 0.0, "", "", "", now), r.value))
            && (forall i: nat :: FirstRefused(columns, values, n, i) ==> r == Err(Refusal(columns[i])))
  {
    var n, r := Pairs(columns, values), SetColumns(BlankRow(id, now), columns, values);
    if AllGo(columns, values) {
      var row := AllStored(BlankRow(id, now), columns, values, n);
    } else {
      var i := SomeRefused(columns, values, n);
      RefusedExactly(BlankRow(id, now), columns, values, i);
    }
    forall i: nat | FirstRefused(columns, values, n, i) ensures r == Err(Refusal(columns[i])) {
      RefusedExactly(BlankRow(id, now), columns, values, i);
    }
  }

  lemma {:induction false} LastOne(columns: seq<string>, n: nat, column: string) returns (i: int)
    requires n <= |columns|
    ensures if i < 0 then Unnamed(columns, n, column) else LastNamed(columns, n, column, i)
  {
    i := n - 1;
    while i >= 0 && columns[i] != column
      invariant -1 <= i < n && forall j :: i < j < n ==> columns[j] != column
    {
      i := i - 1;
    }
  }

  lemma OneAmount(v: Value, x: real, y: real)
    requires AsAmount(v, x) && AsAmount(v, y)
    ensures x == y
  {
  }

  lemma OneTime(v: Value, t: int, u: int)
    requires AsTime(v, t) && AsTime(v, u)
    ensures t == u
  {
  }

  /** The pairs determine the row. */
  lemma GivenOnce(columns: seq<string>, values: seq<Value>, n: nat, before: ExpenseRow, a: ExpenseRow, b: ExpenseRow)
    requires n <= |columns| && n <= |values|
    requires Given(columns, values, n, before, a) && Given(columns, values, n, before, b)
    ensures a == b
  {
    var amount := LastOne(columns, n, "amount");
    var category := LastOne(columns, n, "category");
    var description := LastOne(columns, n, "description");
    var date := LastOne(columns, n, "date");
    var createdAt := LastOne(columns, n, "created_at");
    if amount >= 0 {
      OneAmount(values[amount], a.amount, b.amount);
    }
    if createdAt >= 0 {
      OneTime(values[createdAt], a.createdAt, b.createdAt);
    }
  }

  // ---------- INSERT and then SELECT ----------

  /** What was just written is read. */
  lemma PutIsRead(crc: Crc, view: EngineView, key: Bytes, value: Bytes, next: u64)
    requires key != [] && next < U64_MAX
    ensures var after := Commit(crc, view, WalRecord(next, key, Some(value)));
            Get(after, key, Snapshot(Successor(next))) == Some(value)
  {
    var now := view.active[key := Value(value, next)];
    var after := Commit(crc, view, WalRecord(next, key, Some(value)));
    if after.active != now {
      assert after.frozen == view.frozen + [now] && after.active == map[];
      assert after.frozen[|view.frozen|] == now;
    }
  }

  lemma IdCondition(w: Option<Expr>, id: string)
    requires w == Some(BinaryOp(Eq, Column("id"), Literal(Text(id))))
    ensures ExtractIdEq(w) == Some(id)
  {
  }

  lemma StoredIsSelected(codec: RowCodec, view: EngineView, next: u64, row: ExpenseRow, q: SelectStmt,
                         r: Result<seq<ExpenseRow>, SqlError>)
    requires Inverse(codec) && codec.storable(row)
    requires Get(view, KeyOf(row.id), Snapshot(next)) == Some(codec.encode(row))
    requires q.whereClause == Some(BinaryOp(Eq, Column("id"), Literal(Text(row.id))))
    ensures SelectResult(codec, view, next, q, r) ==> r == Ok([row])
  {
    IdCondition(q.whereClause, row.id);
    assert FastRows(codec, Some(codec.encode(row))) == Ok([row]) by {
      assert codec.decode(codec.encode(row)) == Some(row);
    }
  }

  /** INSERT followed by WHERE id = ..: whatever the engine holds, if no pair is refused,
      the row that comes back has the fields that the columns and values say. */
  lemma InsertThenSelect(crc: Crc, codec: RowCodec, view: EngineView, next: u64, id: string, now: int,
                         columns: seq<string>, values: seq<Value>, amount: real, category: string,
                         description: string, date: string, createdAt: int, q: SelectStmt,
                         r: Result<seq<ExpenseRow>, SqlError>)
    requires Inverse(codec) && next < U64_MAX
    requires AllGo(columns, values)
    requires Given(columns, values, Pairs(columns, values), ExpenseRow(id, 0.0, "", "", "", now),
                   ExpenseRow(id, amount, category, description, date, createdAt))
    requires codec.storable(ExpenseRow(id, amount, category, description, date, createdAt))
    requires q.whereClause == Some(BinaryOp(Eq, Column("id"), Literal(Text(id))))
    ensures SetColumns(BlankRow(id, now), columns, values).Ok?
    ensures var row := SetColumns(BlankRow(id, now), columns, values).value;
            var after := Commit(crc, view, WalRecord(next, KeyOf(id), Some(codec.encode(row))));
            SelectResult(codec, after, Successor(next), q, r) ==>
            r == Ok([ExpenseRow(id, amount, category, description, date, createdAt)])
  {
    InsertStores(id, now, columns, values);
    var row := SetColumns(BlankRow(id, now), columns, values).value;
    GivenOnce(columns, values, Pairs(columns, values), ExpenseRow(id, 0.0, "", "", "", now), row,
              ExpenseRow(id, amount, category, description, date, createdAt));
    KeyIsNotEmpty(id);
    PutIsRead(crc, view, KeyOf(id), codec.encode(row), next);
    var after := Commit(crc, view, WalRecord(next, KeyOf(id), Some(codec.encode(row))));
    StoredIsSelected(codec, after, Successor(next), row, q, r);
  }
}
