/** Running INSERT and SELECT against the engine (crates/sql/src/executor.rs). */
module SqlExecutor {
  import opened Wrappers
  import opened Bytes
  import opened WalRecord
  import opened EngineState
  import opened Engine
  import opened Mvcc
  import opened SqlAst
  import Utf8

  datatype ExpenseRow = ExpenseRow(
    id: string, amount: real, category: string, description: string, date: string, createdAt: int)

  datatype SqlError =
    | UnknownColumn(column: string)
    | TypeError(expected: string)
    | NestedOperator
    | UndecodableRow
    | EngineFailure(cause: EngineError)

  /** How rows become values in the store, and which rows there are to store: an amount
      is any real number here, of which a value of some bytes can hold only some. */
  datatype RowCodec = RowCodec(
    encode: ExpenseRow -> Bytes, decode: Bytes -> Option<ExpenseRow>, storable: ExpenseRow -> bool)

  ghost predicate Inverse(codec: RowCodec) {
    forall row {:trigger codec.encode(row)} :: codec.storable(row) ==> codec.decode(codec.encode(row)) == Some(row)
  }

  const PREFIX := Utf8.Encode("expense:")

  function KeyOf(id: string): Bytes {
    Utf8.Encode("expense:" + id)
  }

  // ---------- evaluating conditions ----------

  function FieldValue(column: string, row: ExpenseRow): Result<Value, SqlError> {
    if column == "id" then Ok(Text(row.id))
    else if column == "amount" then Ok(Real(row.amount))
    else if column == "category" then Ok(Text(row.category))
    else if column == "description" then Ok(Text(row.description))
    else if column == "date" then Ok(Text(row.date))
    else if column == "created_at" then Ok(Integer(row.createdAt))
    else Err(UnknownColumn(column))
  }

  function EvalValue(e: Expr, row: ExpenseRow): Result<Value, SqlError> {
    match e
    case Literal(v) => Ok(v)
    case Column(column) => FieldValue(column, row)
    case BinaryOp(_, _, _) => Err(NestedOperator)
  }

  function CompareReals(a: real, op: BinOp, b: real): bool {
    match op
    case Eq => a == b
    case Ne => a != b
    case Lt => a < b
    case Le => a <= b
    case Gt => a > b
    case Ge => a >= b
    case _ => false
  }

  /** Texts compare by their bytes. */
  function CompareTexts(a: string, op: BinOp, b: string): bool {
    var x, y := Utf8.Encode(a), Utf8.Encode(b);
    match op
    case Eq => a == b
    case Ne => a != b
    case Lt => Less(x, y)
    case Le => AtMost(x, y)
    case Gt => Less(y, x)
    case Ge => AtMost(y, x)
    case _ => false
  }

  /** Texts with texts, numbers with numbers; anything else compares false. */
  function CompareValues(a: Value, op: BinOp, b: Value): bool {
    match (a, b)
    case (Text(x), Text(y)) => CompareTexts(x, op, y)
    case (Real(x), Real(y)) => CompareReals(x, op, y)
    case (Integer(x), Integer(y)) => CompareReals(x as real, op, y as real)
    case (Real(x), Integer(y)) => CompareReals(x, op, y as real)
    case (Integer(x), Real(y)) => CompareReals(x as real, op, y)
    case _ => false
  }

  /** AND and OR evaluate their right side only when it matters. */
  function EvalExpr(e: Expr, row: ExpenseRow): Result<bool, SqlError> {
    match e
    case BinaryOp(op, left, right) =>
      if op == And then
        var l := EvalExpr(left, row);
        if l == Ok(true) then EvalExpr(right, row) else l
      else if op == Or then
        var l := EvalExpr(left, row);
        if l == Ok(false) then EvalExpr(right, row) else l
      else
        var l, r := EvalValue(left, row), EvalValue(right, row);
        if l.Err? then Err(l.error) else if r.Err? then Err(r.error) else Ok(CompareValues(l.value, op, r.value))
    case _ => Ok(false)
  }

  /** A row is kept when the condition evaluates to true; an error drops it. */
  predicate Keeps(w: Option<Expr>, row: ExpenseRow) {
    w.None? || EvalExpr(w.value, row) == Ok(true)
  }

  /** `id = 'x'` or `'x' = id` as the whole condition. */
  function ExtractIdEq(w: Option<Expr>): Option<string> {
    match w
    case Some(BinaryOp(Eq, Column(c), Literal(Text(id)))) => if c == "id" then Some(id) else None
    case Some(BinaryOp(Eq, Literal(Text(id)), Column(c))) => if c == "id" then Some(id) else None
    case _ => None
  }

  // ---------- the stages of a full scan ----------

  /** The rows that decode; the others are skipped. */
  function DecodeRows(codec: RowCodec, pairs: seq<(Bytes, Bytes)>): seq<ExpenseRow> {
    if pairs == [] then [] else
    var rest := DecodeRows(codec, pairs[1..]);
    match codec.decode(pairs[0].1) case Some(row) => [row] + rest case None => rest
  }

  function FilterRows(w: Option<Expr>, rows: seq<ExpenseRow>): seq<ExpenseRow> {
    if rows == [] then []
    else if Keeps(w, rows[0]) then [rows[0]] + FilterRows(w, rows[1..])
    else FilterRows(w, rows[1..])
  }

  function TextField(row: ExpenseRow, column: string): string {
    if column == "id" then row.id
    else if column == "category" then row.category
    else if column == "description" then row.description
    else if column == "date" then row.date
    else ""
  }

  /** The group a row belongs to: its fields joined by '|'. */
  function GroupKey(row: ExpenseRow, columns: seq<string>): string {
    if columns == [] then ""
    else if |columns| == 1 then TextField(row, columns[0])
    else TextField(row, columns[0]) + "|" + GroupKey(row, columns[1..])
  }

  /** One row per group: the first row of the group, with the group's total amount. */
  function GroupMap(rows: seq<ExpenseRow>, columns: seq<string>): map<string, ExpenseRow> {
    if rows == [] then map[] else
    var last := rows[|rows| - 1];
    var before := GroupMap(rows[..|rows| - 1], columns);
    var key := GroupKey(last, columns);
    before[key := if key in before then before[key].(amount := before[key].amount + last.amount) else last]
  }

  /** The groups in some order, each once. */
  ghost predicate ListsGroups(groups: map<string, ExpenseRow>, keys: seq<string>, out: seq<ExpenseRow>) {
    && |out| == |keys| && (forall k :: k in groups <==> k in keys)
    && (forall i, j :: 0 <= i < j < |keys| ==> keys[i] != keys[j])
    && (forall i :: 0 <= i < |keys| ==> keys[i] in groups && out[i] == groups[keys[i]])
  }

  /** Each group's first row with the group's total as its amount. */
  function Totalled(groups: map<string, (ExpenseRow, real, nat)>): map<string, ExpenseRow> {
    map k | k in groups :: groups[k].0.(amount := groups[k].1)
  }

  /** `into_values`: the groups in whatever order they come. */
  method EmptyGroups(groups: map<string, (ExpenseRow, real, nat)>)
    returns (out: seq<ExpenseRow>, ghost keys: seq<string>)
    ensures ListsGroups(Totalled(groups), keys, out)
  {
    out, keys := [], [];
    var left := groups;
    while left != map[]
      invariant forall k :: k in left ==> k in groups && left[k] == groups[k]
      invariant forall k :: k in groups <==> k in left || k in keys
      invariant forall k :: k in keys ==> k !in left
      invariant |out| == |keys| && forall i, j :: 0 <= i < j < |keys| ==> keys[i] != keys[j]
      invariant forall i :: 0 <= i < |keys| ==> keys[i] in groups && out[i] == Totalled(groups)[keys[i]]
      decreases left.Keys
    {
      var key :| key in left;
      out := out + [left[key].0.(amount := left[key].1)];
      keys := keys + [key];
      left := left - {key};
    }
  }

  /** `group_by`: a hash map of first rows and totals, emptied in whatever order it has. */
  method GroupBy(rows: seq<ExpenseRow>, columns: seq<string>) returns (out: seq<ExpenseRow>, ghost keys: seq<string>)
    ensures ListsGroups(GroupMap(rows, columns), keys, out)
  {
    var groups: map<string, (ExpenseRow, real, nat)> := map[];
    for i := 0 to |rows|
      invariant groups.Keys == GroupMap(rows[..i], columns).Keys
      invariant forall k :: k in groups ==>
        groups[k].0.(amount := groups[k].1) == GroupMap(rows[..i], columns)[k]
    {
      assert rows[..i + 1][..i] == rows[..i];
      var key := GroupKey(rows[i], columns);
      var entry := if key in groups then groups[key] else (rows[i], 0.0, 0);
      groups := groups[key := (entry.0, entry.1 + rows[i].amount, entry.2 + 1)];
    }
    assert rows[..|rows|] == rows;
    assert Totalled(groups) == GroupMap(rows, columns);
    out, keys := EmptyGroups(groups);
  }

  function NumberField(row: ExpenseRow, column: string): real {
    if column == "amount" then row.amount else if column == "created_at" then row.createdAt as real else 0.0
  }

  /** True when a may not stand after b. */
  predicate Precedes(order: OrderBy, a: ExpenseRow, b: ExpenseRow) {
    var x, y := NumberField(a, order.column), NumberField(b, order.column);
    if order.ascending then x < y else y < x
  }

  /** Puts a row behind all the rows it may stand behind. */
  function InsertRow(order: OrderBy, row: ExpenseRow, sorted: seq<ExpenseRow>): seq<ExpenseRow> {
    if sorted == [] then [row]
    else if Precedes(order, row, sorted[|sorted| - 1])
    then InsertRow(order, row, sorted[..|sorted| - 1]) + [sorted[|sorted| - 1]]
    else sorted + [row]
  }

  /** The stable sort by the order column. */
  function SortRows(order: OrderBy, rows: seq<ExpenseRow>): seq<ExpenseRow> {
    if rows == [] then [] else InsertRow(order, rows[|rows| - 1], SortRows(order, rows[..|rows| - 1]))
  }

  function Truncated(rows: seq<ExpenseRow>, limit: Option<nat>): seq<ExpenseRow> {
    if limit.Some? && limit.value < |rows| then rows[..limit.value] else rows
  }

  /** The rows after GROUP BY; only the order of the groups is open. */
  ghost predicate GroupedAs(groupBy: Option<seq<string>>, kept: seq<ExpenseRow>, grouped: seq<ExpenseRow>) {
    if groupBy.None? then grouped == kept
    else exists keys :: ListsGroups(GroupMap(kept, groupBy.value), keys, grouped)
  }

  function OrderedAndCut(q: SelectStmt, grouped: seq<ExpenseRow>): seq<ExpenseRow> {
    Truncated(if q.orderBy.Some? then SortRows(q.orderBy.value, grouped) else grouped, q.limit)
  }

  /** What a full scan may return for these pairs. */
  ghost predicate ScanResult(codec: RowCodec, pairs: seq<(Bytes, Bytes)>, q: SelectStmt, rows: seq<ExpenseRow>) {
    exists grouped :: GroupedAs(q.groupBy, FilterRows(q.whereClause, DecodeRows(codec, pairs)), grouped)
                      && rows == OrderedAndCut(q, grouped)
  }

  /** What the id fast path returns for what the lookup found. */
  function FastRows(codec: RowCodec, found: Option<Bytes>): Result<seq<ExpenseRow>, SqlError> {
    match found
    case None => Ok([])
    case Some(bytes) => match codec.decode(bytes) case None => Err(UndecodableRow) case Some(row) => Ok([row])
  }

  // ---------- SELECT ----------

  /** What a SELECT may return when the next write would get sequence number `next`: a
      condition on the id alone is a lookup, anything else a scan and its stages. */
  ghost predicate SelectResult(codec: RowCodec, view: EngineView, next: u64, q: SelectStmt,
                               r: Result<seq<ExpenseRow>, SqlError>)
  {
    match ExtractIdEq(q.whereClause)
    case Some(id) => r == FastRows(codec, Get(view, KeyOf(id), Snapshot(next)))
    case None => r.Ok? && ScanResult(codec, Scan(view, PREFIX, Snapshot(next)), q, r.value)
  }

  /** `execute_select`: by id through a point lookup, otherwise a scan and its stages. */
  method ExecuteSelect(engine: LsmEngine, codec: RowCodec, q: SelectStmt) returns (r: Result<seq<ExpenseRow>, SqlError>)
    ensures SelectResult(codec, engine.View(), engine.counter.next, q, r)
  {
    var id := ExtractIdEq(q.whereClause);
    if id.Some? {
      var found := engine.GetNow(KeyOf(id.value));
      return FastRows(codec, found);
    }
    var pairs := engine.ScanPrefix(PREFIX);
    var rows := FullScan(codec, pairs, q);
    r := Ok(rows);
  }

  /** The stages after the scan: decode, WHERE, GROUP BY, ORDER BY, LIMIT. */
  method FullScan(codec: RowCodec, pairs: seq<(Bytes, Bytes)>, q: SelectStmt) returns (rows: seq<ExpenseRow>)
    ensures ScanResult(codec, pairs, q, rows)
  {
    var kept := DecodeAndRetain(codec, pairs, q.whereClause);
    var grouped := kept;
    ghost var keys: seq<string> := [];
    if q.groupBy.Some? {
      grouped, keys := GroupBy(kept, q.groupBy.value);
    }
    assert GroupedAs(q.groupBy, kept, grouped);
    rows := grouped;
    if q.orderBy.Some? {
      rows := SortRows(q.orderBy.value, grouped);
    }
    rows := Truncated(rows, q.limit);
  }

  method DecodeAndRetain(codec: RowCodec, pairs: seq<(Bytes, Bytes)>, w: Option<Expr>) returns (kept: seq<ExpenseRow>)
    ensures kept == FilterRows(w, DecodeRows(codec, pairs))
  {
    var rows: seq<ExpenseRow> := [];
    for i := 0 to |pairs|
      invariant rows == DecodeRows(codec, pairs[..i])
    {
      DecodeRowsSnoc(codec, pairs, i);
      var decoded := codec.decode(pairs[i].1);
      if decoded.Some? {
        rows := rows + [decoded.value];
      }
    }
    assert pairs[..|pairs|] == pairs;
    kept := [];
    for i := 0 to |rows|
      invariant kept == FilterRows(w, rows[..i])
    {
      FilterRowsSnoc(w, rows, i);
      if Keeps(w, rows[i]) {
        kept := kept + [rows[i]];
      }
    }
    assert rows[..|rows|] == rows;
  }

  lemma {:induction false} DecodeRowsSnoc(codec: RowCodec, pairs: seq<(Bytes, Bytes)>, i: nat)
    requires i < |pairs|
    ensures DecodeRows(codec, pairs[..i + 1]) == DecodeRows(codec, pairs[..i]) +
            match codec.decode(pairs[i].1) case Some(row) => [row] case None => []
    decreases |pairs|
  {
    var all := pairs[..i + 1];
    if i > 0 {
      DecodeRowsSnoc(codec, pairs[1..], i - 1);
      assert all[1..] == pairs[1..][..i] && pairs[..i][1..] == pairs[1..][..i - 1];
    }
  }

  lemma {:induction false} FilterRowsSnoc(w: Option<Expr>, rows: seq<ExpenseRow>, i: nat)
    requires i < |rows|
    ensures FilterRows(w, rows[..i + 1]) == FilterRows(w, rows[..i]) + if Keeps(w, rows[i]) then [rows[i]] else []
    decreases |rows|
  {
    var all := rows[..i + 1];
    if i > 0 {
      FilterRowsSnoc(w, rows[1..], i - 1);
      assert all[1..] == rows[1..][..i] && rows[..i][1..] == rows[1..][..i - 1];
    }
  }

  // ---------- INSERT ----------

  const I64_MIN: int := -0x8000_0000_0000_0000
  const I64_MAX: int := 0x7FFF_FFFF_FFFF_FFFF

  /** `f as i64`: towards zero, and stopping at the ends of the range. */
  function Truncate(f: real): int {
    var n := if f >= 0.0 then f.Floor else -((-f).Floor);
    if n < I64_MIN then I64_MIN else if n > I64_MAX then I64_MAX else n
  }

  function SetColumn(row: ExpenseRow, column: string, v: Value): Result<ExpenseRow, SqlError> {
    if column == "amount" then
      match v
      case Real(f) => Ok(row.(amount := f))
      case Integer(n) => Ok(row.(amount := n as real))
      case _ => Err(TypeError("REAL"))
    else if column == "category" || column == "description" || column == "date" then
      if !v.Text? then Err(TypeError("TEXT"))
      else if column == "category" then Ok(row.(category := v.text))
      else if column == "description" then Ok(row.(description := v.text))
      else Ok(row.(date := v.text))
    else if column == "created_at" then
      match v
      case Integer(n) => Ok(row.(createdAt := n))
      case Real(f) => Ok(row.(createdAt := Truncate(f)))
      case _ => Err(TypeError("INTEGER"))
    else Err(UnknownColumn(column))
  }

  /** Columns and values side by side, as far as both go; the first error stops. */
  function SetColumns(row: ExpenseRow, columns: seq<string>, values: seq<Value>): Result<ExpenseRow, SqlError>
    decreases |columns|
  {
    if columns == [] || values == [] then Ok(row) else
    match SetColumn(row, columns[0], values[0])
    case Err(e) => Err(e)
    case Ok(next) => SetColumns(next, columns[1..], values[1..])
  }

  function BlankRow(id: string, now: int): ExpenseRow {
    ExpenseRow(id, 0.0, "", "", "", now)
  }

  /** No column assigns the id. */
  lemma {:induction false} SetColumnsKeepsId(row: ExpenseRow, columns: seq<string>, values: seq<Value>)
    ensures SetColumns(row, columns, values).Ok? ==> SetColumns(row, columns, values).value.id == row.id
    decreases |columns|
  {
    if columns != [] && values != [] && SetColumn(row, columns[0], values[0]).Ok? {
      SetColumnsKeepsId(SetColumn(row, columns[0], values[0]).value, columns[1..], values[1..]);
    }
  }

  /** `execute_insert`, given the fresh id and the time: the row goes under its own
      id, or nothing is written. */
  method ExecuteInsert(engine: LsmEngine, codec: RowCodec, id: string, now: int,
                       columns: seq<string>, values: seq<Value>) returns (r: Result<string, SqlError>)
    requires engine.Valid()
    modifies engine`memtable, engine`immutable, engine.memtable, engine.wal, engine.counter
    ensures engine.Valid()
    ensures match SetColumns(BlankRow(id, now), columns, values)
            case Err(e) =>
              r == Err(e) && engine.View() == old(engine.View()) && engine.counter.next == old(engine.counter.next)
            case Ok(row) =>
              && r == Ok(id) && row.id == id
              && engine.View() == Commit(engine.crc, old(engine.View()),
                                         WalRecord(old(engine.counter.next), KeyOf(id), Some(codec.encode(row))))
              && engine.counter.next == Successor(old(engine.counter.next))
  {
    var row := BlankRow(id, now);
    SetColumnsKeepsId(row, columns, values);
    var i := 0;
    while i < |columns| && i < |values|
      invariant 0 <= i <= |columns| && i <= |values|
      invariant SetColumns(BlankRow(id, now), columns, values) == SetColumns(row, columns[i..], values[i..])
    {
      var next := SetColumn(row, columns[i], values[i]);
      assert columns[i..][1..] == columns[i + 1..] && values[i..][1..] == values[i + 1..];
      if next.Err? {
        return Err(next.error);
      }
      row := next.value;
      i := i + 1;
    }
    KeyIsNotEmpty(id);
    var put := engine.Put(KeyOf(id), codec.encode(row));
    r := Ok(id);
  }

  lemma KeyIsNotEmpty(id: string)
    ensures KeyOf(id) != [] && PREFIX <= KeyOf(id)
  {
    Utf8.EncodeAppend("expense:", id);
  }
}
