/** What queries return: the id fast path against the full scan, group totals,
    and the sort. */
module SqlTheorems {
  import opened Wrappers
  import opened Bytes
  import opened Ordered
  import opened WalRecord
  import opened EngineState
  import opened EngineRuns
  import opened EngineTheorems
  import opened FrozenKeys
  import opened Mvcc
  import opened SqlAst
  import opened SqlExecutor

  // ---------- what the store holds ----------

  /** What INSERT and delete do to the engine, with restarts in between. */
  ghost predicate RowOp(codec: RowCodec, op: Op) {
    op.Put? ==> exists row: ExpenseRow {:trigger codec.encode(row)} ::
                  codec.storable(row) && op.key == KeyOf(row.id) && op.value == codec.encode(row)
  }

  /** Every entry is a row under its own id. */
  ghost predicate StoreOk(codec: RowCodec, m: map<Bytes, Bytes>) {
    forall k :: k in m ==> codec.decode(m[k]).Some? && k == KeyOf(codec.decode(m[k]).value.id)
  }

  lemma {:induction false} ModelIsStore(codec: RowCodec, ops: seq<Op>)
    requires Inverse(codec) && forall i :: 0 <= i < |ops| ==> RowOp(codec, ops[i])
    ensures StoreOk(codec, Model(ops))
  {
    if ops != [] {
      var init, op := ops[..|ops| - 1], ops[|ops| - 1];
      ModelIsStore(codec, init);
      assert RowOp(codec, op);
      if op.Put? {
        var row: ExpenseRow :| codec.storable(row) && op.key == KeyOf(row.id) && op.value == codec.encode(row);
        assert codec.decode(op.value) == Some(row);
      }
    }
  }

  // ---------- the id condition ----------

  lemma KeepsId(w: Option<Expr>, id: string, row: ExpenseRow)
    requires ExtractIdEq(w) == Some(id)
    ensures Keeps(w, row) <==> row.id == id
  {
  }

  /** A condition is taken for an id lookup exactly when it is `id = text` or `text = id`. */
  lemma IdLookupExactly(w: Option<Expr>, id: string)
    ensures ExtractIdEq(w) == Some(id) <==>
            || w == Some(BinaryOp(Eq, Column("id"), Literal(Text(id))))
            || w == Some(BinaryOp(Eq, Literal(Text(id)), Column("id")))
  {
  }

  /** Rows are stored under `expense:` and the id. */
  lemma KeyBytes(id: string)
    ensures KeyOf(id) == [101, 120, 112, 101, 110, 115, 101, 58] + Utf8.Encode(id)
    ensures PREFIX == [101, 120, 112, 101, 110, 115, 101, 58]
  {
    Utf8.EncodeAppend("expense:", id);
    PrefixBytes();
  }

  lemma PrefixBytes()
    ensures Utf8.Encode("expense:") == [101, 120, 112, 101, 110, 115, 101, 58]
  {
    Utf8.EncodeAppend("expe", "nse:");
    assert "expense:" == "expe" + "nse:";
    FourLetters('e', 'x', 'p', 'e');
    FourLetters('n', 's', 'e', ':');
  }

  lemma FourLetters(a: char, b: char, c: char, d: char)
    requires a < 128 as char && b < 128 as char && c < 128 as char && d < 128 as char
    ensures Utf8.Encode([a, b, c, d]) == [a as int, b as int, c as int, d as int]
  {
    assert [d][1..] == "" && Utf8.Encode([d]) == [d as int];
    assert [c, d][1..] == [d] && Utf8.Encode([c, d]) == [c as int, d as int];
    assert [b, c, d][1..] == [c, d] && Utf8.Encode([b, c, d]) == [b as int, c as int, d as int];
    assert [a, b, c, d][1..] == [b, c, d];
  }

  lemma SameId(id: string, other: string)
    ensures KeyOf(id) == KeyOf(other) <==> id == other
  {
    if KeyOf(id) == KeyOf(other) {
      Utf8.EncodeInjective("expense:" + id, "expense:" + other);
      assert ("expense:" + id)[8..] == id && ("expense:" + other)[8..] == other;
    }
  }

  ghost predicate RowPairs(codec: RowCodec, pairs: seq<(Bytes, Bytes)>) {
    && (forall i :: 0 <= i < |pairs| ==>
          codec.decode(pairs[i].1).Some? && pairs[i].0 == KeyOf(codec.decode(pairs[i].1).value.id))
    && (forall i, j :: 0 <= i < j < |pairs| ==> pairs[i].0 != pairs[j].0)
  }

  /** Scanning and filtering on an id leaves the one row under that id, if there is one. */
  lemma {:induction false} FilterFindsId(codec: RowCodec, pairs: seq<(Bytes, Bytes)>, w: Option<Expr>, id: string)
    requires RowPairs(codec, pairs) && ExtractIdEq(w) == Some(id)
    ensures var kept := FilterRows(w, DecodeRows(codec, pairs));
            && ((forall i :: 0 <= i < |pairs| ==> pairs[i].0 != KeyOf(id)) ==> kept == [])
            && (forall i :: 0 <= i < |pairs| && pairs[i].0 == KeyOf(id) ==> kept == [codec.decode(pairs[i].1).value])
  {
    if pairs != [] {
      var row, rest := codec.decode(pairs[0].1).value, pairs[1..];
      assert forall i :: 0 <= i < |rest| ==> rest[i] == pairs[i + 1];
      FilterFindsId(codec, rest, w, id);
      KeepsId(w, id, row);
      SameId(row.id, id);
      var kept, more := FilterRows(w, DecodeRows(codec, pairs)), FilterRows(w, DecodeRows(codec, rest));
      assert DecodeRows(codec, pairs) == [row] + DecodeRows(codec, rest);
      assert kept == if row.id == id then [row] + more else more;
      forall i | 0 <= i < |pairs| && pairs[i].0 == KeyOf(id) ensures kept == [codec.decode(pairs[i].1).value] {
        if i == 0 {
          assert forall j :: 0 <= j < |rest| ==> rest[j].0 != KeyOf(id);
        } else {
          assert rest[i - 1].0 == KeyOf(id) && pairs[0].0 != pairs[i].0;
        }
      }
    }
  }

  // ---------- at most one row ----------

  lemma SomeKey(keys: seq<string>)
    requires keys != []
    ensures exists k :: k in keys
  {
    assert keys[0] in keys;
  }

  lemma TwoKeys(keys: seq<string>)
    requires |keys| > 1 && forall i, j :: 0 <= i < j < |keys| ==> keys[i] != keys[j]
    ensures exists k, l :: k in keys && l in keys && k != l
  {
    assert keys[0] in keys && keys[1] in keys && keys[0] != keys[1];
  }

  lemma OnlyKey(keys: seq<string>, key: string)
    requires forall k :: k in keys <==> k == key
    requires forall i, j :: 0 <= i < j < |keys| ==> keys[i] != keys[j]
    ensures |keys| == 1
  {
    if |keys| > 1 {
      TwoKeys(keys);
      assert false;
    }
    assert key in keys;
  }

  lemma GroupNothing(groupBy: Option<seq<string>>, grouped: seq<ExpenseRow>)
    requires GroupedAs(groupBy, [], grouped)
    ensures grouped == []
  {
    if groupBy.Some? {
      var keys :| ListsGroups(GroupMap([], groupBy.value), keys, grouped);
      if keys != [] {
        SomeKey(keys);
        assert false;
      }
    }
  }

  lemma GroupOne(groupBy: Option<seq<string>>, row: ExpenseRow, grouped: seq<ExpenseRow>)
    requires GroupedAs(groupBy, [row], grouped)
    ensures grouped == [row]
  {
    if groupBy.Some? {
      OneGroup(row, groupBy.value);
      var key := GroupKey(row, groupBy.value);
      var keys :| ListsGroups(map[key := row], keys, grouped);
      OnlyKey(keys, key);
      assert keys[0] in map[key := row];
      assert grouped[0] == row;
    }
  }

  lemma OneGroup(row: ExpenseRow, columns: seq<string>)
    ensures GroupMap([row], columns) == map[GroupKey(row, columns) := row]
  {
    assert [row][..0] == [];
    assert GroupMap([], columns) == map[];
  }

  lemma CutNothing(q: SelectStmt)
    ensures OrderedAndCut(q, []) == []
  {
  }

  lemma CutOne(q: SelectStmt, row: ExpenseRow)
    ensures OrderedAndCut(q, [row]) == if q.limit == Some(0) then [] else [row]
  {
    if q.orderBy.Some? {
      assert [row][..0] == [];
      assert SortRows(q.orderBy.value, [row]) == [row];
    }
  }

  /** The id fast path against scanning, filtering, grouping, sorting and cutting, on
      every store that INSERT and delete reach. They return the same rows for a row
      that exists exactly when LIMIT is not 0, and for one that does not exist exactly
      when it did not exist either when a memtable was frozen since the last restart. */
  lemma FastPathAgrees(crc: Crc, codec: RowCodec, ops: seq<Op>, q: SelectStmt, id: string, rows: seq<ExpenseRow>)
    requires Writes(ops) < U64_MAX && forall i :: 0 <= i < |ops| ==> OpFits(ops[i]) && RowOp(codec, ops[i])
    requires Inverse(codec) && ExtractIdEq(q.whereClause) == Some(id) && Session(crc, ops).Up?
    requires var m := Session(crc, ops); ScanResult(codec, Scan(m.view, PREFIX, Snapshot(m.next)), q, rows)
    ensures var m := Session(crc, ops);
            FastRows(codec, Get(m.view, KeyOf(id), Snapshot(m.next))) == Ok(rows)
            <==> if KeyOf(id) in Model(ops) then q.limit != Some(0) else KeyOf(id) !in FrozenLive(ops)
  {
    LookupOverCalls(crc, ops, KeyOf(id));
    WholeRun(crc, ops, PREFIX);
    ModelIsStore(codec, ops);
    var m := Session(crc, ops);
    FastAgainstScan(codec, Model(ops), q, id, rows, Get(m.view, KeyOf(id), Snapshot(m.next)),
                    KeyOf(id) !in FrozenLive(ops));
  }

  /** Bytes that are no row: a lookup by id fails on them, a scan passes over them. */
  lemma NotARow(codec: RowCodec, key: Bytes, bytes: Bytes, more: seq<(Bytes, Bytes)>)
    requires codec.decode(bytes) == None
    ensures FastRows(codec, Some(bytes)) == Err(UndecodableRow)
    ensures DecodeRows(codec, [(key, bytes)] + more) == DecodeRows(codec, more)
  {
    assert ([(key, bytes)] + more)[1..] == more;
  }

  /** The same for any store, given what the lookup found. */
  lemma FastAgainstScan(codec: RowCodec, store: map<Bytes, Bytes>, q: SelectStmt, id: string, rows: seq<ExpenseRow>,
                        found: Option<Bytes>, silent: bool)
    requires StoreOk(codec, store) && ExtractIdEq(q.whereClause) == Some(id)
    requires ScanResult(codec, Listing(Matching(store, PREFIX)), q, rows)
    requires if KeyOf(id) in store then found == Some(store[KeyOf(id)]) else found == None <==> silent
    ensures FastRows(codec, found) == Ok(rows) <==> if KeyOf(id) in store then q.limit != Some(0) else silent
  {
    KeptForId(codec, store, q.whereClause, id);
    ScanOfKept(codec, Listing(Matching(store, PREFIX)), q, FastRows(codec, Find(store, KeyOf(id))).value, rows);
  }

  /** What the scan returns when at most one row passes WHERE. */
  lemma ScanOfKept(codec: RowCodec, pairs: seq<(Bytes, Bytes)>, q: SelectStmt, kept: seq<ExpenseRow>,
                   rows: seq<ExpenseRow>)
    requires |kept| <= 1 && FilterRows(q.whereClause, DecodeRows(codec, pairs)) == kept
    requires ScanResult(codec, pairs, q, rows)
    ensures rows == if q.limit == Some(0) then [] else kept
  {
    var grouped :| GroupedAs(q.groupBy, kept, grouped) && rows == OrderedAndCut(q, grouped);
    if kept == [] {
      GroupNothing(q.groupBy, grouped);
      CutNothing(q);
    } else {
      assert kept == [kept[0]];
      GroupOne(q.groupBy, kept[0], grouped);
      CutOne(q, kept[0]);
    }
  }

  /** The rows of a store that pass WHERE: the row under the id, if there is one. */
  lemma KeptForId(codec: RowCodec, m: map<Bytes, Bytes>, w: Option<Expr>, id: string)
    requires StoreOk(codec, m) && ExtractIdEq(w) == Some(id)
    ensures FastRows(codec, Find(m, KeyOf(id))).Ok?
    ensures FilterRows(w, DecodeRows(codec, Listing(Matching(m, PREFIX)))) == FastRows(codec, Find(m, KeyOf(id))).value
  {
    var pairs := Listing(Matching(m, PREFIX));
    ListingIsRows(codec, m);
    FilterFindsId(codec, pairs, w, id);
    KeyIsNotEmpty(id);
    ListingMeaning(Matching(m, PREFIX));
    if KeyOf(id) in m {
      assert (KeyOf(id), m[KeyOf(id)]) in pairs;
    } else {
      forall i | 0 <= i < |pairs| ensures pairs[i].0 != KeyOf(id) {
        assert (pairs[i].0, pairs[i].1) in pairs;
      }
    }
  }

  lemma ListingIsRows(codec: RowCodec, m: map<Bytes, Bytes>)
    requires StoreOk(codec, m)
    ensures RowPairs(codec, Listing(Matching(m, PREFIX)))
  {
    var pairs := Listing(Matching(m, PREFIX));
    ListingMeaning(Matching(m, PREFIX));
    forall i | 0 <= i < |pairs|
      ensures codec.decode(pairs[i].1).Some? && pairs[i].0 == KeyOf(codec.decode(pairs[i].1).value.id)
    {
      assert (pairs[i].0, pairs[i].1) in pairs;
    }
    forall i, j | 0 <= i < j < |pairs| ensures pairs[i].0 != pairs[j].0 {
      LessIrreflexive(pairs[i].0);
    }
  }

  // ---------- which rows share a group ----------

  /** How many times the separator of group keys occurs. */
  function Bars(s: string): nat {
    if s == "" then 0 else (if s[0] == '|' then 1 else 0) + Bars(s[1..])
  }

  lemma {:induction false} BarsAppend(s: string, t: string)
    ensures Bars(s + t) == Bars(s) + Bars(t)
  {
    if s == "" {
      assert s + t == t;
    } else {
      assert (s + t)[1..] == s[1..] + t;
      BarsAppend(s[1..], t);
    }
  }

  /** A shorter first field leaves its separator inside the longer one. */
  lemma ShorterHasFewer(a: string, b: string, x: string, y: string)
    requires a + "|" + x == b + "|" + y && |a| < |b|
    ensures Bars(a) < Bars(b)
  {
    var rest := b[|a| + 1..];
    assert b == a + "|" + rest by {
      assert (a + "|" + x)[..|a| + 1] == a + "|" && (b + "|" + y)[..|b|] == b;
    }
    BarsAppend(a + "|", rest);
    BarsAppend(a, "|");
    assert Bars("|") == 1;
  }

  lemma SameSplit(a: string, b: string, x: string, y: string)
    requires a + "|" + x == b + "|" + y && Bars(a) == Bars(b)
    ensures a == b && x == y
  {
    if |a| < |b| {
      ShorterHasFewer(a, b, x, y);
    } else if |b| < |a| {
      ShorterHasFewer(b, a, y, x);
    } else {
      assert a == (a + "|" + x)[..|a|] && b == (b + "|" + y)[..|b|];
      assert x == (a + "|" + x)[|a| + 1..] && y == (b + "|" + y)[|b| + 1..];
    }
  }

  predicate SameFields(a: ExpenseRow, b: ExpenseRow, columns: seq<string>) {
    forall i :: 0 <= i < |columns| ==> TextField(a, columns[i]) == TextField(b, columns[i])
  }

  /** Every field but the last holds the separator equally often. */
  predicate SameBars(a: ExpenseRow, b: ExpenseRow, columns: seq<string>) {
    forall i :: 0 <= i < |columns| - 1 ==> Bars(TextField(a, columns[i])) == Bars(TextField(b, columns[i]))
  }

  lemma {:induction false} SameKey(a: ExpenseRow, b: ExpenseRow, columns: seq<string>)
    requires SameFields(a, b, columns)
    ensures GroupKey(a, columns) == GroupKey(b, columns)
  {
    if |columns| > 1 {
      assert forall i :: 0 <= i < |columns[1..]| ==> columns[1..][i] == columns[i + 1];
      SameKey(a, b, columns[1..]);
    }
  }

  /** Two rows have equal fields in all columns of a GROUP BY exactly when they share a
      group and every field but the last holds as many '|' in the one as in the other;
      so with one column, or without '|', groups are what GROUP BY asks for. */
  lemma {:induction false} SameGroupExactly(a: ExpenseRow, b: ExpenseRow, columns: seq<string>)
    ensures SameFields(a, b, columns) <==> GroupKey(a, columns) == GroupKey(b, columns) && SameBars(a, b, columns)
  {
    if SameFields(a, b, columns) {
      SameKey(a, b, columns);
    }
    if |columns| > 1 && GroupKey(a, columns) == GroupKey(b, columns) && SameBars(a, b, columns) {
      var rest := columns[1..];
      SameSplit(TextField(a, columns[0]), TextField(b, columns[0]), GroupKey(a, rest), GroupKey(b, rest));
      forall i | 0 <= i < |rest| - 1 ensures Bars(TextField(a, rest[i])) == Bars(TextField(b, rest[i])) {
        assert rest[i] == columns[i + 1];
      }
      SameGroupExactly(a, b, rest);
      forall i | 0 <= i < |columns| ensures TextField(a, columns[i]) == TextField(b, columns[i]) {
        if i > 0 {
          assert columns[i] == rest[i - 1];
        }
      }
    }
  }

  /** It does happen: rows that differ in both columns are counted as one group. */
  lemma MixedGroupExample()
    ensures var columns := ["category", "description"];
            var a := ExpenseRow("1", 1.0, "x|y", "z", "", 0);
            var b := ExpenseRow("2", 2.0, "x", "y|z", "", 0);
            && a.category != b.category && a.description != b.description
            && GroupMap([a, b], columns) == map[GroupKey(a, columns) := a.(amount := 3.0)]
  {
    var columns := ["category", "description"];
    var a, b := ExpenseRow("1", 1.0, "x|y", "z", "", 0), ExpenseRow("2", 2.0, "x", "y|z", "", 0);
    assert columns[1..] == ["description"];
    assert GroupKey(a, columns) == "x|y" + "|" + "z" == "x|y|z";
    assert GroupKey(b, columns) == "x" + "|" + "y|z" == "x|y|z";
    OneGroup(a, columns);
    assert [a, b][..1] == [a];
  }

  // ---------- grouping ----------

  /** The total amount of the rows of one group. */
  function TotalOf(rows: seq<ExpenseRow>, columns: seq<string>, key: string): real {
    if rows == [] then 0.0 else
    var last := rows[|rows| - 1];
    TotalOf(rows[..|rows| - 1], columns, key) + if GroupKey(last, columns) == key then last.amount else 0.0
  }

  /** The first row of a group. */
  function FirstOf(rows: seq<ExpenseRow>, columns: seq<string>, key: string): Option<ExpenseRow> {
    if rows == [] then None
    else if GroupKey(rows[0], columns) == key then Some(rows[0])
    else FirstOf(rows[1..], columns, key)
  }

  lemma {:induction false} FirstOfSnoc(rows: seq<ExpenseRow>, columns: seq<string>, key: string)
    requires rows != []
    ensures FirstOf(rows, columns, key) ==
            var before, last := FirstOf(rows[..|rows| - 1], columns, key), rows[|rows| - 1];
            if before.Some? then before else if GroupKey(last, columns) == key then Some(last) else None
  {
    var init := rows[..|rows| - 1];
    if init != [] {
      FirstOfSnoc(rows[1..], columns, key);
      assert rows[1..][..|rows| - 2] == init[1..];
    }
  }

  /** One row per group: its first row, with the total amount of its rows. */
  lemma {:induction false} GroupTotals(rows: seq<ExpenseRow>, columns: seq<string>, key: string)
    ensures match FirstOf(rows, columns, key)
            case None => key !in GroupMap(rows, columns) && TotalOf(rows, columns, key) == 0.0
            case Some(row) =>
              && key in GroupMap(rows, columns)
              && GroupMap(rows, columns)[key] == row.(amount := TotalOf(rows, columns, key))
  {
    if rows != [] {
      GroupTotals(rows[..|rows| - 1], columns, key);
      FirstOfSnoc(rows, columns, key);
    }
  }

  /** Every row belongs to a group. */
  lemma {:induction false} RowHasGroup(rows: seq<ExpenseRow>, columns: seq<string>, i: nat)
    requires i < |rows|
    ensures FirstOf(rows, columns, GroupKey(rows[i], columns)).Some?
  {
    if i > 0 {
      RowHasGroup(rows[1..], columns, i - 1);
    }
  }

  function Sum(rows: seq<ExpenseRow>): real {
    if rows == [] then 0.0 else Sum(rows[..|rows| - 1]) + rows[|rows| - 1].amount
  }

  function SumTotals(rows: seq<ExpenseRow>, columns: seq<string>, keys: seq<string>): real {
    if keys == [] then 0.0
    else SumTotals(rows, columns, keys[..|keys| - 1]) + TotalOf(rows, columns, keys[|keys| - 1])
  }

  /** One row more counts once, in its own group. */
  lemma {:induction false} SumTotalsSnoc(rows: seq<ExpenseRow>, columns: seq<string>, keys: seq<string>)
    requires rows != [] && forall i, j :: 0 <= i < j < |keys| ==> keys[i] != keys[j]
    ensures var init, last := rows[..|rows| - 1], rows[|rows| - 1];
            SumTotals(rows, columns, keys) ==
            SumTotals(init, columns, keys) + if GroupKey(last, columns) in keys then last.amount else 0.0
  {
    if keys != [] {
      var n := |keys| - 1;
      SumTotalsSnoc(rows, columns, keys[..n]);
      assert forall k :: k in keys <==> k in keys[..n] || k == keys[n];
      assert keys[n] !in keys[..n];
    }
  }

  lemma {:induction false} TotalsAddUp(rows: seq<ExpenseRow>, columns: seq<string>, keys: seq<string>)
    requires forall i, j :: 0 <= i < j < |keys| ==> keys[i] != keys[j]
    requires forall i :: 0 <= i < |rows| ==> GroupKey(rows[i], columns) in keys
    ensures SumTotals(rows, columns, keys) == Sum(rows)
  {
    if rows == [] {
      NothingAddsUp(columns, keys);
    } else {
      var init := rows[..|rows| - 1];
      assert forall i :: 0 <= i < |init| ==> init[i] == rows[i];
      TotalsAddUp(init, columns, keys);
      SumTotalsSnoc(rows, columns, keys);
    }
  }

  lemma {:induction false} NothingAddsUp(columns: seq<string>, keys: seq<string>)
    ensures SumTotals([], columns, keys) == 0.0
  {
    if keys != [] {
      NothingAddsUp(columns, keys[..|keys| - 1]);
    }
  }

  lemma {:induction false} SumOfGroups(rows: seq<ExpenseRow>, columns: seq<string>, keys: seq<string>,
                                       out: seq<ExpenseRow>)
    requires |out| == |keys|
    requires forall i :: 0 <= i < |keys| ==> out[i].amount == TotalOf(rows, columns, keys[i])
    ensures Sum(out) == SumTotals(rows, columns, keys)
  {
    if keys != [] {
      SumOfGroups(rows, columns, keys[..|keys| - 1], out[..|out| - 1]);
    }
  }

  /** Grouping moves no money: the groups together have the amount of all rows. */
  lemma GroupingConserves(rows: seq<ExpenseRow>, columns: seq<string>, keys: seq<string>, out: seq<ExpenseRow>)
    requires ListsGroups(GroupMap(rows, columns), keys, out)
    ensures Sum(out) == Sum(rows)
  {
    forall i | 0 <= i < |keys| ensures out[i].amount == TotalOf(rows, columns, keys[i]) {
      GroupTotals(rows, columns, keys[i]);
    }
    forall i | 0 <= i < |rows| ensures GroupKey(rows[i], columns) in keys {
      RowHasGroup(rows, columns, i);
      GroupTotals(rows, columns, GroupKey(rows[i], columns));
    }
    SumOfGroups(rows, columns, keys, out);
    TotalsAddUp(rows, columns, keys);
  }

  // ---------- sorting ----------

  ghost predicate InOrder(order: OrderBy, rows: seq<ExpenseRow>) {
    forall i, j :: 0 <= i < j < |rows| ==> !Precedes(order, rows[j], rows[i])
  }

  lemma {:induction false} InsertRowMembers(order: OrderBy, row: ExpenseRow, sorted: seq<ExpenseRow>)
    ensures multiset(InsertRow(order, row, sorted)) == multiset(sorted) + multiset{row}
  {
    if sorted != [] {
      var n := |sorted| - 1;
      assert sorted == sorted[..n] + [sorted[n]];
      InsertRowMembers(order, row, sorted[..n]);
    }
  }

  lemma InOrderSnoc(order: OrderBy, rows: seq<ExpenseRow>, last: ExpenseRow)
    requires InOrder(order, rows) && forall i :: 0 <= i < |rows| ==> !Precedes(order, last, rows[i])
    ensures InOrder(order, rows + [last])
  {
  }

  lemma {:induction false} InsertKeepsOrder(order: OrderBy, row: ExpenseRow, sorted: seq<ExpenseRow>)
    requires InOrder(order, sorted)
    ensures InOrder(order, InsertRow(order, row, sorted))
  {
    if sorted != [] {
      var n := |sorted| - 1;
      var init, last := sorted[..n], sorted[n];
      if Precedes(order, row, last) {
        InsertKeepsOrder(order, row, init);
        InsertRowMembers(order, row, init);
        var shifted := InsertRow(order, row, init);
        forall i | 0 <= i < |shifted| ensures !Precedes(order, last, shifted[i]) {
          assert shifted[i] in multiset(shifted);
          assert shifted[i] == row || shifted[i] in init;
        }
        InOrderSnoc(order, shifted, last);
      } else {
        InOrderSnoc(order, sorted, row);
      }
    }
  }

  /** ORDER BY: the same rows, none before one it must follow. */
  lemma {:induction false} SortSorts(order: OrderBy, rows: seq<ExpenseRow>)
    ensures InOrder(order, SortRows(order, rows))
    ensures multiset(SortRows(order, rows)) == multiset(rows)
  {
    if rows != [] {
      var n := |rows| - 1;
      SortSorts(order, rows[..n]);
      InsertKeepsOrder(order, rows[n], SortRows(order, rows[..n]));
      InsertRowMembers(order, rows[n], SortRows(order, rows[..n]));
      assert rows == rows[..n] + [rows[n]];
    }
  }

  /** The rows with one value in the order column, as they stand. */
  function Tied(order: OrderBy, rows: seq<ExpenseRow>, x: real): seq<ExpenseRow> {
    if rows == [] then [] else
    var last := rows[|rows| - 1];
    Tied(order, rows[..|rows| - 1], x) + if NumberField(last, order.column) == x then [last] else []
  }

  lemma TiedSnoc(order: OrderBy, rows: seq<ExpenseRow>, last: ExpenseRow, x: real)
    ensures Tied(order, rows + [last], x) ==
            Tied(order, rows, x) + if NumberField(last, order.column) == x then [last] else []
  {
    assert (rows + [last])[..|rows|] == rows;
  }

  lemma {:induction false} TiedInsert(order: OrderBy, row: ExpenseRow, sorted: seq<ExpenseRow>, x: real)
    ensures Tied(order, InsertRow(order, row, sorted), x) ==
            Tied(order, sorted, x) + if NumberField(row, order.column) == x then [row] else []
  {
    if sorted != [] && Precedes(order, row, sorted[|sorted| - 1]) {
      var init, last := sorted[..|sorted| - 1], sorted[|sorted| - 1];
      TiedInsert(order, row, init, x);
      TiedSnoc(order, InsertRow(order, row, init), last, x);
    } else {
      TiedSnoc(order, sorted, row, x);
    }
  }

  /** ORDER BY keeps rows with equal values in the order they had; a text column
      counts as 0 everywhere, so ordering by one changes nothing. */
  lemma {:induction false} SortIsStable(order: OrderBy, rows: seq<ExpenseRow>, x: real)
    ensures Tied(order, SortRows(order, rows), x) == Tied(order, rows, x)
  {
    if rows != [] {
      var n := |rows| - 1;
      SortIsStable(order, rows[..n], x);
      TiedInsert(order, rows[n], SortRows(order, rows[..n]), x);
    }
  }
}
