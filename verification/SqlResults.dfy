/** What a SELECT returns, told from the fields of the stored rows
    (crates/sql/src/executor.rs, lines 71-124). */
module SqlResults {
  import opened Wrappers
  import opened Bytes
  import opened Ordered
  import opened WalRecord
  import opened EngineState
  import opened EngineRuns
  import opened EngineTheorems
  import opened FrozenKeys
  import opened Mvcc
  import opened SqlAst
  import opened SqlExecutor
  import opened SqlConditions
  import opened SqlTheorems

  // ---------- which rows ----------

  /** The row is stored under its id. */
  ghost predicate Stored(codec: RowCodec, store: map<Bytes, Bytes>, row: ExpenseRow) {
    KeyOf(row.id) in store && codec.decode(store[KeyOf(row.id)]) == Some(row)
  }

  /** The fields of the row satisfy the WHERE clause, if there is one. */
  ghost predicate Wanted(w: Option<Expr>, row: ExpenseRow) {
    w.Some? ==> Satisfies(w.value, row)
  }

  /** In the order of their ids, each once. */
  ghost predicate ById(rows: seq<ExpenseRow>) {
    forall i, j :: 0 <= i < j < |rows| ==> Less(KeyOf(rows[i].id), KeyOf(rows[j].id))
  }

  lemma WantedIsKept(w: Option<Expr>, row: ExpenseRow)
    ensures Keeps(w, row) <==> Wanted(w, row)
  {
    if w.Some? {
      ConditionExactly(w.value, row);
    }
  }

  /** A scan of rows decodes to all of them, in order. */
  lemma {:induction false} DecodesAll(codec: RowCodec, pairs: seq<(Bytes, Bytes)>)
    requires forall i :: 0 <= i < |pairs| ==> codec.decode(pairs[i].1).Some?
    ensures |DecodeRows(codec, pairs)| == |pairs|
    ensures forall i :: 0 <= i < |pairs| ==> codec.decode(pairs[i].1) == Some(DecodeRows(codec, pairs)[i])
  {
    if pairs != [] {
      var rest := pairs[1..];
      assert forall i :: 0 <= i < |rest| ==> rest[i] == pairs[i + 1];
      DecodesAll(codec, rest);
      assert DecodeRows(codec, pairs)[1..] == DecodeRows(codec, rest);
    }
  }

  lemma {:induction false} FilterMembers(w: Option<Expr>, rows: seq<ExpenseRow>, row: ExpenseRow)
    ensures row in FilterRows(w, rows) <==> row in rows && Wanted(w, row)
  {
    if rows != [] {
      FilterMembers(w, rows[1..], row);
      WantedIsKept(w, rows[0]);
      assert row in rows <==> row == rows[0] || row in rows[1..];
    }
  }

  lemma {:induction false} FilterById(w: Option<Expr>, rows: seq<ExpenseRow>)
    requires ById(rows)
    ensures ById(FilterRows(w, rows))
  {
    if rows != [] {
      var rest, kept := rows[1..], FilterRows(w, rows[1..]);
      assert ById(rest) by {
        assert forall i :: 0 <= i < |rest| ==> rest[i] == rows[i + 1];
      }
      FilterById(w, rest);
      forall i | 0 <= i < |kept| ensures Less(KeyOf(rows[0].id), KeyOf(kept[i].id)) {
        FilterMembers(w, rest, kept[i]);
        var j :| 0 <= j < |rest| && rest[j] == kept[i];
        assert rows[j + 1] == kept[i];
      }
      FirstById(rows[0], kept);
    }
  }

  lemma FirstById(row: ExpenseRow, rows: seq<ExpenseRow>)
    requires ById(rows) && forall i :: 0 <= i < |rows| ==> Less(KeyOf(row.id), KeyOf(rows[i].id))
    ensures ById([row] + rows)
  {
  }

  /** The rows a scan decodes are the stored ones. */
  lemma DecodedExactly(codec: RowCodec, store: map<Bytes, Bytes>, pairs: seq<(Bytes, Bytes)>, rows: seq<ExpenseRow>,
                       row: ExpenseRow)
    requires StoreOk(codec, store) && pairs == Listing(Matching(store, PREFIX)) && rows == DecodeRows(codec, pairs)
    ensures row in rows <==> Stored(codec, store, row)
  {
    ListingIsRows(codec, store);
    ListingMeaning(Matching(store, PREFIX));
    DecodesAll(codec, pairs);
    KeyIsNotEmpty(row.id);
    if row in rows {
      var i :| 0 <= i < |rows| && rows[i] == row;
      assert (pairs[i].0, pairs[i].1) in pairs;
    }
    if Stored(codec, store, row) {
      var pair := (KeyOf(row.id), store[KeyOf(row.id)]);
      assert pair in pairs;
      var i :| 0 <= i < |pairs| && pairs[i] == pair;
      assert rows[i] == row;
    }
  }

  lemma DecodedById(codec: RowCodec, store: map<Bytes, Bytes>, pairs: seq<(Bytes, Bytes)>)
    requires StoreOk(codec, store) && pairs == Listing(Matching(store, PREFIX))
    ensures ById(DecodeRows(codec, pairs))
  {
    ListingIsRows(codec, store);
    ListingMeaning(Matching(store, PREFIX));
    DecodesAll(codec, pairs);
    assert forall i :: 0 <= i < |pairs| ==> KeyOf(DecodeRows(codec, pairs)[i].id) == pairs[i].0;
  }

  /** Scan and filter over a store of rows: the stored rows that satisfy the condition, by id. */
  lemma KeptExactly(codec: RowCodec, store: map<Bytes, Bytes>, w: Option<Expr>, row: ExpenseRow)
    requires StoreOk(codec, store)
    ensures var kept := FilterRows(w, DecodeRows(codec, Listing(Matching(store, PREFIX))));
            (row in kept <==> Stored(codec, store, row) && Wanted(w, row)) && ById(kept)
  {
    var pairs := Listing(Matching(store, PREFIX));
    var rows := DecodeRows(codec, pairs);
    DecodedExactly(codec, store, pairs, rows, row);
    DecodedById(codec, store, pairs);
    FilterMembers(w, rows, row);
    FilterById(w, rows);
  }

  lemma {:induction false} EachOnce(rows: seq<ExpenseRow>, row: ExpenseRow)
    requires ById(rows)
    ensures multiset(rows)[row] <= 1
  {
    if rows != [] {
      var init, last := rows[..|rows| - 1], rows[|rows| - 1];
      assert rows == init + [last];
      EachOnce(init, row);
      LessIrreflexive(KeyOf(last.id));
      assert last !in init;
    }
  }

  /** What a scan returns without GROUP BY and LIMIT, for any store of rows. */
  lemma ScanReturnsExactly(codec: RowCodec, store: map<Bytes, Bytes>, q: SelectStmt, rows: seq<ExpenseRow>,
                           row: ExpenseRow)
    requires StoreOk(codec, store) && q.groupBy == None && q.limit == None
    requires ScanResult(codec, Listing(Matching(store, PREFIX)), q, rows)
    ensures row in rows <==> Stored(codec, store, row) && Wanted(q.whereClause, row)
    ensures multiset(rows)[row] <= 1 && (q.orderBy == None ==> ById(rows))
  {
    var kept := FilterRows(q.whereClause, DecodeRows(codec, Listing(Matching(store, PREFIX))));
    KeptExactly(codec, store, q.whereClause, row);
    EachOnce(kept, row);
    if q.orderBy.Some? {
      SortSorts(q.orderBy.value, kept);
    }
    assert row in rows <==> row in multiset(rows);
    assert row in kept <==> row in multiset(kept);
  }

  /** Every SELECT without GROUP BY and LIMIT, in every store that inserting storable rows
      and deleting reach: a row comes back if and only if it is stored and its fields
      satisfy the condition, and then once; without ORDER BY, in the order of the ids. A
      lookup by id needs the exact condition under which it agrees with a scan. */
  lemma SelectReturnsExactly(crc: Crc, codec: RowCodec, ops: seq<Op>, q: SelectStmt,
                             r: Result<seq<ExpenseRow>, SqlError>, row: ExpenseRow)
    requires Writes(ops) < U64_MAX && forall i :: 0 <= i < |ops| ==> OpFits(ops[i]) && RowOp(codec, ops[i])
    requires Inverse(codec) && Session(crc, ops).Up? && q.groupBy == None && q.limit == None
    requires SelectResult(codec, Session(crc, ops).view, Session(crc, ops).next, q, r)
    requires var id := ExtractIdEq(q.whereClause);
             id.Some? ==> KeyOf(id.value) in Model(ops) || KeyOf(id.value) !in FrozenLive(ops)
    ensures r.Ok?
    ensures row in r.value <==> Stored(codec, Model(ops), row) && Wanted(q.whereClause, row)
    ensures multiset(r.value)[row] <= 1 && (q.orderBy == None ==> ById(r.value))
  {
    var m := Session(crc, ops);
    WholeRun(crc, ops, PREFIX);
    ModelIsStore(codec, ops);
    var pairs := Scan(m.view, PREFIX, Snapshot(m.next));
    var kept := FilterRows(q.whereClause, DecodeRows(codec, pairs));
    var scanned := OrderedAndCut(q, kept);
    assert GroupedAs(q.groupBy, kept, kept) && ScanResult(codec, pairs, q, scanned);
    if ExtractIdEq(q.whereClause).Some? {
      FastPathAgrees(crc, codec, ops, q, ExtractIdEq(q.whereClause).value, scanned);
    }
    ScanReturnsExactly(codec, Model(ops), q, r.value, row);
  }

  // ---------- ORDER BY ----------

  /** The rows with this amount, as they stand. */
  function WithAmount(rows: seq<ExpenseRow>, x: real): seq<ExpenseRow> {
    if rows == [] then [] else
    var last := rows[|rows| - 1];
    WithAmount(rows[..|rows| - 1], x) + if last.amount == x then [last] else []
  }

  function CreatedAt(rows: seq<ExpenseRow>, t: int): seq<ExpenseRow> {
    if rows == [] then [] else
    var last := rows[|rows| - 1];
    CreatedAt(rows[..|rows| - 1], t) + if last.createdAt == t then [last] else []
  }

  lemma {:induction false} TiedAmounts(order: OrderBy, rows: seq<ExpenseRow>, x: real)
    requires order.column == "amount"
    ensures Tied(order, rows, x) == WithAmount(rows, x)
  {
    if rows != [] {
      TiedAmounts(order, rows[..|rows| - 1], x);
    }
  }

  lemma {:induction false} TiedTimes(order: OrderBy, rows: seq<ExpenseRow>, t: int)
    requires order.column == "created_at"
    ensures Tied(order, rows, t as real) == CreatedAt(rows, t)
  {
    if rows != [] {
      TiedTimes(order, rows[..|rows| - 1], t);
    }
  }

  /** A column without numbers leaves the rows as they are. */
  lemma {:induction false} NothingToSort(order: OrderBy, rows: seq<ExpenseRow>)
    requires order.column != "amount" && order.column != "created_at"
    ensures SortRows(order, rows) == rows
  {
    if rows != [] {
      var n := |rows| - 1;
      NothingToSort(order, rows[..n]);
      assert rows == rows[..n] + [rows[n]];
    }
  }

  ghost predicate AmountsRise(rows: seq<ExpenseRow>) {
    forall i, j :: 0 <= i < j < |rows| ==> rows[i].amount <= rows[j].amount
  }

  ghost predicate AmountsFall(rows: seq<ExpenseRow>) {
    forall i, j :: 0 <= i < j < |rows| ==> rows[i].amount >= rows[j].amount
  }

  ghost predicate TimesRise(rows: seq<ExpenseRow>) {
    forall i, j :: 0 <= i < j < |rows| ==> rows[i].createdAt <= rows[j].createdAt
  }

  ghost predicate TimesFall(rows: seq<ExpenseRow>) {
    forall i, j :: 0 <= i < j < |rows| ==> rows[i].createdAt >= rows[j].createdAt
  }

  /** Rows in the order that an ORDER BY asks for, against the same rows without it: amounts
      and times rise for ASC and fall for DESC, equal ones keep their order, and any other
      column changes nothing. */
  ghost predicate Sorted(order: OrderBy, plain: seq<ExpenseRow>, rows: seq<ExpenseRow>) {
    && multiset(rows) == multiset(plain)
    && (order.column == "amount" ==>
          (if order.ascending then AmountsRise(rows) else AmountsFall(rows))
          && forall x :: WithAmount(rows, x) == WithAmount(plain, x))
    && (order.column == "created_at" ==>
          (if order.ascending then TimesRise(rows) else TimesFall(rows))
          && forall t :: CreatedAt(rows, t) == CreatedAt(plain, t))
    && (order.column != "amount" && order.column != "created_at" ==> rows == plain)
  }

  lemma SortedRows(order: OrderBy, plain: seq<ExpenseRow>)
    ensures Sorted(order, plain, SortRows(order, plain))
  {
    var rows := SortRows(order, plain);
    SortSorts(order, plain);
    if order.column == "amount" {
      forall x ensures WithAmount(rows, x) == WithAmount(plain, x) {
        SortIsStable(order, plain, x);
        TiedAmounts(order, plain, x);
        TiedAmounts(order, rows, x);
      }
    } else if order.column == "created_at" {
      forall t ensures CreatedAt(rows, t) == CreatedAt(plain, t) {
        SortIsStable(order, plain, t as real);
        TiedTimes(order, plain, t);
        TiedTimes(order, rows, t);
      }
    } else {
      NothingToSort(order, plain);
    }
  }

  /** ORDER BY, whatever else the query has but LIMIT: the rows it returns are some rows the
      query may return without it, put in that order. */
  lemma OrderByExactly(codec: RowCodec, pairs: seq<(Bytes, Bytes)>, q: SelectStmt, order: OrderBy,
                       rows: seq<ExpenseRow>)
    requires ScanResult(codec, pairs, q, rows) && q.orderBy == Some(order) && q.limit == None
    ensures exists plain :: ScanResult(codec, pairs, q.(orderBy := None), plain) && Sorted(order, plain, rows)
  {
    var kept := FilterRows(q.whereClause, DecodeRows(codec, pairs));
    var plain :| GroupedAs(q.groupBy, kept, plain) && rows == OrderedAndCut(q, plain);
    assert plain == OrderedAndCut(q.(orderBy := None), plain);
    SortedRows(order, plain);
  }

  // ---------- LIMIT ----------

  lemma CutIs(q: SelectStmt, n: nat, grouped: seq<ExpenseRow>)
    requires q.limit == Some(n)
    ensures var all := OrderedAndCut(q.(limit := None), grouped);
            OrderedAndCut(q, grouped) == if n <= |all| then all[..n] else all
  {
    var all := OrderedAndCut(q.(limit := None), grouped);
    assert all[..|all|] == all;
  }

  lemma CutOfAll(codec: RowCodec, pairs: seq<(Bytes, Bytes)>, q: SelectStmt, n: nat, rows: seq<ExpenseRow>)
    returns (all: seq<ExpenseRow>)
    requires q.limit == Some(n) && ScanResult(codec, pairs, q, rows)
    ensures ScanResult(codec, pairs, q.(limit := None), all) && rows == if n <= |all| then all[..n] else all
  {
    var kept := FilterRows(q.whereClause, DecodeRows(codec, pairs));
    var grouped :| GroupedAs(q.groupBy, kept, grouped) && rows == OrderedAndCut(q, grouped);
    CutIs(q, n, grouped);
    all := OrderedAndCut(q.(limit := None), grouped);
  }

  lemma AllOfCut(codec: RowCodec, pairs: seq<(Bytes, Bytes)>, q: SelectStmt, n: nat, all: seq<ExpenseRow>)
    requires q.limit == Some(n) && ScanResult(codec, pairs, q.(limit := None), all)
    ensures ScanResult(codec, pairs, q, if n <= |all| then all[..n] else all)
  {
    var kept := FilterRows(q.whereClause, DecodeRows(codec, pairs));
    var grouped :| GroupedAs(q.groupBy, kept, grouped) && all == OrderedAndCut(q.(limit := None), grouped);
    CutIs(q, n, grouped);
  }

  /** LIMIT n returns the first n rows of what the query may return without it, or all of
      them when there are no more. */
  lemma LimitExactly(codec: RowCodec, pairs: seq<(Bytes, Bytes)>, q: SelectStmt, n: nat, rows: seq<ExpenseRow>)
    requires q.limit == Some(n)
    ensures ScanResult(codec, pairs, q, rows) <==>
            exists all :: ScanResult(codec, pairs, q.(limit := None), all)
                          && rows == if n <= |all| then all[..n] else all
  {
    if ScanResult(codec, pairs, q, rows) {
      var all := CutOfAll(codec, pairs, q, n, rows);
    }
    if all :| ScanResult(codec, pairs, q.(limit := None), all) && rows == if n <= |all| then all[..n] else all {
      AllOfCut(codec, pairs, q, n, all);
    }
  }

  // ---------- GROUP BY ----------

  /** The amount of all rows with this text in the column. */
  ghost function AmountWith(rows: seq<ExpenseRow>, column: string, x: string): real {
    if rows == [] then 0.0 else
    var last := rows[|rows| - 1];
    AmountWith(rows[..|rows| - 1], column, x) + if IsText(Column(column), last, x) then last.amount else 0.0
  }

  /** The first row with this text in the column. */
  ghost predicate FirstWith(rows: seq<ExpenseRow>, column: string, x: string, row: ExpenseRow) {
    exists i :: 0 <= i < |rows| && rows[i] == row && IsText(Column(column), row, x)
                && forall j :: 0 <= j < i ==> !IsText(Column(column), rows[j], x)
  }

  /** The first row with this text, with the amount of all of them. */
  ghost predicate IsGroup(rows: seq<ExpenseRow>, column: string, x: string, group: ExpenseRow) {
    exists first :: FirstWith(rows, column, x, first) && group == first.(amount := AmountWith(rows, column, x))
  }

  lemma KeyOfOne(row: ExpenseRow, column: string, x: string)
    requires column in ["id", "category", "description", "date"]
    ensures GroupKey(row, [column]) == x <==> IsText(Column(column), row, x)
  {
  }

  /** Any other column puts all rows into one group. */
  lemma OtherColumnsJoinAll(a: ExpenseRow, b: ExpenseRow, column: string)
    requires column !in ["id", "category", "description", "date"]
    ensures GroupKey(a, [column]) == GroupKey(b, [column])
  {
  }

  lemma {:induction false} TotalOfOne(rows: seq<ExpenseRow>, column: string, x: string)
    requires column in ["id", "category", "description", "date"]
    ensures TotalOf(rows, [column], x) == AmountWith(rows, column, x)
  {
    if rows != [] {
      TotalOfOne(rows[..|rows| - 1], column, x);
      KeyOfOne(rows[|rows| - 1], column, x);
    }
  }

  lemma {:induction false} FirstOfOne(rows: seq<ExpenseRow>, column: string, x: string)
    requires column in ["id", "category", "description", "date"]
    ensures var first := FirstOf(rows, [column], x);
            if first.Some? then FirstWith(rows, column, x, first.value)
            else forall i :: 0 <= i < |rows| ==> !IsText(Column(column), rows[i], x)
  {
    if rows != [] {
      var rest := rows[1..];
      KeyOfOne(rows[0], column, x);
      FirstOfOne(rest, column, x);
      var first := FirstOf(rest, [column], x);
      if GroupKey(rows[0], [column]) == x {
        assert rows[0] == rows[0] && FirstWith(rows, column, x, rows[0]);
      } else if first.Some? {
        var i :| 0 <= i < |rest| && rest[i] == first.value && IsText(Column(column), first.value, x)
                 && forall j :: 0 <= j < i ==> !IsText(Column(column), rest[j], x);
        assert forall j :: 0 < j <= i ==> rows[j] == rest[j - 1];
        assert rows[i + 1] == first.value;
      } else {
        assert forall i :: 0 < i < |rows| ==> rows[i] == rest[i - 1];
      }
    }
  }

  /** GROUP BY one text column: a group for each text that some kept row has there, each
      once; it is the first row with that text, with the amount of all of them. */
  lemma GroupByColumn(codec: RowCodec, pairs: seq<(Bytes, Bytes)>, q: SelectStmt, column: string,
                      kept: seq<ExpenseRow>, rows: seq<ExpenseRow>)
    returns (texts: seq<string>)
    requires q.groupBy == Some([column]) && column in ["id", "category", "description", "date"]
    requires q.orderBy == None && q.limit == None && ScanResult(codec, pairs, q, rows)
    requires kept == FilterRows(q.whereClause, DecodeRows(codec, pairs))
    ensures |texts| == |rows| && forall i, j :: 0 <= i < j < |texts| ==> texts[i] != texts[j]
    ensures forall i :: 0 <= i < |rows| ==> IsGroup(kept, column, texts[i], rows[i])
    ensures forall row, x :: row in kept && IsText(Column(column), row, x) ==> x in texts
  {
    var keys :| ListsGroups(GroupMap(kept, [column]), keys, rows);
    texts := keys;
    forall i | 0 <= i < |rows| ensures IsGroup(kept, column, texts[i], rows[i]) {
      OneGroupOf(kept, column, keys[i]);
    }
    forall row, x | row in kept && IsText(Column(column), row, x) ensures x in texts {
      OneGroupOf(kept, column, x);
    }
  }

  /** The text has a group, with its first row and its total, exactly when some row has it. */
  lemma OneGroupOf(kept: seq<ExpenseRow>, column: string, x: string)
    requires column in ["id", "category", "description", "date"]
    ensures var groups := GroupMap(kept, [column]);
            && (x in groups ==> IsGroup(kept, column, x, groups[x]))
            && ((exists row :: row in kept && IsText(Column(column), row, x)) ==> x in groups)
  {
    GroupTotals(kept, [column], x);
    FirstOfOne(kept, column, x);
    TotalOfOne(kept, column, x);
  }
}
