/** What a WHERE condition means: which rows it keeps, told from the fields of the row
    (crates/sql/src/executor.rs, lines 134-191). */
module SqlConditions {
  import opened Wrappers
  import opened Bytes
  import opened SqlAst
  import opened SqlExecutor

  // ---------- operands ----------

  /** The operand is this number: a literal, whole or not, or one of the two number columns. */
  ghost predicate IsNumber(e: Expr, row: ExpenseRow, x: real) {
    || e == Literal(Real(x))
    || (e.Literal? && e.value.Integer? && x == e.value.n as real)
    || (e == Column("amount") && x == row.amount)
    || (e == Column("created_at") && x == row.createdAt as real)
  }

  /** The operand is this text: a literal or one of the four text columns. */
  ghost predicate IsText(e: Expr, row: ExpenseRow, x: string) {
    || e == Literal(Text(x))
    || (e == Column("id") && x == row.id)
    || (e == Column("category") && x == row.category)
    || (e == Column("description") && x == row.description)
    || (e == Column("date") && x == row.date)
  }

  /** Literals and the six columns. */
  predicate Known(e: Expr) {
    e.Literal? || (e.Column? && e.name in ["id", "amount", "category", "description", "date", "created_at"])
  }

  predicate Compares(op: BinOp) {
    op != And && op != Or
  }

  // ---------- one comparison ----------

  /** A comparison keeps a row when both operands have values and these compare. */
  lemma ComparisonKeeps(op: BinOp, l: Expr, r: Expr, row: ExpenseRow)
    requires Compares(op)
    ensures Keeps(Some(BinaryOp(op, l, r)), row) <==>
            EvalValue(l, row).Ok? && EvalValue(r, row).Ok?
            && CompareValues(EvalValue(l, row).value, op, EvalValue(r, row).value)
    ensures EvalExpr(BinaryOp(op, l, r), row).Err? <==> EvalValue(l, row).Err? || EvalValue(r, row).Err?
  {
  }

  predicate ValueIs(v: Value, x: real) {
    v == Real(x) || (v.Integer? && v.n as real == x)
  }

  lemma NumberHasValue(e: Expr, row: ExpenseRow, x: real)
    requires IsNumber(e, row, x)
    ensures EvalValue(e, row).Ok? && ValueIs(EvalValue(e, row).value, x)
  {
  }

  lemma TextHasValue(e: Expr, row: ExpenseRow, x: string)
    requires IsText(e, row, x)
    ensures EvalValue(e, row) == Ok(Text(x))
  {
  }

  lemma NumberValuesCompare(a: Value, b: Value, x: real, y: real)
    requires ValueIs(a, x) && ValueIs(b, y)
    ensures CompareValues(a, Eq, b) <==> x == y
    ensures CompareValues(a, Ne, b) <==> x != y
    ensures CompareValues(a, Lt, b) <==> x < y
    ensures CompareValues(a, Le, b) <==> x <= y
    ensures CompareValues(a, Gt, b) <==> x > y
    ensures CompareValues(a, Ge, b) <==> x >= y
  {
  }

  /** Numbers compare as real numbers, whether whole or not and on either side. */
  lemma NumbersCompare(l: Expr, r: Expr, row: ExpenseRow, x: real, y: real)
    requires IsNumber(l, row, x) && IsNumber(r, row, y)
    ensures Keeps(Some(BinaryOp(Eq, l, r)), row) <==> x == y
    ensures Keeps(Some(BinaryOp(Ne, l, r)), row) <==> x != y
    ensures Keeps(Some(BinaryOp(Lt, l, r)), row) <==> x < y
    ensures Keeps(Some(BinaryOp(Le, l, r)), row) <==> x <= y
    ensures Keeps(Some(BinaryOp(Gt, l, r)), row) <==> x > y
    ensures Keeps(Some(BinaryOp(Ge, l, r)), row) <==> x >= y
  {
    NumberHasValue(l, row, x);
    NumberHasValue(r, row, y);
    NumberValuesCompare(EvalValue(l, row).value, EvalValue(r, row).value, x, y);
    forall op | Compares(op)
      ensures Keeps(Some(BinaryOp(op, l, r)), row) <==>
              CompareValues(EvalValue(l, row).value, op, EvalValue(r, row).value)
    {
      ComparisonKeeps(op, l, r, row);
    }
  }

  /** Bytes compare as the texts they are of. */
  lemma TextOrder(x: string, y: string)
    ensures var a, b := Utf8.Encode(x), Utf8.Encode(y);
            && (Less(a, b) <==> BytesBefore(a, b)) && (Less(a, b) <==> Utf8.TextBefore(x, y))
            && (AtMost(a, b) <==> x == y || Less(a, b)) && (Less(a, b) ==> x != y)
  {
    var a, b := Utf8.Encode(x), Utf8.Encode(y);
    Utf8.ByteOrder(x, y);
    LessExactly(a, b);
    LessTotal(a, b);
    LessIrreflexive(a);
    if Less(a, b) && Less(b, a) {
      LessTransitive(a, b, a);
    }
    if a == b {
      Utf8.EncodeInjective(x, y);
    }
  }

  lemma TextValuesCompare(x: string, y: string)
    ensures var a, b := Utf8.Encode(x), Utf8.Encode(y);
            && (CompareValues(Text(x), Eq, Text(y)) <==> x == y)
            && (CompareValues(Text(x), Ne, Text(y)) <==> x != y)
            && (CompareValues(Text(x), Lt, Text(y)) <==> BytesBefore(a, b))
            && (CompareValues(Text(x), Gt, Text(y)) <==> BytesBefore(b, a))
            && (CompareValues(Text(x), Le, Text(y)) <==> x == y || BytesBefore(a, b))
            && (CompareValues(Text(x), Ge, Text(y)) <==> x == y || BytesBefore(b, a))
  {
    TextOrder(x, y);
    TextOrder(y, x);
  }

  /** Texts compare by their bytes, which is character by character. */
  lemma TextsCompare(l: Expr, r: Expr, row: ExpenseRow, x: string, y: string)
    requires IsText(l, row, x) && IsText(r, row, y)
    ensures Keeps(Some(BinaryOp(Eq, l, r)), row) <==> x == y
    ensures Keeps(Some(BinaryOp(Ne, l, r)), row) <==> x != y
    ensures Keeps(Some(BinaryOp(Lt, l, r)), row) <==> BytesBefore(Utf8.Encode(x), Utf8.Encode(y))
    ensures Keeps(Some(BinaryOp(Gt, l, r)), row) <==> BytesBefore(Utf8.Encode(y), Utf8.Encode(x))
    ensures Keeps(Some(BinaryOp(Le, l, r)), row) <==> x == y || BytesBefore(Utf8.Encode(x), Utf8.Encode(y))
    ensures Keeps(Some(BinaryOp(Ge, l, r)), row) <==> x == y || BytesBefore(Utf8.Encode(y), Utf8.Encode(x))
    ensures BytesBefore(Utf8.Encode(x), Utf8.Encode(y)) <==> Utf8.TextBefore(x, y)
  {
    TextHasValue(l, row, x);
    TextHasValue(r, row, y);
    TextValuesCompare(x, y);
    TextOrder(x, y);
    forall op | Compares(op)
      ensures Keeps(Some(BinaryOp(op, l, r)), row) <==> CompareValues(Text(x), op, Text(y))
    {
      ComparisonKeeps(op, l, r, row);
    }
  }

  /** What an operand evaluates to: a number or text it is, NULL, or an error exactly
      when it is not a literal or one of the six columns. */
  lemma OperandValue(e: Expr, row: ExpenseRow)
    ensures EvalValue(e, row).Err? <==> !Known(e)
    ensures Known(e) ==> var v := EvalValue(e, row).value;
                         && (v.Real? ==> IsNumber(e, row, v.amount))
                         && (v.Integer? ==> IsNumber(e, row, v.n as real))
                         && (v.Text? ==> IsText(e, row, v.text))
  {
  }

  /** Anything else keeps nothing: a text against a number, NULL against anything, a
      column there is not, and a comparison inside a comparison. */
  lemma OthersKeepNothing(op: BinOp, l: Expr, r: Expr, row: ExpenseRow)
    requires Compares(op)
    requires !exists x, y :: IsNumber(l, row, x) && IsNumber(r, row, y)
    requires !exists x, y :: IsText(l, row, x) && IsText(r, row, y)
    ensures !Keeps(Some(BinaryOp(op, l, r)), row)
  {
    OperandValue(l, row);
    OperandValue(r, row);
  }

  /** A number is no text, and an operand is one value. */
  lemma OneValue(e: Expr, row: ExpenseRow)
    ensures forall x, y :: !(IsNumber(e, row, x) && IsText(e, row, y))
    ensures forall x, y :: IsNumber(e, row, x) && IsNumber(e, row, y) ==> x == y
    ensures forall x, y :: IsText(e, row, x) && IsText(e, row, y) ==> x == y
  {
  }

  // ---------- whole conditions ----------

  /** How two values stand that are equal, or the first is less. */
  predicate Stand(op: BinOp, less: bool, equal: bool)
    requires Compares(op)
  {
    match op
    case Eq => equal
    case Ne => !equal
    case Lt => less
    case Le => less || equal
    case Gt => !less && !equal
    case Ge => !less
  }

  /** Two operands of one kind stand in the relation. */
  ghost predicate Related(op: BinOp, l: Expr, r: Expr, row: ExpenseRow)
    requires Compares(op)
  {
    || (exists x, y :: IsNumber(l, row, x) && IsNumber(r, row, y) && Stand(op, x < y, x == y))
    || (exists x, y :: IsText(l, row, x) && IsText(r, row, y) && Stand(op, Utf8.TextBefore(x, y), x == y))
  }

  /** The fields of the row satisfy the condition. */
  ghost predicate Satisfies(e: Expr, row: ExpenseRow) {
    match e
    case BinaryOp(And, l, r) => Satisfies(l, row) && Satisfies(r, row)
    case BinaryOp(Or, l, r) => !Breaks(l, row) && (Satisfies(l, row) || Satisfies(r, row))
    case BinaryOp(op, l, r) => Compares(op) && Related(op, l, r, row)
    case _ => false
  }

  /** The condition needs an operand that is not a literal or one of the six columns; the
      right side of AND and OR is needed only when the left does not decide. */
  ghost predicate Breaks(e: Expr, row: ExpenseRow) {
    match e
    case BinaryOp(And, l, r) => Breaks(l, row) || (Satisfies(l, row) && Breaks(r, row))
    case BinaryOp(Or, l, r) => Breaks(l, row) || (!Satisfies(l, row) && Breaks(r, row))
    case BinaryOp(_, l, r) => !Known(l) || !Known(r)
    case _ => false
  }

  lemma NumbersRelated(op: BinOp, l: Expr, r: Expr, row: ExpenseRow, x: real, y: real)
    requires Compares(op) && IsNumber(l, row, x) && IsNumber(r, row, y)
    ensures Keeps(Some(BinaryOp(op, l, r)), row) <==> Stand(op, x < y, x == y)
    ensures Related(op, l, r, row) <==> Stand(op, x < y, x == y)
  {
    NumbersCompare(l, r, row, x, y);
    OneValue(l, row);
    OneValue(r, row);
  }

  lemma TextsStand(op: BinOp, l: Expr, r: Expr, row: ExpenseRow, x: string, y: string, less: bool)
    requires Compares(op) && IsText(l, row, x) && IsText(r, row, y) && less == Utf8.TextBefore(x, y)
    ensures Keeps(Some(BinaryOp(op, l, r)), row) <==> Stand(op, less, x == y)
  {
    TextsCompare(l, r, row, x, y);
    TextOrder(x, y);
    TextOrder(y, x);
  }

  lemma TextsRelated(op: BinOp, l: Expr, r: Expr, row: ExpenseRow, x: string, y: string)
    requires Compares(op) && IsText(l, row, x) && IsText(r, row, y)
    ensures Related(op, l, r, row) <==> Stand(op, Utf8.TextBefore(x, y), x == y)
  {
    OneValue(l, row);
    OneValue(r, row);
  }

  lemma ComparisonExactly(op: BinOp, l: Expr, r: Expr, row: ExpenseRow)
    requires Compares(op)
    ensures Keeps(Some(BinaryOp(op, l, r)), row) <==> Related(op, l, r, row)
    ensures EvalExpr(BinaryOp(op, l, r), row).Err? <==> !Known(l) || !Known(r)
  {
    ComparisonKeeps(op, l, r, row);
    OperandValue(l, row);
    OperandValue(r, row);
    if x, y :| IsNumber(l, row, x) && IsNumber(r, row, y) {
      NumbersRelated(op, l, r, row, x, y);
    } else if x, y :| IsText(l, row, x) && IsText(r, row, y) {
      TextsStand(op, l, r, row, x, y, Utf8.TextBefore(x, y));
      TextsRelated(op, l, r, row, x, y);
    } else {
      OthersKeepNothing(op, l, r, row);
    }
  }

  lemma ResultIs(r: Result<bool, SqlError>)
    ensures r.Err? || r == Ok(true) || r == Ok(false)
  {
    if r.Ok? {
      var b := r.value;
      assert r == Ok(b) && (b || !b);
    }
  }

  /** Every condition, however it is nested, keeps exactly the rows that satisfy it: AND is
      conjunction and OR disjunction, except that a left side of OR that needs an unknown
      operand keeps nothing; evaluation fails exactly on the rows that need one. */
  lemma {:induction false} ConditionExactly(e: Expr, row: ExpenseRow)
    ensures Keeps(Some(e), row) <==> Satisfies(e, row)
    ensures EvalExpr(e, row).Err? <==> Breaks(e, row)
    ensures Satisfies(e, row) ==> !Breaks(e, row)
  {
    if e.BinaryOp? {
      if Compares(e.op) {
        ComparisonExactly(e.op, e.left, e.right, row);
      } else {
        ConditionExactly(e.left, row);
        ConditionExactly(e.right, row);
        ResultIs(EvalExpr(e.left, row));
      }
    }
  }

  /** All operands of the condition are literals or one of the six columns. */
  predicate AllKnown(e: Expr) {
    e.BinaryOp? ==> if Compares(e.op) then Known(e.left) && Known(e.right) else AllKnown(e.left) && AllKnown(e.right)
  }

  lemma {:induction false} KnownNeverBreaks(e: Expr, row: ExpenseRow)
    requires AllKnown(e)
    ensures !Breaks(e, row)
  {
    if e.BinaryOp? && !Compares(e.op) {
      KnownNeverBreaks(e.left, row);
      KnownNeverBreaks(e.right, row);
    }
  }

  /** AND is conjunction, always; OR is disjunction wherever the left side evaluates, and
      so whenever it has only known operands. */
  lemma ConnectivesExactly(l: Expr, r: Expr, row: ExpenseRow)
    ensures Keeps(Some(BinaryOp(And, l, r)), row) <==> Keeps(Some(l), row) && Keeps(Some(r), row)
    ensures Keeps(Some(BinaryOp(Or, l, r)), row) <==>
            !Breaks(l, row) && (Keeps(Some(l), row) || Keeps(Some(r), row))
    ensures AllKnown(l) ==>
              (Keeps(Some(BinaryOp(Or, l, r)), row) <==> Keeps(Some(l), row) || Keeps(Some(r), row))
  {
    ConditionExactly(l, row);
    ConditionExactly(r, row);
    ConditionExactly(BinaryOp(And, l, r), row);
    ConditionExactly(BinaryOp(Or, l, r), row);
    if AllKnown(l) {
      KnownNeverBreaks(l, row);
    }
  }
}
