/** Statements and expressions of the query language (crates/sql/src/ast.rs). */
module SqlAst {
  import opened Wrappers

  /** A Real is kept as an exact number. */
  datatype Value = Text(text: string) | Real(amount: real) | Integer(n: int) | Null

  datatype BinOp = Eq | Ne | Lt | Le | Gt | Ge | And | Or

  datatype Expr =
    | Column(name: string)
    | Literal(value: Value)
    | BinaryOp(op: BinOp, left: Expr, right: Expr)

  datatype OrderBy = OrderBy(column: string, ascending: bool)

  datatype SelectColumns = All | Named(names: seq<string>)

  datatype SelectStmt = SelectStmt(
    columns: SelectColumns,
    whereClause: Option<Expr>,
    orderBy: Option<OrderBy>,
    groupBy: Option<seq<string>>,
    limit: Option<nat>)
}
