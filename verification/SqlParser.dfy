/** The parser of the query language (crates/sql/src/parser.rs), written as the
    parser combinators it is made of. */
module SqlParser {
  import opened Wrappers
  import opened SqlAst

  /** What a parser makes of a text: the rest and a value, or an error. */
  datatype Parsed<+T> = Done(rest: string, value: T) | Fail

  // ---------- characters ----------

  predicate IsSpace(c: char) {
    c == ' ' || c == '\t' || c == '\r' || c == '\n'
  }

  predicate IsDigit(c: char) {
    '0' <= c <= '9'
  }

  predicate IsIdentChar(c: char) {
    IsDigit(c) || 'a' <= c <= 'z' || 'A' <= c <= 'Z' || c == '_'
  }

  predicate NotQuote(c: char) {
    c != '\''
  }

  function Lower(c: char): char {
    if 'A' <= c <= 'Z' then c - 'A' + 'a' else c
  }

  /** How many characters at the front satisfy p. */
  function Span(p: char -> bool, s: string): (n: nat)
    ensures n <= |s|
  {
    if s == "" || !p(s[0]) then 0 else 1 + Span(p, s[1..])
  }

  /** `multispace0`. */
  function SkipSpace(s: string): (r: string)
    ensures |r| <= |s|
  {
    if s != "" && IsSpace(s[0]) then SkipSpace(s[1..]) else s
  }

  // ---------- tags ----------

  predicate StartsNoCase(t: string, s: string) {
    |t| <= |s| && forall i :: 0 <= i < |t| ==> Lower(s[i]) == Lower(t[i])
  }

  /** `ws(tag_no_case(t))`. */
  function Keyword(t: string, s: string): (r: Parsed<()>)
    ensures r.Done? ==> |r.rest| + |t| <= |s|
  {
    var s1 := SkipSpace(s);
    if StartsNoCase(t, s1) then Done(SkipSpace(s1[|t|..]), ()) else Fail
  }

  // ---------- atoms ----------

  function Ident(s: string): (r: Parsed<string>)
    ensures r.Done? ==> |r.rest| < |s|
  {
    var n := Span(IsIdentChar, s);
    if n == 0 then Fail else Done(s[n..], s[..n])
  }

  /** Non-empty text between quotes. */
  function QuotedString(s: string): (r: Parsed<string>)
    ensures r.Done? ==> |r.rest| < |s|
  {
    if !("'" <= s) then Fail else
    var n := Span(NotQuote, s[1..]);
    if n == 0 || !("'" <= s[1 + n..]) then Fail else Done(s[n + 2..], s[1..1 + n])
  }

  function DigitValue(c: char): nat
    requires IsDigit(c)
  {
    c as int - '0' as int
  }

  function DigitsValue(s: string): nat
    requires forall i :: 0 <= i < |s| ==> IsDigit(s[i])
  {
    if s == "" then 0 else 10 * DigitsValue(s[..|s| - 1]) + DigitValue(s[|s| - 1])
  }

  lemma {:induction false} SpanAll(p: char -> bool, s: string)
    ensures forall i :: 0 <= i < Span(p, s) ==> p(s[i])
  {
    if s != "" && p(s[0]) {
      SpanAll(p, s[1..]);
      assert forall i :: 0 < i < Span(p, s) ==> s[i] == s[1..][i - 1];
    }
  }

  function Pow10(n: nat): (p: real)
    ensures p > 0.0
  {
    if n == 0 then 1.0 else 10.0 * Pow10(n - 1)
  }

  /** Digits with an optional fraction, or a fraction alone. */
  function Magnitude(s: string): (r: Parsed<real>)
    ensures r.Done? ==> |r.rest| < |s|
  {
    var n := Span(IsDigit, s);
    SpanAll(IsDigit, s);
    var whole, rest := s[..n], s[n..];
    if !("." <= rest) then
      if n == 0 then Fail else Done(rest, DigitsValue(whole) as real)
    else
      var m := Span(IsDigit, rest[1..]);
      SpanAll(IsDigit, rest[1..]);
      if n == 0 && m == 0 then Fail
      else Done(rest[1 + m..], DigitsValue(whole) as real + DigitsValue(rest[1..1 + m]) as real / Pow10(m))
  }

  /** `double`: an optional sign and a magnitude, as an exact number. */
  function Number(s: string): (r: Parsed<real>)
    ensures r.Done? ==> |r.rest| < |s|
  {
    if s != "" && (s[0] == '-' || s[0] == '+') then
      match Magnitude(s[1..])
      case Fail => Fail
      case Done(rest, f) => Done(rest, if s[0] == '-' then -f else f)
    else Magnitude(s)
  }

  const I64_LIMIT: real := 9223372036854775808.0

  /** A whole number within the i64 range is an Integer, any other a Real. */
  function NumberValue(f: real): Value {
    if f.Floor as real == f && -I64_LIMIT < f < I64_LIMIT then Integer(f.Floor) else Real(f)
  }

  function ParseValue(s: string): (r: Parsed<Value>)
    ensures r.Done? ==> |r.rest| < |s|
  {
    match QuotedString(s)
    case Done(rest, text) => Done(rest, Text(text))
    case Fail =>
      match Number(s)
      case Done(rest, f) => Done(rest, NumberValue(f))
      case Fail => if StartsNoCase("NULL", s) then Done(s[4..], Null) else Fail
  }

  function ParseAtom(s: string): (r: Parsed<Expr>)
    ensures r.Done? ==> |r.rest| < |s|
  {
    match ParseValue(s)
    case Done(rest, v) => Done(rest, Literal(v))
    case Fail => match Ident(s) case Done(rest, name) => Done(rest, Column(name)) case Fail => Fail
  }

  /** `ws(parse_atom)`. */
  function Atom(s: string): (r: Parsed<Expr>)
    ensures r.Done? ==> |r.rest| < |s|
  {
    match ParseAtom(SkipSpace(s)) case Done(rest, e) => Done(SkipSpace(rest), e) case Fail => Fail
  }

  // ---------- expressions ----------

  /** The two-character operators are tried first. */
  function ParseOp(s: string): (r: Parsed<BinOp>)
    ensures r.Done? ==> |r.rest| < |s|
  {
    if "!=" <= s then Done(s[2..], Ne)
    else if "<=" <= s then Done(s[2..], Le)
    else if ">=" <= s then Done(s[2..], Ge)
    else if "=" <= s then Done(s[1..], Eq)
    else if "<" <= s then Done(s[1..], Lt)
    else if ">" <= s then Done(s[1..], Gt)
    else Fail
  }

  function ParseComparison(s: string): (r: Parsed<Expr>)
    ensures r.Done? ==> |r.rest| < |s|
  {
    match Atom(s)
    case Fail => Fail
    case Done(s1, left) =>
      match ParseOp(SkipSpace(s1))
      case Fail => Fail
      case Done(s2, op) =>
        match Atom(SkipSpace(s2))
        case Fail => Fail
        case Done(s3, right) => Done(s3, BinaryOp(op, left, right))
  }

  /** `many0(preceded(ws(tag_no_case("AND")), parse_comparison))`: what was read and the rest. */
  function AndTail(s: string): (r: (string, seq<Expr>))
    ensures |r.0| <= |s|
    decreases |s|
  {
    match Keyword("AND", s)
    case Fail => (s, [])
    case Done(s1, _) =>
      match ParseComparison(s1)
      case Fail => (s, [])
      case Done(s2, e) => var (rest, more) := AndTail(s2); (rest, [e] + more)
  }

  /** The left fold over what followed. */
  function FoldLeft(op: BinOp, left: Expr, rest: seq<Expr>): Expr
    decreases |rest|
  {
    if rest == [] then left else FoldLeft(op, BinaryOp(op, left, rest[0]), rest[1..])
  }

  function ParseAnd(s: string): (r: Parsed<Expr>)
    ensures r.Done? ==> |r.rest| < |s|
  {
    match ParseComparison(s)
    case Fail => Fail
    case Done(s1, left) => var (rest, more) := AndTail(s1); Done(rest, FoldLeft(And, left, more))
  }

  function OrTail(s: string): (r: (string, seq<Expr>))
    ensures |r.0| <= |s|
    decreases |s|
  {
    match Keyword("OR", s)
    case Fail => (s, [])
    case Done(s1, _) =>
      match ParseAnd(s1)
      case Fail => (s, [])
      case Done(s2, e) => var (rest, more) := OrTail(s2); (rest, [e] + more)
  }

  function ParseOr(s: string): (r: Parsed<Expr>)
    ensures r.Done? ==> |r.rest| < |s|
  {
    match ParseAnd(s)
    case Fail => Fail
    case Done(s1, left) => var (rest, more) := OrTail(s1); Done(rest, FoldLeft(Or, left, more))
  }

  // ---------- clauses ----------

  function ParseWhere(s: string): Parsed<Expr> {
    match Keyword("WHERE", s) case Fail => Fail case Done(s1, _) => ParseOr(s1)
  }

  /** `ws(ident)`. */
  function Name(s: string): (r: Parsed<string>)
    ensures r.Done? ==> |r.rest| < |s|
  {
    match Ident(SkipSpace(s)) case Done(rest, name) => Done(SkipSpace(rest), name) case Fail => Fail
  }

  /** What follows the first element of `separated_list1(ws(char(',')), ws(ident))`. */
  function NamesTail(s: string): (r: (string, seq<string>))
    ensures |r.0| <= |s|
    decreases |s|
  {
    match Keyword(",", s)
    case Fail => (s, [])
    case Done(s1, _) =>
      match Name(s1)
      case Fail => (s, [])
      case Done(s2, name) => var (rest, more) := NamesTail(s2); (rest, [name] + more)
  }

  function Names(s: string): Parsed<seq<string>> {
    match Name(s)
    case Fail => Fail
    case Done(s1, name) => var (rest, more) := NamesTail(s1); Done(rest, [name] + more)
  }

  function ParseOrderBy(s: string): Parsed<OrderBy> {
    match Keyword("ORDER", s)
    case Fail => Fail
    case Done(s1, _) =>
      match Keyword("BY", s1)
      case Fail => Fail
      case Done(s2, _) =>
        match Name(s2)
        case Fail => Fail
        case Done(s3, column) =>
          match Keyword("ASC", s3)
          case Done(s4, _) => Done(s4, OrderBy(column, true))
          case Fail =>
            match Keyword("DESC", s3)
            case Done(s4, _) => Done(s4, OrderBy(column, false))
            case Fail => Done(s3, OrderBy(column, true))
  }

  function ParseGroupBy(s: string): Parsed<seq<string>> {
    match Keyword("GROUP", s)
    case Fail => Fail
    case Done(s1, _) => match Keyword("BY", s1) case Fail => Fail case Done(s2, _) => Names(s2)
  }

  const U64_LIMIT: nat := 0x1_0000_0000_0000_0000

  /** `ws(u64)`: digits within the range of a u64. */
  function Unsigned(s: string): Parsed<nat> {
    var s1 := SkipSpace(s);
    var n := Span(IsDigit, s1);
    SpanAll(IsDigit, s1);
    if n == 0 || DigitsValue(s1[..n]) >= U64_LIMIT then Fail else Done(SkipSpace(s1[n..]), DigitsValue(s1[..n]))
  }

  function ParseLimit(s: string): Parsed<nat> {
    match Keyword("LIMIT", s) case Fail => Fail case Done(s1, _) => Unsigned(s1)
  }

  function ParseColumns(s: string): Parsed<SelectColumns> {
    match Keyword("*", SkipSpace(s))
    case Done(rest, _) => Done(SkipSpace(rest), All)
    case Fail =>
      match Names(SkipSpace(s)) case Done(rest, names) => Done(SkipSpace(rest), Named(names)) case Fail => Fail
  }

  /** `opt(p)`: no value and the whole input when p fails. */
  function Opt<T>(p: Parsed<T>, s: string): (string, Option<T>) {
    match p case Done(rest, v) => (rest, Some(v)) case Fail => (s, None)
  }

  /** The clauses after the table name, in the one order the parser knows. */
  function ParseClauses(columns: SelectColumns, s: string): Parsed<SelectStmt> {
    var (s1, whereClause) := Opt(ParseWhere(s), s);
    var (s2, orderBy) := Opt(ParseOrderBy(s1), s1);
    var (s3, groupBy) := Opt(ParseGroupBy(s2), s2);
    var (s4, limit) := Opt(ParseLimit(s3), s3);
    Done(s4, SelectStmt(columns, whereClause, orderBy, groupBy, limit))
  }

  function ParseSelect(s: string): Parsed<SelectStmt> {
    match Keyword("SELECT", s)
    case Fail => Fail
    case Done(s1, _) =>
      match ParseColumns(s1)
      case Fail => Fail
      case Done(s2, columns) =>
        match Keyword("FROM", s2)
        case Fail => Fail
        case Done(s3, _) =>
          match Keyword("expenses", s3)
          case Fail => Fail
          case Done(s4, _) => ParseClauses(columns, s4)
  }
}
