/** The clauses of a SELECT: they are read to the end exactly when they are written
    in the one order the parser knows, and what is left of them otherwise. */
module SqlSelect {
  import opened Wrappers
  import opened Sequences
  import opened SqlAst
  import opened SqlParser
  import opened SqlAtoms
  import opened SqlRoundTrip

  // ---------- what is printed ----------

  predicate IsName(name: string) {
    name != "" && forall i :: 0 <= i < |name| ==> InName(name[i])
  }

  function NamesText(l: Layout, names: seq<string>): string {
    if names == [] then "" else l.w + ("," + (l.w + (names[0] + NamesText(l, names[1..]))))
  }

  function NameList(l: Layout, names: seq<string>): string
    requires names != []
  {
    names[0] + NamesText(l, names[1..])
  }

  datatype Clause = Where(condition: Expr) | Order(order: OrderBy) | Group(names: seq<string>) | Limit(rows: nat)

  predicate NamesOk(names: seq<string>) {
    names != [] && forall i :: 0 <= i < |names| ==> IsName(names[i])
  }

  ghost predicate Printable(q: SelectStmt) {
    && (q.columns.Named? ==> NamesOk(q.columns.names))
    && (q.whereClause.Some? ==> IsCondition(q.whereClause.value))
    && (q.orderBy.Some? ==> IsName(q.orderBy.value.column))
    && (q.groupBy.Some? ==> NamesOk(q.groupBy.value))
    && (q.limit.Some? ==> q.limit.value < 0x1_0000_0000_0000_0000)
  }

  function ColumnsText(l: Layout, c: SelectColumns): string
    requires c.Named? ==> c.names != []
  {
    match c case All => "*" case Named(names) => NameList(l, names)
  }

  ghost predicate ClauseOk(c: Clause) {
    match c
    case Where(e) => IsCondition(e)
    case Order(order) => IsName(order.column)
    case Group(names) => NamesOk(names)
    case Limit(n) => n < 0x1_0000_0000_0000_0000
  }

  /** A keyword between words, in the layout's spelling, and what follows it. */
  function Led(l: Layout, word: string, text: string): string {
    l.gap + (l.spell(word) + (l.gap + text))
  }

  /** ASC or DESC, where ASC may be left out. */
  function Direction(l: Layout, ascending: bool): string {
    if ascending && l.short then "" else l.gap + l.spell(if ascending then "ASC" else "DESC")
  }

  /** A clause and the text behind it. */
  ghost function ClauseText(l: Layout, c: Clause, rest: string): string
    requires ClauseOk(c)
  {
    match c
    case Where(e) => Led(l, "WHERE", Print(l, e) + rest)
    case Order(order) =>
      Led(l, "ORDER", l.spell("BY") + (l.gap + (order.column + (Direction(l, order.ascending) + rest))))
    case Group(names) => Led(l, "GROUP", l.spell("BY") + (l.gap + (NameList(l, names) + rest)))
    case Limit(n) => Led(l, "LIMIT", Digits(n) + rest)
  }

  ghost predicate AllOk(cs: seq<Clause>) {
    forall i :: 0 <= i < |cs| ==> ClauseOk(cs[i])
  }

  /** Clauses one after the other, in any order and number. */
  ghost function Text(l: Layout, cs: seq<Clause>): string
    requires AllOk(cs)
  {
    if cs == [] then "" else ClauseText(l, cs[0], Text(l, cs[1..]))
  }

  function OneClause(c: Option<Clause>): seq<Clause> {
    if c.Some? then [c.value] else []
  }

  /** The clauses a statement has. */
  function ClausesOf(q: SelectStmt): seq<Clause> {
    OneClause(WhereOf(q)) + (OneClause(OrderOf(q)) + (OneClause(GroupOf(q)) + OneClause(LimitOf(q))))
  }

  function WhereOf(q: SelectStmt): Option<Clause> {
    if q.whereClause.Some? then Some(Where(q.whereClause.value)) else None
  }

  function OrderOf(q: SelectStmt): Option<Clause> {
    if q.orderBy.Some? then Some(Order(q.orderBy.value)) else None
  }

  function GroupOf(q: SelectStmt): Option<Clause> {
    if q.groupBy.Some? then Some(Group(q.groupBy.value)) else None
  }

  function LimitOf(q: SelectStmt): Option<Clause> {
    if q.limit.Some? then Some(Limit(q.limit.value)) else None
  }

  // ---------- keywords ----------

  /** A keyword does not match a text that starts with another letter. */
  lemma KeywordFails(t: string, s: string)
    requires t != "" && (SkipSpace(s) == "" || Lower(SkipSpace(s)[0]) != Lower(t[0]))
    ensures Keyword(t, s) == Fail
  {
    if StartsNoCase(t, SkipSpace(s)) {
      FirstAgrees(t, SkipSpace(s));
      assert false;
    }
  }

  lemma FirstAgrees(t: string, s: string)
    requires t != "" && StartsNoCase(t, s)
    ensures s != "" && Lower(s[0]) == Lower(t[0])
  {
  }

  /** A keyword at the front, in any spelling. */
  lemma KeywordReads(text: string, word: string, s: string)
    requires Spelled(text, word) && word != "" && IsLetter(word[0])
    ensures Keyword(word, text + s) == Done(SkipSpace(s), ())
    ensures NoSpaceFirst(text + s)
  {
    SpelledStarts(text, word, s);
    NoSpaceBefore(text, s);
    StartsWith(text, word, s);
  }

  lemma CommaReads(s: string)
    ensures Keyword(",", "," + s) == Done(SkipSpace(s), ())
    ensures Keyword("*", "*" + s) == Done(SkipSpace(s), ())
  {
    NoSpaceBefore(",", s);
    StartsWith(",", ",", s);
    NoSpaceBefore("*", s);
    StartsWith("*", "*", s);
  }

  /** The text behind white space. */
  lemma SpaceThen(w: string, s: string)
    requires AllSpace(w) && NoSpaceFirst(s)
    ensures SkipSpace(w + s) == s
  {
    SkipOver(w, s);
    SkipNone(s);
  }

  /** What a keyword between words looks like from outside. */
  lemma LedStarts(l: Layout, word: string, text: string)
    requires LayoutOk(l) && word != "" && IsLetter(word[0])
    ensures var s := Led(l, word, text);
            && s != "" && IsSpace(s[0]) && SkipSpace(s) == l.spell(word) + (l.gap + text)
            && SkipSpace(s) != "" && SameLetter(SkipSpace(s)[0], word[0])
  {
    var s := l.spell(word) + (l.gap + text);
    SpelledStarts(l.spell(word), word, l.gap + text);
    SpaceThen(l.gap, s);
    assert (l.gap + s)[0] == l.gap[0];
  }

  /** Reading past a keyword between words. */
  lemma LedReads(l: Layout, word: string, text: string)
    requires LayoutOk(l) && word != "" && IsLetter(word[0]) && NoSpaceFirst(text)
    ensures Keyword(word, SkipSpace(Led(l, word, text))) == Done(text, ())
  {
    LedStarts(l, word, text);
    KeywordReads(l.spell(word), word, l.gap + text);
    SpaceThen(l.gap, text);
  }

  /** Reading past BY. */
  lemma ByReads(l: Layout, text: string)
    requires LayoutOk(l) && NoSpaceFirst(text)
    ensures var s := l.spell("BY") + (l.gap + text);
            Keyword("BY", s) == Done(text, ()) && NoSpaceFirst(s) && s != "" && SameLetter(s[0], 'B')
  {
    SpelledStarts(l.spell("BY"), "BY", l.gap + text);
    KeywordReads(l.spell("BY"), "BY", l.gap + text);
    SpaceThen(l.gap, text);
  }

  // ---------- names ----------

  predicate EndsName(rest: string) {
    rest == "" || !InName(rest[0])
  }

  lemma NameReads(name: string, rest: string)
    requires IsName(name) && EndsName(rest)
    ensures Name(name + rest) == Done(SkipSpace(rest), name)
    ensures NoSpaceFirst(name + rest)
  {
    var s := name + rest;
    assert s[0] == name[0];
    SkipNone(s);
    SpanExact(IsIdentChar, name, rest);
    assert s[..|name|] == name && s[|name|..] == rest;
  }

  /** A comma with no name behind it is not taken. */
  lemma CommaWithoutName(s: string, s1: string)
    requires Keyword(",", s) == Done(s1, ()) && (SkipSpace(s1) == "" || !InName(SkipSpace(s1)[0]))
    ensures NamesTail(s) == (s, [])
  {
    assert Ident(SkipSpace(s1)) == Fail;
  }

  /** Nothing a comma could continue, and no letter that would extend a name. */
  predicate EndsNames(rest: string) {
    EndsName(rest) && (SkipSpace(rest) == "" || SkipSpace(rest)[0] != ',')
  }

  lemma NamesTailStep(s: string, s1: string, s2: string, name: string)
    requires Keyword(",", s) == Done(s1, ()) && Name(s1) == Done(s2, name)
    ensures NamesTail(s) == (NamesTail(s2).0, [name] + NamesTail(s2).1)
  {
  }

  /** A comma and a name in front of more names. */
  lemma OneName(l: Layout, name: string, more: string)
    requires LayoutOk(l) && IsName(name) && EndsName(more)
    ensures var s := l.w + ("," + (l.w + (name + more)));
            NamesTail(SkipSpace(s)) == (NamesTail(SkipSpace(more)).0, [name] + NamesTail(SkipSpace(more)).1)
            && EndsName(s)
  {
    var listed := l.w + (name + more);
    var s := l.w + ("," + listed);
    assert ("," + listed)[0] == ',';
    if l.w != "" {
      assert s[0] == l.w[0];
    } else {
      assert s == "," + listed;
    }
    SpaceThen(l.w, "," + listed);
    NameReads(name, more);
    SpaceThen(l.w, name + more);
    CommaReads(listed);
    NamesTailStep("," + listed, name + more, SkipSpace(more), name);
  }

  lemma NamesTextFirst(l: Layout, names: seq<string>, rest: string)
    requires names != []
    ensures NamesText(l, names) + rest == l.w + ("," + (l.w + (names[0] + (NamesText(l, names[1..]) + rest))))
  {
    var more := NamesText(l, names[1..]);
    Assoc(l.w, "," + (l.w + (names[0] + more)), rest);
    Assoc(",", l.w + (names[0] + more), rest);
    Assoc(l.w, names[0] + more, rest);
    Assoc(names[0], more, rest);
  }

  lemma {:induction false} NamesTailReads(l: Layout, names: seq<string>, rest: string)
    requires LayoutOk(l) && (forall i :: 0 <= i < |names| ==> IsName(names[i])) && EndsNames(rest)
    ensures NamesTail(SkipSpace(NamesText(l, names) + rest)) == (SkipSpace(rest), names)
    ensures EndsName(NamesText(l, names) + rest)
  {
    if names == [] {
      NoNames(l, rest);
    } else {
      NamesTailReads(l, names[1..], rest);
      NamesTextFirst(l, names, rest);
      MoreNames(l, names, NamesText(l, names[1..]) + rest, NamesText(l, names) + rest, SkipSpace(rest));
    }
  }

  lemma MoreNames(l: Layout, names: seq<string>, more: string, text: string, end: string)
    requires LayoutOk(l) && names != [] && IsName(names[0]) && EndsName(more)
    requires text == l.w + ("," + (l.w + (names[0] + more))) && NamesTail(SkipSpace(more)) == (end, names[1..])
    ensures NamesTail(SkipSpace(text)) == (end, names) && EndsName(text)
  {
    OneName(l, names[0], more);
    assert [names[0]] + names[1..] == names;
  }

  lemma NoNames(l: Layout, rest: string)
    requires EndsNames(rest)
    ensures NamesText(l, []) + rest == rest && NamesTail(SkipSpace(rest)) == (SkipSpace(rest), [])
  {
    SkipTwice(rest);
    KeywordFails(",", SkipSpace(rest));
  }

  lemma NamesRead(l: Layout, names: seq<string>, rest: string)
    requires LayoutOk(l) && NamesOk(names) && EndsNames(rest)
    ensures Names(NameList(l, names) + rest) == Done(SkipSpace(rest), names)
    ensures NoSpaceFirst(NameList(l, names) + rest)
  {
    var more := NamesText(l, names[1..]) + rest;
    Assoc(names[0], NamesText(l, names[1..]), rest);
    NamesTailReads(l, names[1..], rest);
    NameReads(names[0], more);
    assert [names[0]] + names[1..] == names;
  }

  // ---------- one clause ----------

  /** The texts that may follow a clause: nothing, or white space and a keyword that
      starts with one of the letters. */
  ghost predicate ClauseStart(letters: set<char>, s: string) {
    s == "" || (IsSpace(s[0]) && SkipSpace(s) != "" && exists c :: c in letters && SameLetter(SkipSpace(s)[0], c))
  }

  lemma ClauseStartSkips(letters: set<char>, s: string)
    requires ClauseStart(letters, s) && forall c :: c in letters ==> IsLetter(c)
    ensures SkipSpace(s) == "" <==> s == ""
    ensures s != "" ==> IsLetter(SkipSpace(s)[0])
    ensures Delimits(s) && EndsName(s) && EndsNames(s)
  {
  }

  lemma ClauseMissing(t: string, letters: set<char>, s: string)
    requires t != "" && ClauseStart(letters, s) && forall c :: c in letters ==> !SameLetter(c, t[0])
    ensures Keyword(t, SkipSpace(s)) == Fail
  {
    SkipTwice(s);
    if s != "" {
      var c :| c in letters && SameLetter(SkipSpace(s)[0], c);
      LowerExactly(SkipSpace(s)[0], c);
      LowerExactly(c, t[0]);
      LowerExactly(SkipSpace(s)[0], t[0]);
    }
    KeywordFails(t, SkipSpace(s));
  }

  lemma LimitReads(l: Layout, k: nat, rest: string)
    requires LayoutOk(l) && k < 0x1_0000_0000_0000_0000 && EndsName(rest)
    ensures ParseLimit(SkipSpace(Led(l, "LIMIT", Digits(k) + rest))) == Done(SkipSpace(rest), k)
  {
    var d := Digits(k);
    DigitsRoundTrip(k);
    assert NoSpaceFirst(d + rest) by {
      assert (d + rest)[0] == d[0];
    }
    LedReads(l, "LIMIT", d + rest);
    UnsignedReads(d, rest);
  }

  /** A LIMIT of 2^64 or more is not read at all. */
  lemma LargeLimitFails(l: Layout, k: nat, rest: string)
    requires LayoutOk(l) && k >= 0x1_0000_0000_0000_0000 && EndsName(rest)
    ensures ParseLimit(SkipSpace(Led(l, "LIMIT", Digits(k) + rest))) == Fail
  {
    var d := Digits(k);
    DigitsRoundTrip(k);
    assert NoSpaceFirst(d + rest) by {
      assert (d + rest)[0] == d[0];
    }
    LedReads(l, "LIMIT", d + rest);
    UnsignedReads(d, rest);
  }

  lemma UnsignedReads(d: string, rest: string)
    requires d != "" && AllDigits(d) && EndsName(rest)
    ensures Unsigned(d + rest) ==
            if DigitsValue(d) < 0x1_0000_0000_0000_0000 then Done(SkipSpace(rest), DigitsValue(d)) else Fail
  {
    var s := d + rest;
    assert s[0] == d[0];
    SkipNone(s);
    SpanExact(IsDigit, d, rest);
    assert s[..|d|] == d && s[|d|..] == rest;
  }

  lemma GroupReads(l: Layout, names: seq<string>, rest: string)
    requires LayoutOk(l) && NamesOk(names) && EndsNames(rest)
    ensures var list := NameList(l, names) + rest;
            ParseGroupBy(SkipSpace(Led(l, "GROUP", l.spell("BY") + (l.gap + list)))) == Done(SkipSpace(rest), names)
  {
    var list := NameList(l, names) + rest;
    NamesRead(l, names, rest);
    ByReads(l, list);
    LedReads(l, "GROUP", l.spell("BY") + (l.gap + list));
  }

  /** What may follow an ORDER BY: not something that reads as its direction. */
  ghost predicate AfterOrder(rest: string) {
    ClauseStart({'W', 'O', 'G', 'L'}, rest)
  }

  /** The direction, written or left out. */
  lemma DirectionReads(l: Layout, ascending: bool, rest: string, s: string)
    requires LayoutOk(l) && AfterOrder(rest) && s == Direction(l, ascending) + rest
    ensures EndsName(s)
    ensures ascending && l.short ==>
              s == rest && Keyword("ASC", SkipSpace(s)) == Fail && Keyword("DESC", SkipSpace(s)) == Fail
    ensures ascending && !l.short ==> Keyword("ASC", SkipSpace(s)) == Done(SkipSpace(rest), ())
    ensures !ascending ==>
              Keyword("ASC", SkipSpace(s)) == Fail && Keyword("DESC", SkipSpace(s)) == Done(SkipSpace(rest), ())
  {
    if ascending && l.short {
      assert s == rest;
      NoDirection(rest);
    } else if ascending {
      WordReads(l, "ASC", rest, s);
    } else {
      WordReads(l, "DESC", rest, s);
      ClauseMissing("ASC", {'D'}, s);
    }
  }

  lemma NoDirection(rest: string)
    requires AfterOrder(rest)
    ensures EndsName(rest) && Keyword("ASC", SkipSpace(rest)) == Fail && Keyword("DESC", SkipSpace(rest)) == Fail
  {
    ClauseStartSkips({'W', 'O', 'G', 'L'}, rest);
    ClauseMissing("ASC", {'W', 'O', 'G', 'L'}, rest);
    ClauseMissing("DESC", {'W', 'O', 'G', 'L'}, rest);
  }

  /** A word of a clause and what may follow it. */
  lemma WordReads(l: Layout, word: string, rest: string, s: string)
    requires LayoutOk(l) && word != "" && IsLetter(word[0]) && s == l.gap + l.spell(word) + rest
    ensures Keyword(word, SkipSpace(s)) == Done(SkipSpace(rest), ())
    ensures EndsName(s) && ClauseStart({word[0]}, s)
  {
    Assoc(l.gap, l.spell(word), rest);
    SpelledStarts(l.spell(word), word, rest);
    SpaceThen(l.gap, l.spell(word) + rest);
    KeywordReads(l.spell(word), word, rest);
    assert (l.gap + (l.spell(word) + rest))[0] == l.gap[0];
    assert word[0] in {word[0]};
  }

  lemma OrderReads(l: Layout, order: OrderBy, rest: string)
    requires LayoutOk(l) && IsName(order.column) && AfterOrder(rest)
    ensures ParseOrderBy(SkipSpace(ClauseText(l, Order(order), rest))) == Done(SkipSpace(rest), order)
  {
    var direction := Direction(l, order.ascending) + rest;
    var list := order.column + direction;
    DirectionReads(l, order.ascending, rest, direction);
    NameReads(order.column, direction);
    ByReads(l, list);
    LedReads(l, "ORDER", l.spell("BY") + (l.gap + list));
    OrderSteps(SkipSpace(ClauseText(l, Order(order), rest)), l.spell("BY") + (l.gap + list), list,
               SkipSpace(direction), SkipSpace(rest), order);
  }

  lemma OrderSteps(s: string, s1: string, s2: string, s3: string, s4: string, order: OrderBy)
    requires Keyword("ORDER", s) == Done(s1, ()) && Keyword("BY", s1) == Done(s2, ())
    requires Name(s2) == Done(s3, order.column)
    requires if order.ascending
             then Keyword("ASC", s3) == Done(s4, ())
                  || (Keyword("ASC", s3) == Fail && Keyword("DESC", s3) == Fail && s3 == s4)
             else Keyword("ASC", s3) == Fail && Keyword("DESC", s3) == Done(s4, ())
    ensures ParseOrderBy(s) == Done(s4, order)
  {
  }

  // ---------- WHERE before the other clauses ----------

  lemma SpelledSplit(text: string, word: string, k: nat)
    requires Spelled(text, word) && k <= |word|
    ensures Spelled(text[..k], word[..k]) && Spelled(text[k..], word[k..]) && text == text[..k] + text[k..]
  {
  }

  /** ORDER begins with OR, yet a condition does not run into an ORDER BY: what
      follows the two letters is no comparison. */
  lemma OrderByStops(l: Layout, rest: string)
    requires LayoutOk(l)
    ensures Stops(Led(l, "ORDER", l.spell("BY") + rest))
  {
    var second := l.spell("BY") + rest;
    var text, word := l.spell("ORDER"), "ORDER";
    var s := text + (l.gap + second);
    SpelledSplit(text, word, 2);
    assert word[..2] == "OR" && word[2..] == "DER";
    var after := text[2..] + (l.gap + second);
    assert s == text[..2] + after by {
      Assoc(text[..2], text[2..], l.gap + second);
    }
    LedStarts(l, word, second);
    OrIsNotAnd(s);
    KeywordReads(text[..2], "OR", after);
    SpelledStarts(l.spell("BY"), "BY", rest);
    DerIsNoComparison(text[2..], l.gap, second);
    SpelledStarts(text[2..], "DER", l.gap + second);
    SkipNone(after);
    OrEnds(Led(l, word, second), s, after);
  }

  lemma OrEnds(led: string, s: string, after: string)
    requires led != "" && IsSpace(led[0]) && SkipSpace(led) == s && AndTail(s) == (s, [])
    requires Keyword("OR", s) == Done(after, ()) && ParseComparison(after) == Fail
    ensures Stops(led)
  {
    SkipTwice(led);
  }

  lemma DerIsNoComparison(der: string, gap: string, second: string)
    requires Spelled(der, "DER") && AllSpace(gap) && gap != "" && second != "" && SameLetter(second[0], 'B')
    ensures ParseComparison(der + (gap + second)) == Fail
  {
    DerIsAnAtom(der, gap, second);
    SkipNone(second);
    NoOperator(second);
  }

  lemma DerIsAnAtom(der: string, gap: string, second: string)
    requires Spelled(der, "DER") && AllSpace(gap) && gap != "" && second != "" && SameLetter(second[0], 'B')
    ensures Atom(der + (gap + second)) == Done(second, Column(der))
  {
    var rest := gap + second;
    assert rest[0] == gap[0];
    SpelledStarts(der, "DER", rest);
    DerIsAName(der);
    NameAtom(der, rest);
    NoSpaceBefore(der, rest);
    SpaceThen(gap, second);
  }

  lemma DerIsAName(der: string)
    requires Spelled(der, "DER")
    ensures PlainName(der)
  {
    assert SameLetter(der[0], 'D') && SameLetter(der[1], 'E') && SameLetter(der[2], 'R');
    assert Lower(der[0]) == 'd';
    assert Lower("NULL"[0]) == 'n' && Lower("inf"[0]) == 'i' && Lower("nan"[0]) == 'n';
  }

  lemma NoOperator(s: string)
    requires s != "" && SameLetter(s[0], 'B')
    ensures ParseOp(s) == Fail
  {
  }

  /** An AND or OR with no comparison behind it is not taken: it ends the condition. */
  lemma WordWithoutComparison(word: string, s: string, s1: string)
    requires word == "AND" || word == "OR"
    requires Keyword(word, s) == Done(s1, ()) && ParseComparison(s1) == Fail
    ensures word == "AND" ==> AndTail(s) == (s, [])
    ensures word == "OR" ==> OrTail(s) == (s, [])
  {
  }

  lemma OtherStops(s: string)
    requires ClauseStart({'W', 'G', 'L'}, s)
    ensures Stops(s)
  {
    ClauseMissing("AND", {'W', 'G', 'L'}, s);
    ClauseMissing("OR", {'W', 'G', 'L'}, s);
    ClauseStartSkips({'W', 'G', 'L'}, s);
  }

  lemma WhereReads(l: Layout, e: Expr, rest: string)
    requires LayoutOk(l) && IsCondition(e) && Stops(rest)
    ensures ParseWhere(SkipSpace(Led(l, "WHERE", Print(l, e) + rest))) == Done(SkipSpace(rest), e)
  {
    ConditionStarts(l, e);
    NoSpaceBefore(Print(l, e), rest);
    LedReads(l, "WHERE", Print(l, e) + rest);
    ConditionReadsBack(l, e, rest);
  }

  lemma ConditionStarts(l: Layout, e: Expr)
    requires LayoutOk(l) && IsCondition(e)
    ensures Print(l, e) != "" && NoSpaceFirst(Print(l, e))
  {
    PrintCondition(l, e);
    ConjunctionStarts(l, Conjunctions(e)[0]);
  }

  // ---------- all clauses ----------

  function FirstWord(c: Clause): string {
    match c case Where(_) => "WHERE" case Order(_) => "ORDER" case Group(_) => "GROUP" case Limit(_) => "LIMIT"
  }

  lemma ClauseLeads(l: Layout, c: Clause, rest: string)
    requires LayoutOk(l) && ClauseOk(c)
    ensures ClauseStart({FirstWord(c)[0]}, ClauseText(l, c, rest)) && ClauseText(l, c, rest) != ""
  {
    var first := FirstWord(c)[0];
    assert first in {first};
    match c
    case Where(e) => LedStarts(l, "WHERE", Print(l, e) + rest);
    case Order(order) =>
      LedStarts(l, "ORDER", l.spell("BY") + (l.gap + (order.column + (Direction(l, order.ascending) + rest))));
    case Group(names) => LedStarts(l, "GROUP", l.spell("BY") + (l.gap + (NameList(l, names) + rest)));
    case Limit(n) => LedStarts(l, "LIMIT", Digits(n) + rest);
  }

  function Letters(cs: seq<Clause>): set<char> {
    if cs == [] then {} else {FirstWord(cs[0])[0]}
  }

  lemma TextStarts(l: Layout, cs: seq<Clause>)
    requires LayoutOk(l) && AllOk(cs)
    ensures ClauseStart(Letters(cs), Text(l, cs)) && AfterOrder(Text(l, cs))
    ensures SkipSpace(Text(l, cs)) == "" <==> cs == []
    ensures EndsNames(Text(l, cs)) && Delimits(Text(l, cs))
  {
    if cs != [] {
      ClauseLeads(l, cs[0], Text(l, cs[1..]));
    }
    ClauseStartSkips(Letters(cs), Text(l, cs));
  }

  /** A clause of another kind is not taken for one that starts with the keyword t. */
  lemma OtherClause(l: Layout, t: string, cs: seq<Clause>)
    requires LayoutOk(l) && AllOk(cs) && t != "" && (cs == [] || !SameLetter(FirstWord(cs[0])[0], t[0]))
    ensures Keyword(t, SkipSpace(Text(l, cs))) == Fail
  {
    TextStarts(l, cs);
    ClauseMissing(t, Letters(cs), Text(l, cs));
  }

  lemma TextStops(l: Layout, cs: seq<Clause>)
    requires LayoutOk(l) && AllOk(cs)
    ensures Stops(Text(l, cs))
  {
    TextStarts(l, cs);
    if cs != [] && cs[0].Order? {
      var order, rest := cs[0].order, Text(l, cs[1..]);
      OrderByStops(l, l.gap + (order.column + (Direction(l, order.ascending) + rest)));
    } else {
      OtherStops(Text(l, cs));
    }
  }

  /** The clauses behind the first one, if that has the given rank. */
  function Behind(rank: nat, cs: seq<Clause>): (r: seq<Clause>)
    ensures AllOk(cs) ==> AllOk(r)
  {
    if cs != [] && Rank(cs[0]) == rank then cs[1..] else cs
  }

  /** The place of a clause in the parser's order. */
  function Rank(c: Clause): nat {
    match c case Where(_) => 0 case Order(_) => 1 case Group(_) => 2 case Limit(_) => 3
  }

  lemma ReadWhere(l: Layout, cs: seq<Clause>)
    requires LayoutOk(l) && AllOk(cs)
    ensures Opt(ParseWhere(SkipSpace(Text(l, cs))), SkipSpace(Text(l, cs))) ==
            (SkipSpace(Text(l, Behind(0, cs))), if cs != [] && cs[0].Where? then Some(cs[0].condition) else None)
  {
    if cs != [] && cs[0].Where? {
      TextStops(l, cs[1..]);
      WhereReads(l, cs[0].condition, Text(l, cs[1..]));
    } else {
      OtherClause(l, "WHERE", cs);
    }
  }

  lemma ReadOrder(l: Layout, cs: seq<Clause>)
    requires LayoutOk(l) && AllOk(cs)
    ensures Opt(ParseOrderBy(SkipSpace(Text(l, cs))), SkipSpace(Text(l, cs))) ==
            (SkipSpace(Text(l, Behind(1, cs))), if cs != [] && cs[0].Order? then Some(cs[0].order) else None)
  {
    if cs != [] && cs[0].Order? {
      var order, rest := cs[0].order, Text(l, cs[1..]);
      assert cs[0] == Order(order);
      assert AfterOrder(rest) by {
        TextStarts(l, cs[1..]);
      }
      OrderReads(l, order, rest);
    } else {
      OtherClause(l, "ORDER", cs);
    }
  }

  lemma ReadGroup(l: Layout, cs: seq<Clause>)
    requires LayoutOk(l) && AllOk(cs)
    ensures Opt(ParseGroupBy(SkipSpace(Text(l, cs))), SkipSpace(Text(l, cs))) ==
            (SkipSpace(Text(l, Behind(2, cs))), if cs != [] && cs[0].Group? then Some(cs[0].names) else None)
  {
    if cs != [] && cs[0].Group? {
      TextStarts(l, cs[1..]);
      GroupReads(l, cs[0].names, Text(l, cs[1..]));
    } else {
      OtherClause(l, "GROUP", cs);
    }
  }

  lemma ReadLimit(l: Layout, cs: seq<Clause>)
    requires LayoutOk(l) && AllOk(cs)
    ensures Opt(ParseLimit(SkipSpace(Text(l, cs))), SkipSpace(Text(l, cs))) ==
            (SkipSpace(Text(l, Behind(3, cs))), if cs != [] && cs[0].Limit? then Some(cs[0].rows) else None)
  {
    if cs != [] && cs[0].Limit? {
      TextStarts(l, cs[1..]);
      LimitReads(l, cs[0].rows, Text(l, cs[1..]));
    } else {
      OtherClause(l, "LIMIT", cs);
    }
  }

  /** What is left of the clauses after those of rank k and above have had their turn. */
  function Unread(k: nat, cs: seq<Clause>): seq<Clause>
    requires k <= 4
    decreases 4 - k
  {
    if k == 4 then cs else Unread(k + 1, Behind(k, cs))
  }

  /** The statement that the clauses read make. */
  function ReadClauses(columns: SelectColumns, cs: seq<Clause>): SelectStmt {
    var c1 := Behind(0, cs);
    var c2 := Behind(1, c1);
    var c3 := Behind(2, c2);
    SelectStmt(columns,
               if cs != [] && cs[0].Where? then Some(cs[0].condition) else None,
               if c1 != [] && c1[0].Order? then Some(c1[0].order) else None,
               if c2 != [] && c2[0].Group? then Some(c2[0].names) else None,
               if c3 != [] && c3[0].Limit? then Some(c3[0].rows) else None)
  }

  ghost predicate InOrder(cs: seq<Clause>) {
    forall i, j :: 0 <= i < j < |cs| ==> Rank(cs[i]) < Rank(cs[j])
  }

  /** Nothing is left exactly when the clauses are in order from rank k on. */
  lemma {:induction false} UnreadNothing(k: nat, cs: seq<Clause>)
    requires k <= 4
    ensures Unread(k, cs) == [] <==> InOrder(cs) && (cs != [] ==> k <= Rank(cs[0]))
    decreases 4 - k
  {
    if k < 4 {
      UnreadNothing(k + 1, Behind(k, cs));
      if cs != [] && Rank(cs[0]) == k {
        InOrderTail(cs);
      }
    }
  }

  lemma InOrderTail(cs: seq<Clause>)
    requires cs != []
    ensures InOrder(cs) <==> InOrder(cs[1..]) && (|cs| > 1 ==> Rank(cs[0]) < Rank(cs[1]))
  {
    var rest := cs[1..];
    if InOrder(rest) && (|cs| > 1 ==> Rank(cs[0]) < Rank(cs[1])) {
      forall i, j | 0 <= i < j < |cs| ensures Rank(cs[i]) < Rank(cs[j]) {
        assert cs[j] == rest[j - 1];
        if i > 0 {
          assert cs[i] == rest[i - 1];
        } else if j > 1 {
          assert rest[0] == cs[1] && Rank(rest[0]) < Rank(rest[j - 1]);
        }
      }
    }
    if InOrder(cs) {
      assert forall i :: 0 <= i < |rest| ==> rest[i] == cs[i + 1];
    }
  }

  /** Any clauses in any order: exactly what is read and what is left. The clauses are
      read to the end if and only if they stand in the order WHERE, ORDER BY, GROUP BY,
      LIMIT, each at most once; otherwise the first one out of order and everything
      behind it is left unread, without an error. */
  lemma ClausesReadExactly(l: Layout, columns: SelectColumns, cs: seq<Clause>)
    requires LayoutOk(l) && AllOk(cs)
    ensures AllOk(Unread(0, cs))
    ensures ParseClauses(columns, SkipSpace(Text(l, cs))) ==
            Done(SkipSpace(Text(l, Unread(0, cs))), ReadClauses(columns, cs))
    ensures SkipSpace(Text(l, Unread(0, cs))) == "" <==> InOrder(cs)
  {
    var c1 := Behind(0, cs);
    var c2 := Behind(1, c1);
    var c3 := Behind(2, c2);
    var c4 := Behind(3, c3);
    UnreadIs(cs);
    ReadWhere(l, cs);
    ReadOrder(l, c1);
    ReadGroup(l, c2);
    ReadLimit(l, c3);
    TextStarts(l, c4);
    UnreadNothing(0, cs);
  }

  /** The first clause, if it has the given rank. */
  function Front(rank: nat, cs: seq<Clause>): Option<Clause> {
    if cs != [] && Rank(cs[0]) == rank then Some(cs[0]) else None
  }

  lemma FrontAndBehind(rank: nat, cs: seq<Clause>)
    ensures cs == OneClause(Front(rank, cs)) + Behind(rank, cs)
  {
  }

  lemma FrontOfRead(columns: SelectColumns, cs: seq<Clause>)
    ensures var q := ReadClauses(columns, cs);
            var c1 := Behind(0, cs);
            var c2 := Behind(1, c1);
            && WhereOf(q) == Front(0, cs) && OrderOf(q) == Front(1, c1)
            && GroupOf(q) == Front(2, c2) && LimitOf(q) == Front(3, Behind(2, c2))
  {
  }

  lemma UnreadIs(cs: seq<Clause>)
    ensures Unread(0, cs) == Behind(3, Behind(2, Behind(1, Behind(0, cs))))
  {
    var c1 := Behind(0, cs);
    var c2 := Behind(1, c1);
    var c3 := Behind(2, c2);
    var c4 := Behind(3, c3);
    assert Unread(2, c2) == Unread(3, c3) == Unread(4, c4) == c4;
    assert Unread(0, cs) == Unread(1, c1) == Unread(2, c2);
  }

  /** In order, the statement read has exactly the clauses written. */
  lemma InOrderReadsAll(columns: SelectColumns, cs: seq<Clause>)
    requires InOrder(cs)
    ensures ClausesOf(ReadClauses(columns, cs)) == cs
  {
    var c1 := Behind(0, cs);
    var c2 := Behind(1, c1);
    var c3 := Behind(2, c2);
    UnreadNothing(0, cs);
    UnreadIs(cs);
    FrontAndBehind(0, cs);
    FrontAndBehind(1, c1);
    FrontAndBehind(2, c2);
    FrontAndBehind(3, c3);
    FrontOfRead(columns, cs);
    assert OneClause(Front(3, c3)) + [] == OneClause(Front(3, c3));
  }

  /** A clause in front of clauses of higher rank. */
  lemma InFront(rank: nat, c: Option<Clause>, rest: seq<Clause>)
    requires (c.Some? ==> Rank(c.value) == rank) && InOrder(rest) && RanksAbove(rank, rest)
    ensures var cs := OneClause(c) + rest;
            && InOrder(cs) && (rank > 0 ==> RanksAbove(rank - 1, cs))
            && Front(rank, cs) == c && Behind(rank, cs) == rest
  {
    if c.Some? {
      ClauseBefore(c.value, rest);
    } else {
      assert OneClause(c) + rest == rest;
    }
  }

  lemma ClauseBefore(c: Clause, rest: seq<Clause>)
    requires InOrder(rest) && RanksAbove(Rank(c), rest)
    ensures var cs := [c] + rest; InOrder(cs) && cs[1..] == rest && (Rank(c) > 0 ==> RanksAbove(Rank(c) - 1, cs))
  {
    var cs := [c] + rest;
    forall i, j | 0 <= i < j < |cs| ensures Rank(cs[i]) < Rank(cs[j]) {
      assert cs[j] == rest[j - 1];
      if i > 0 {
        assert cs[i] == rest[i - 1];
      }
    }
  }

  predicate RanksAbove(rank: nat, cs: seq<Clause>) {
    forall i :: 0 <= i < |cs| ==> rank < Rank(cs[i])
  }

  lemma FourInOrder(w: Option<Clause>, o: Option<Clause>, g: Option<Clause>, l: Option<Clause>)
    requires (w.Some? ==> w.value.Where?) && (o.Some? ==> o.value.Order?)
    requires (g.Some? ==> g.value.Group?) && (l.Some? ==> l.value.Limit?)
    ensures var c2 := OneClause(g) + OneClause(l);
            var c1 := OneClause(o) + c2;
            var cs := OneClause(w) + c1;
            && InOrder(cs) && Front(0, cs) == w && Behind(0, cs) == c1 && Front(1, c1) == o && Behind(1, c1) == c2
            && Front(2, c2) == g && Behind(2, c2) == OneClause(l) && Front(3, OneClause(l)) == l
  {
    assert OneClause(l) + [] == OneClause(l);
    InFront(3, l, []);
    InFront(2, g, OneClause(l));
    InFront(1, o, OneClause(g) + OneClause(l));
    InFront(0, w, OneClause(o) + (OneClause(g) + OneClause(l)));
  }

  lemma AllOkBoth(a: seq<Clause>, b: seq<Clause>)
    requires AllOk(a) && AllOk(b)
    ensures AllOk(a + b)
  {
  }

  lemma ClausesOk(q: SelectStmt)
    requires Printable(q)
    ensures AllOk(ClausesOf(q))
  {
    AllOkBoth(OneClause(GroupOf(q)), OneClause(LimitOf(q)));
    AllOkBoth(OneClause(OrderOf(q)), OneClause(GroupOf(q)) + OneClause(LimitOf(q)));
    AllOkBoth(OneClause(WhereOf(q)), OneClause(OrderOf(q)) + (OneClause(GroupOf(q)) + OneClause(LimitOf(q))));
  }

  /** The clauses of a statement stand in the parser's order and make that statement. */
  lemma ClausesOfInOrder(q: SelectStmt)
    ensures InOrder(ClausesOf(q)) && ReadClauses(q.columns, ClausesOf(q)) == q
  {
    FourInOrder(WhereOf(q), OrderOf(q), GroupOf(q), LimitOf(q));
    FrontOfRead(q.columns, ClausesOf(q));
    SameParts(q, ReadClauses(q.columns, ClausesOf(q)));
  }

  lemma SameParts(q: SelectStmt, p: SelectStmt)
    requires q.columns == p.columns && WhereOf(q) == WhereOf(p) && OrderOf(q) == OrderOf(p)
    requires GroupOf(q) == GroupOf(p) && LimitOf(q) == LimitOf(p)
    ensures q == p
  {
  }

  /** The clauses read back, each present or absent. */
  lemma ClausesReadBack(l: Layout, q: SelectStmt)
    requires LayoutOk(l) && Printable(q)
    ensures AllOk(ClausesOf(q))
    ensures ParseClauses(q.columns, SkipSpace(Text(l, ClausesOf(q)))) == Done("", q)
  {
    ClausesOk(q);
    ClausesOfInOrder(q);
    ClausesReadExactly(l, q.columns, ClausesOf(q));
  }

  ghost function PrintSelect(l: Layout, q: SelectStmt): string
    requires Printable(q)
  {
    ClausesOk(q);
    l.spell("SELECT") +
    (l.gap + (ColumnsText(l, q.columns) + Led(l, "FROM", l.spell("expenses") + Text(l, ClausesOf(q)))))
  }

  lemma StarReads(rest: string)
    ensures ParseColumns("*" + rest) == Done(SkipSpace(rest), All)
    ensures NoSpaceFirst("*" + rest)
  {
    SkipTwice(rest);
    CommaReads(rest);
    NoSpaceBefore("*", rest);
  }

  lemma NamedReads(l: Layout, names: seq<string>, rest: string)
    requires LayoutOk(l) && NamesOk(names) && EndsNames(rest)
    ensures ParseColumns(NameList(l, names) + rest) == Done(SkipSpace(rest), Named(names))
    ensures NoSpaceFirst(NameList(l, names) + rest)
  {
    var list := NameList(l, names) + rest;
    SkipTwice(rest);
    NamesRead(l, names, rest);
    SkipNone(list);
    assert list[0] == names[0][0];
    KeywordFails("*", list);
  }

  lemma ColumnsRead(l: Layout, c: SelectColumns, rest: string)
    requires LayoutOk(l) && (c.Named? ==> NamesOk(c.names)) && ClauseStart({'F'}, rest)
    ensures ParseColumns(ColumnsText(l, c) + rest) == Done(SkipSpace(rest), c)
    ensures NoSpaceFirst(ColumnsText(l, c) + rest)
  {
    match c
    case All => StarReads(rest);
    case Named(names) =>
      ClauseStartSkips({'F'}, rest);
      NamedReads(l, names, rest);
  }

  lemma TableReads(l: Layout, clauses: string)
    requires LayoutOk(l)
    ensures var table := l.spell("expenses") + clauses;
            && ClauseStart({'F'}, Led(l, "FROM", table))
            && Keyword("FROM", SkipSpace(Led(l, "FROM", table))) == Done(table, ())
            && Keyword("expenses", table) == Done(SkipSpace(clauses), ())
  {
    var table := l.spell("expenses") + clauses;
    KeywordReads(l.spell("expenses"), "expenses", clauses);
    LedReads(l, "FROM", table);
    LedStarts(l, "FROM", table);
    assert 'F' in {'F'};
  }

  lemma SelectLead(l: Layout, columns: string)
    requires LayoutOk(l) && NoSpaceFirst(columns)
    ensures Keyword("SELECT", l.spell("SELECT") + (l.gap + columns)) == Done(columns, ())
  {
    KeywordReads(l.spell("SELECT"), "SELECT", l.gap + columns);
    SpaceThen(l.gap, columns);
  }

  /** Every printable SELECT, with its clauses in the parser's order, reads back as it was,
      whatever white space stands between its words and however they are spelled. */
  lemma SelectReadsBack(l: Layout, q: SelectStmt)
    requires LayoutOk(l) && Printable(q)
    ensures ParseSelect(PrintSelect(l, q)) == Done("", q)
  {
    ClausesOk(q);
    var clauses := Text(l, ClausesOf(q));
    var from := Led(l, "FROM", l.spell("expenses") + clauses);
    TableReads(l, clauses);
    ColumnsRead(l, q.columns, from);
    SelectLead(l, ColumnsText(l, q.columns) + from);
    assert ParseClauses(q.columns, SkipSpace(clauses)) == Done("", q) by {
      ClausesReadBack(l, q);
    }
  }

  /** An ORDER BY behind a GROUP BY is left unread, and with it everything behind it, a
      LIMIT included, whether or not there is a WHERE in front. */
  lemma LateOrderByIsDropped(l: Layout, columns: SelectColumns, w: Option<Expr>, names: seq<string>, order: OrderBy,
                             more: seq<Clause>)
    requires LayoutOk(l)
    requires (w.Some? ==> IsCondition(w.value)) && NamesOk(names) && IsName(order.column) && AllOk(more)
    ensures var late := [Order(order)] + more;
            var cs := (if w.Some? then [Where(w.value)] else []) + ([Group(names)] + late);
            && AllOk(late) && AllOk(cs)
            && ParseClauses(columns, SkipSpace(Text(l, cs))) ==
               Done(SkipSpace(Text(l, late)), SelectStmt(columns, w, None, Some(names), None))
  {
    var late := [Order(order)] + more;
    var cs := (if w.Some? then [Where(w.value)] else []) + ([Group(names)] + late);
    LateOrder(columns, w, names, late, cs);
    assert AllOk(cs) by {
      AllOkBoth([Group(names)], late);
      AllOkBoth(if w.Some? then [Where(w.value)] else [], [Group(names)] + late);
    }
    ClausesReadExactly(l, columns, cs);
  }

  lemma LateOrder(columns: SelectColumns, w: Option<Expr>, names: seq<string>, late: seq<Clause>, cs: seq<Clause>)
    requires late != [] && late[0].Order?
    requires cs == (if w.Some? then [Where(w.value)] else []) + ([Group(names)] + late)
    ensures Unread(0, cs) == late && ReadClauses(columns, cs) == SelectStmt(columns, w, None, Some(names), None)
  {
    var grouped := [Group(names)] + late;
    assert Behind(0, cs) == grouped && Behind(1, grouped) == grouped;
    assert Behind(2, grouped) == late && Behind(3, late) == late;
    UnreadIs(cs);
  }
}
