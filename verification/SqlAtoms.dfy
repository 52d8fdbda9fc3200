/** How the words, numbers and names of a query may be written, and that each reads back. */
module SqlAtoms {
  import opened SqlAst
  import opened SqlParser
  import opened Sequences

  // ---------- letters ----------

  /** The same character, or the same ASCII letter in the other case. */
  predicate SameLetter(c: char, d: char) {
    || c == d
    || ('A' <= c <= 'Z' && d as int == c as int + 32)
    || ('a' <= c <= 'z' && d as int == c as int - 32)
  }

  /** The word, each letter in either case. */
  predicate Spelled(text: string, word: string) {
    |text| == |word| && forall i :: 0 <= i < |word| ==> SameLetter(text[i], word[i])
  }

  /** Keywords are compared letter by letter, each in either case. */
  lemma LowerExactly(c: char, d: char)
    ensures Lower(c) == Lower(d) <==> SameLetter(c, d)
  {
  }

  lemma StartsExactly(t: string, s: string)
    ensures StartsNoCase(t, s) <==> |t| <= |s| && Spelled(s[..|t|], t)
  {
    if |t| <= |s| {
      forall i | 0 <= i < |t| ensures Lower(s[i]) == Lower(t[i]) <==> SameLetter(s[..|t|][i], t[i]) {
        LowerExactly(s[i], t[i]);
      }
    }
  }

  predicate IsLetter(c: char) {
    'a' <= c <= 'z' || 'A' <= c <= 'Z'
  }

  /** What names are made of. */
  predicate InName(c: char) {
    IsLetter(c) || '0' <= c <= '9' || c == '_'
  }

  /** A spelled word starts with its own first letter. */
  lemma SpelledStarts(text: string, word: string, rest: string)
    requires Spelled(text, word) && word != "" && IsLetter(word[0])
    ensures text != "" && NoSpaceFirst(text) && (text + rest)[0] == text[0] && SameLetter(text[0], word[0])
    ensures IsLetter(text[0])
  {
    assert SameLetter(text[0], word[0]);
  }

  // ---------- numbers ----------

  predicate AllDigits(s: string) {
    forall i :: 0 <= i < |s| ==> '0' <= s[i] <= '9'
  }

  /** An optional sign, digits, and an optional point with digits behind it. */
  datatype Numeral = Numeral(sign: string, whole: string, point: bool, fraction: string)

  predicate NumeralOk(n: Numeral) {
    && n.sign in ["", "+", "-"] && AllDigits(n.whole) && AllDigits(n.fraction)
    && if n.point then n.whole != "" || n.fraction != "" else n.whole != "" && n.fraction == ""
  }

  function UnsignedText(n: Numeral): string {
    n.whole + (if n.point then "." + n.fraction else "")
  }

  function NumeralText(n: Numeral): string {
    n.sign + UnsignedText(n)
  }

  /** x with the point moved k places to the right. */
  function Shifted(x: real, k: nat): real {
    if k == 0 then x else 10.0 * Shifted(x, k - 1)
  }

  /** The numeral stands for x: all its digits are x with the point moved behind them. */
  ghost predicate Denotes(n: Numeral, x: real) {
    && NumeralOk(n)
    && AllDigits(n.whole + n.fraction)
    && Shifted(if n.sign == "-" then -x else x, |n.fraction|) == DigitsValue(n.whole + n.fraction) as real
  }

  /** Some numeral stands for x. */
  ghost predicate Decimal(x: real) {
    exists n :: Denotes(n, x)
  }

  // ---------- layouts ----------

  /** White space may stand around operators and commas (w) and must stand between words
      (gap). Words are spelled in any case and numbers written with any numeral; `short`
      leaves out ASC. */
  datatype Layout = Layout(w: string, gap: string, spell: string -> string, number: real -> Numeral, short: bool)

  predicate AllSpace(w: string) {
    forall i :: 0 <= i < |w| ==> w[i] in {' ', '\t', '\r', '\n'}
  }

  ghost predicate LayoutOk(l: Layout) {
    && AllSpace(l.w) && AllSpace(l.gap) && l.gap != ""
    && (forall word :: Spelled(l.spell(word), word))
    && (forall x :: Decimal(x) ==> Denotes(l.number(x), x))
  }

  /** Every choice of white space and spelling is a layout's. */
  lemma LayoutExists(w: string, gap: string, spell: string -> string, short: bool) returns (l: Layout)
    requires AllSpace(w) && AllSpace(gap) && gap != "" && forall word :: Spelled(spell(word), word)
    ensures LayoutOk(l) && l.w == w && l.gap == gap && l.spell == spell && l.short == short
  {
    l := Layout(w, gap, spell, x => SomeNumeral(x), short);
  }

  /** A numeral for x, if there is one. */
  ghost function SomeNumeral(x: real): (n: Numeral)
    ensures Decimal(x) ==> Denotes(n, x)
  {
    if Decimal(x) then var n :| Denotes(n, x); n else Numeral("", "0", false, "")
  }

  /** Small letters are a spelling, and so is the word itself. */
  lemma SmallLetters(word: string)
    ensures Spelled(word, word) && Spelled(seq(|word|, i requires 0 <= i < |word| => Lower(word[i])), word)
  {
  }

  // ---------- atoms ----------

  /** The names a column can have without being read as something else; the
      executor's six columns are among them. */
  predicate PlainName(name: string) {
    && name != "" && !('0' <= name[0] <= '9') && (forall i :: 0 <= i < |name| ==> InName(name[i]))
    && !StartsNoCase("NULL", name) && !StartsNoCase("inf", name) && !StartsNoCase("nan", name)
  }

  predicate WordOf(name: string) {
    && name != "" && IsLetter(name[0]) && (forall i :: 0 <= i < |name| ==> InName(name[i]))
    && (|name| < 3 || (Lower(name[0]) != 'n' && Lower(name[0]) != 'i'))
  }

  lemma PlainBy(name: string)
    requires WordOf(name)
    ensures PlainName(name)
  {
    assert Lower("NULL"[0]) == 'n' && Lower("inf"[0]) == 'i' && Lower("nan"[0]) == 'n';
  }

  /** The executor's six columns can be written in a condition. */
  lemma SixColumns(name: string)
    requires name in ["id", "amount", "category", "description", "date", "created_at"]
    ensures PlainName(name)
  {
    assert WordOf("id") && WordOf("amount") && WordOf("category");
    assert WordOf("description") && WordOf("date") && WordOf("created_at");
    PlainBy(name);
  }

  const EXACT_LIMIT := 0x20_0000_0000_0000

  /** Column names, non-empty text without quotes, integers a double holds exactly, other
      numbers with a numeral, and NULL. */
  ghost predicate IsAtom(e: Expr) {
    match e
    case Column(name) => PlainName(name)
    case Literal(Text(t)) => t != "" && forall i :: 0 <= i < |t| ==> t[i] != '\''
    case Literal(Integer(n)) => -EXACT_LIMIT <= n <= EXACT_LIMIT
    case Literal(Real(x)) => Decimal(x) && x.Floor as real != x
    case Literal(Null) => true
    case _ => false
  }

  ghost function PrintAtom(l: Layout, e: Expr): string
    requires IsAtom(e)
  {
    match e
    case Column(name) => name
    case Literal(Text(t)) => "'" + t + "'"
    case Literal(Integer(n)) => NumeralText(l.number(n as real))
    case Literal(Real(x)) => NumeralText(l.number(x))
    case Literal(Null) => l.spell("NULL")
  }

  // ---------- spaces ----------

  predicate NoSpaceFirst(s: string) {
    s == "" || !IsSpace(s[0])
  }

  lemma {:induction false} SkipOver(w: string, s: string)
    requires AllSpace(w)
    ensures SkipSpace(w + s) == SkipSpace(s)
  {
    if w == "" {
      assert w + s == s;
    } else {
      SkipOver(w[1..], s);
      assert (w + s)[1..] == w[1..] + s;
    }
  }

  lemma SkipNone(s: string)
    requires NoSpaceFirst(s)
    ensures SkipSpace(s) == s
  {
  }

  lemma NoSpaceBefore(a: string, rest: string)
    requires a != "" && NoSpaceFirst(a)
    ensures NoSpaceFirst(a + rest) && SkipSpace(a + rest) == a + rest
  {
    assert (a + rest)[0] == a[0];
    SkipNone(a + rest);
  }

  lemma {:induction false} SkipTwice(s: string)
    ensures NoSpaceFirst(SkipSpace(s)) && SkipSpace(SkipSpace(s)) == SkipSpace(s)
  {
    if s != "" && IsSpace(s[0]) {
      SkipTwice(s[1..]);
    }
  }

  // ---------- spans ----------

  lemma {:induction false} SpanExact(p: char -> bool, a: string, b: string)
    requires forall i :: 0 <= i < |a| ==> p(a[i])
    requires b == "" || !p(b[0])
    ensures Span(p, a + b) == |a|
  {
    if a == "" {
      assert a + b == b;
    } else {
      assert (a + b)[1..] == a[1..] + b;
      SpanExact(p, a[1..], b);
    }
  }

  // ---------- digits ----------

  function DigitChar(d: nat): char
    requires d < 10
  {
    '0' + d as char
  }

  function Digits(n: nat): (s: string)
    ensures |s| > 0
  {
    if n < 10 then [DigitChar(n)] else Digits(n / 10) + [DigitChar(n % 10)]
  }

  lemma {:induction false} DigitsRoundTrip(n: nat)
    ensures AllDigits(Digits(n)) && DigitsValue(Digits(n)) == n
  {
    if n < 10 {
      assert [DigitChar(n)][..0] == "";
    } else {
      DigitsRoundTrip(n / 10);
      var s := Digits(n);
      assert s[..|s| - 1] == Digits(n / 10);
    }
  }

  /** Every integer has a numeral, and so can be written in every layout. */
  lemma IntegersAreDecimal(n: int)
    ensures Decimal(n as real)
  {
    var d := Digits(if n < 0 then -n else n);
    DigitsRoundTrip(if n < 0 then -n else n);
    assert d + "" == d;
    assert Denotes(Numeral(if n < 0 then "-" else "", d, false, ""), n as real);
  }

  lemma {:induction false} DigitsAppend(d: string, f: string)
    requires AllDigits(d) && AllDigits(f)
    ensures AllDigits(d + f)
    ensures DigitsValue(d + f) as real == Shifted(DigitsValue(d) as real, |f|) + DigitsValue(f) as real
  {
    if f == "" {
      assert d + f == d;
    } else {
      var n := |f| - 1;
      DigitsAppend(d, f[..n]);
      assert (d + f)[..|d + f| - 1] == d + f[..n];
    }
  }

  lemma TenTimes(x: real, p: real)
    ensures 10.0 * (x * p) == x * (10.0 * p)
  {
  }

  lemma {:induction false} ShiftedTimes(x: real, k: nat)
    ensures Shifted(x, k) == x * Pow10(k)
  {
    if k > 0 {
      ShiftedTimes(x, k - 1);
      TenTimes(x, Pow10(k - 1));
    }
  }

  /** What may follow an atom without being taken for part of it. */
  predicate Delimits(rest: string) {
    rest == "" || (!InName(rest[0]) && rest[0] != '.')
  }

  lemma WholeReads(d: string, rest: string)
    requires d != "" && AllDigits(d) && Delimits(rest)
    ensures Magnitude(d + rest) == Done(rest, DigitsValue(d) as real)
  {
    var s := d + rest;
    SpanExact(IsDigit, d, rest);
    assert s[..|d|] == d && s[|d|..] == rest;
    assert !("." <= rest);
  }

  /** Where a fraction ends. */
  lemma FractionSpan(f: string, rest: string, after: string)
    requires AllDigits(f) && Delimits(rest) && after == "." + (f + rest)
    ensures "." <= after && !IsDigit(after[0]) && after[1..] == f + rest && Span(IsDigit, after[1..]) == |f|
    ensures after[1..1 + |f|] == f && after[1 + |f|..] == rest
  {
    assert after[1..] == f + rest;
    SpanExact(IsDigit, f, rest);
  }

  lemma WholeSpan(d: string, after: string, s: string)
    requires AllDigits(d) && after != "" && !IsDigit(after[0]) && s == d + after
    ensures Span(IsDigit, s) == |d| && s[..|d|] == d && s[|d|..] == after
  {
    SpanExact(IsDigit, d, after);
  }

  /** The value of digits with a fraction behind them. */
  ghost predicate IsValue(d: string, f: string, v: real) {
    AllDigits(d) && AllDigits(f) && v == DigitsValue(d) as real + DigitsValue(f) as real / Pow10(|f|)
  }

  /** Digits, a point and digits, from where they end. */
  lemma PointReads(s: string, n: nat, m: nat, after: string, v: real)
    requires n == Span(IsDigit, s) && after == s[n..] && "." <= after && m == Span(IsDigit, after[1..])
    requires (n > 0 || m > 0) && IsValue(s[..n], after[1..1 + m], v)
    ensures Magnitude(s) == Done(after[1 + m..], v)
  {
  }

  lemma FractionReads(d: string, f: string, rest: string, after: string, v: real)
    requires (d != "" || f != "") && IsValue(d, f, v) && Delimits(rest) && after == "." + (f + rest)
    ensures Magnitude(d + after) == Done(rest, v)
  {
    FractionSpan(f, rest, after);
    WholeSpan(d, after, d + after);
    PointReads(d + after, |d|, |f|, after, v);
  }

  lemma Quotient(x: real, d: real, f: real, p: real)
    requires p > 0.0 && x * p == d * p + f
    ensures x == d + f / p
  {
    assert (x - d) * p == f;
    assert x - d == f / p;
  }

  lemma ShiftedQuotient(x: real, d: real, f: real, k: nat)
    requires Shifted(x, k) == Shifted(d, k) + f
    ensures x == d + f / Pow10(k)
  {
    ShiftedTimes(x, k);
    ShiftedTimes(d, k);
    Quotient(x, d, f, Pow10(k));
  }

  /** The value of the digits, from the value of all of them together. */
  lemma PointMoved(d: string, f: string, x: real)
    requires AllDigits(d) && AllDigits(f) && AllDigits(d + f)
    requires Shifted(x, |f|) == DigitsValue(d + f) as real
    ensures IsValue(d, f, x)
  {
    DigitsAppend(d, f);
    ShiftedQuotient(x, DigitsValue(d) as real, DigitsValue(f) as real, |f|);
  }

  lemma WholeValue(d: string, f: string, v: real)
    requires f == "" && AllDigits(d) && AllDigits(d + f) && Shifted(v, |f|) == DigitsValue(d + f) as real
    ensures v == DigitsValue(d) as real
  {
    assert d + f == d;
  }

  lemma WithoutPoint(n: Numeral, v: real, rest: string)
    requires NumeralOk(n) && !n.point && v == DigitsValue(n.whole) as real && Delimits(rest)
    ensures Magnitude(UnsignedText(n) + rest) == Done(rest, v)
  {
    assert UnsignedText(n) == n.whole;
    WholeReads(n.whole, rest);
  }

  lemma WithPoint(n: Numeral, v: real, rest: string)
    requires NumeralOk(n) && n.point && IsValue(n.whole, n.fraction, v) && Delimits(rest)
    ensures Magnitude(UnsignedText(n) + rest) == Done(rest, v)
  {
    assert UnsignedText(n) + rest == n.whole + ("." + (n.fraction + rest)) by {
      Assoc(n.whole, "." + n.fraction, rest);
      Assoc(".", n.fraction, rest);
    }
    FractionReads(n.whole, n.fraction, rest, "." + (n.fraction + rest), v);
  }

  /** The digits of a numeral read as the number it stands for, but for its sign. */
  lemma MagnitudeReads(n: Numeral, x: real, rest: string)
    requires Denotes(n, x) && Delimits(rest)
    ensures Magnitude(UnsignedText(n) + rest) == Done(rest, if n.sign == "-" then -x else x)
  {
    var v := if n.sign == "-" then -x else x;
    if n.point {
      PointMoved(n.whole, n.fraction, v);
      WithPoint(n, v, rest);
    } else {
      WholeValue(n.whole, n.fraction, v);
      WithoutPoint(n, v, rest);
    }
  }

  lemma UnsignedStarts(n: Numeral)
    requires NumeralOk(n)
    ensures UnsignedText(n) != "" && (IsDigit(UnsignedText(n)[0]) || UnsignedText(n)[0] == '.')
  {
  }

  /** A numeral reads as the number it stands for. */
  lemma NumeralReads(n: Numeral, x: real, rest: string)
    requires Denotes(n, x) && Delimits(rest)
    ensures Number(NumeralText(n) + rest) == Done(rest, x)
    ensures var s := NumeralText(n);
            s != "" && (IsDigit(s[0]) || s[0] == '.' || s[0] == '+' || s[0] == '-')
  {
    var u := UnsignedText(n);
    UnsignedStarts(n);
    MagnitudeReads(n, x, rest);
    Assoc(n.sign, u, rest);
    SignReads(n.sign, u + rest, n.sign + (u + rest), rest, if n.sign == "-" then -x else x);
    FirstOf(n.sign, u);
    assert (u + rest)[0] == u[0];
  }

  /** The first character of a numeral. */
  lemma FirstOf(sign: string, u: string)
    requires u != ""
    ensures (sign + u) != "" && (sign + u)[0] == if sign == "" then u[0] else sign[0]
  {
  }

  lemma SignReads(sign: string, rest: string, s: string, end: string, v: real)
    requires sign in ["", "+", "-"] && rest != "" && rest[0] != '+' && rest[0] != '-'
    requires s == sign + rest && Magnitude(rest) == Done(end, v)
    ensures Number(s) == Done(end, if sign == "-" then -v else v)
  {
    if sign == "" {
      assert s == rest;
    } else {
      assert s[0] == sign[0] && s[1..] == rest;
    }
  }

  /** A numeral is an Integer when it stands for a whole number below 2^63 in size, and a
      Real otherwise. */
  lemma WholeNumbersExactly(x: real)
    ensures NumberValue(x).Integer? <==>
            x.Floor as real == x && -9223372036854775808.0 < x < 9223372036854775808.0
    ensures NumberValue(x) == if NumberValue(x).Integer? then Integer(x.Floor) else Real(x)
  {
  }

  lemma NumberAtom(n: Numeral, x: real, v: Value, rest: string)
    requires Denotes(n, x) && Delimits(rest) && NumberValue(x) == v
    ensures ParseAtom(NumeralText(n) + rest) == Done(rest, Literal(v))
    ensures NoSpaceFirst(NumeralText(n)) && NumeralText(n) != "" && !("=" <= NumeralText(n))
  {
    var s := NumeralText(n) + rest;
    NumeralReads(n, x, rest);
    assert s[0] == NumeralText(n)[0];
    assert !("'" <= s);
  }

  // ---------- other atoms ----------

  lemma TextAtom(t: string, rest: string)
    requires t != "" && forall i :: 0 <= i < |t| ==> t[i] != '\''
    ensures ParseAtom("'" + t + "'" + rest) == Done(rest, Literal(Text(t)))
  {
    var s := "'" + t + "'" + rest;
    var tail := "'" + rest;
    assert s[1..] == t + tail;
    SpanExact(NotQuote, t, tail);
    assert s[1 + |t|..] == tail;
    assert s[|t| + 2..] == rest;
    assert s[1..1 + |t|] == t;
  }

  /** An empty text is no atom. */
  lemma EmptyTextFails(rest: string)
    ensures ParseAtom("''" + rest) == Fail
  {
    var s := "''" + rest;
    assert s[0] == '\'' && s[1..][0] == '\'';
    assert Span(NotQuote, s[1..]) == 0;
    assert Lower(s[0]) != Lower("NULL"[0]);
    assert !StartsNoCase("NULL", s);
  }

  /** What starts with a letter is neither a text nor a number. */
  lemma LetterFirst(s: string)
    requires s != "" && IsIdentChar(s[0]) && !IsDigit(s[0])
    ensures QuotedString(s) == Fail && Number(s) == Fail
  {
  }

  lemma StartsWith(text: string, word: string, rest: string)
    requires Spelled(text, word)
    ensures StartsNoCase(word, text + rest) && (text + rest)[|word|..] == rest
  {
    StartsExactly(word, text + rest);
    assert (text + rest)[..|word|] == text;
  }

  lemma NullAtom(text: string, rest: string)
    requires Spelled(text, "NULL")
    ensures ParseAtom(text + rest) == Done(rest, Literal(Null))
    ensures NoSpaceFirst(text) && text != "" && !("=" <= text)
  {
    StartsWith(text, "NULL", rest);
    SpelledStarts(text, "NULL", rest);
    LetterFirst(text + rest);
  }

  /** A keyword of letters at the front of a name and a delimiter lies inside the name. */
  lemma StartsInside(t: string, name: string, rest: string)
    requires StartsNoCase(t, name + rest) && Delimits(rest)
    requires forall i :: 0 <= i < |t| ==> forall c: char :: Lower(c) == Lower(t[i]) ==> IsIdentChar(c)
    ensures StartsNoCase(t, name)
  {
    var s := name + rest;
    if rest != "" {
      assert s[|name|] == rest[0];
    }
    assert forall i :: 0 <= i < |t| ==> s[i] == name[i];
  }

  lemma NotNull(name: string, rest: string)
    requires PlainName(name) && Delimits(rest)
    ensures !StartsNoCase("NULL", name + rest)
  {
    if StartsNoCase("NULL", name + rest) {
      StartsInside("NULL", name, rest);
      assert false;
    }
  }

  lemma IdentReads(name: string, rest: string)
    requires PlainName(name) && Delimits(rest)
    ensures Ident(name + rest) == Done(rest, name)
    ensures (name + rest)[0] == name[0]
  {
    SpanExact(IsIdentChar, name, rest);
    assert (name + rest)[..|name|] == name && (name + rest)[|name|..] == rest;
  }

  lemma NameAtom(name: string, rest: string)
    requires PlainName(name) && Delimits(rest)
    ensures ParseAtom(name + rest) == Done(rest, Column(name))
  {
    IdentReads(name, rest);
    LetterFirst(name + rest);
    NotNull(name, rest);
  }

  lemma TextReads(t: string, rest: string)
    requires t != "" && forall i :: 0 <= i < |t| ==> t[i] != '\''
    ensures ParseAtom(("'" + t + "'") + rest) == Done(rest, Literal(Text(t)))
    ensures NoSpaceFirst("'" + t + "'") && !("=" <= "'" + t + "'")
  {
    TextAtom(t, rest);
    assert "'" + t + "'" + rest == ("'" + t + "'") + rest;
  }

  lemma IntegerReads(l: Layout, n: int, rest: string)
    requires LayoutOk(l) && -EXACT_LIMIT <= n <= EXACT_LIMIT && Delimits(rest)
    ensures var text := NumeralText(l.number(n as real));
            && ParseAtom(text + rest) == Done(rest, Literal(Integer(n)))
            && NoSpaceFirst(text) && text != "" && !("=" <= text)
  {
    IntegersAreDecimal(n);
    assert NumberValue(n as real) == Integer(n);
    NumberAtom(l.number(n as real), n as real, Integer(n), rest);
  }

  /** An atom in any layout, followed by anything that delimits it, reads back. */
  lemma AtomReadsBack(l: Layout, e: Expr, rest: string)
    requires LayoutOk(l) && IsAtom(e) && Delimits(rest)
    ensures ParseAtom(PrintAtom(l, e) + rest) == Done(rest, e)
    ensures NoSpaceFirst(PrintAtom(l, e)) && PrintAtom(l, e) != "" && !("=" <= PrintAtom(l, e))
  {
    match e
    case Column(name) => NameAtom(name, rest);
    case Literal(Text(t)) => TextReads(t, rest);
    case Literal(Integer(n)) => IntegerReads(l, n, rest);
    case Literal(Real(x)) => NumberAtom(l.number(x), x, Real(x), rest);
    case Literal(Null) => NullAtom(l.spell("NULL"), rest);
  }

  /** With white space in front, and everything behind it skipped. */
  lemma SpacedAtom(l: Layout, w: string, e: Expr, rest: string)
    requires LayoutOk(l) && AllSpace(w) && IsAtom(e) && Delimits(rest)
    ensures Atom(w + PrintAtom(l, e) + rest) == Done(SkipSpace(rest), e)
  {
    AtomReadsBack(l, e, rest);
    Assoc(w, PrintAtom(l, e), rest);
    SkipOver(w, PrintAtom(l, e) + rest);
    NoSpaceBefore(PrintAtom(l, e), rest);
  }
}
