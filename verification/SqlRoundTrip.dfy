/** Printing a condition and parsing it gives the same condition back. */
module SqlRoundTrip {
  import opened SqlAst
  import opened SqlParser
  import opened Sequences
  import opened SqlAtoms

  // ---------- what is printed ----------

  function PrintOp(op: BinOp): string
    requires op != And && op != Or
  {
    match op
    case Eq => "="
    case Ne => "!="
    case Lt => "<"
    case Le => "<="
    case Gt => ">"
    case Ge => ">="
  }

  ghost predicate IsComparison(e: Expr) {
    e.BinaryOp? && e.op != And && e.op != Or && IsAtom(e.left) && IsAtom(e.right)
  }

  /** Ands of comparisons, nested to the left. */
  ghost predicate IsConjunction(e: Expr) {
    IsComparison(e) || (e.BinaryOp? && e.op == And && IsConjunction(e.left) && IsComparison(e.right))
  }

  /** Ors of conjunctions, nested to the left. */
  ghost predicate IsCondition(e: Expr) {
    IsConjunction(e) || (e.BinaryOp? && e.op == Or && IsCondition(e.left) && IsConjunction(e.right))
  }

  ghost function PrintComparison(l: Layout, e: Expr): string
    requires IsComparison(e)
  {
    PrintAtom(l, e.left) + (l.w + PrintOp(e.op) + (l.w + PrintAtom(l, e.right)))
  }

  /** Prints the tree as it stands, without parentheses. */
  ghost function Print(l: Layout, e: Expr): string
    requires IsCondition(e)
  {
    if IsComparison(e) then PrintComparison(l, e)
    else if IsConjunction(e) then Print(l, e.left) + (l.gap + l.spell("AND") + (l.gap + PrintComparison(l, e.right)))
    else Print(l, e.left) + (l.gap + l.spell("OR") + (l.gap + Print(l, e.right)))
  }

  // ---------- operators and comparisons ----------

  /** An operator is never split and never runs into what follows. */
  lemma OpReadsBack(op: BinOp, rest: string)
    requires op != And && op != Or && !("=" <= rest)
    ensures ParseOp(PrintOp(op) + rest) == Done(rest, op)
  {
    var o := PrintOp(op);
    var s := o + rest;
    assert s[|o|..] == rest && s[0] == o[0];
    if |o| == 2 {
      assert s[1] == o[1];
    } else if rest != "" {
      assert s[1] == rest[0] != '=';
    }
  }

  lemma OpDelimits(w: string, op: BinOp, more: string)
    requires AllSpace(w) && op != And && op != Or
    ensures Delimits(w + PrintOp(op) + more)
    ensures SkipSpace(w + PrintOp(op) + more) == PrintOp(op) + more
  {
    assert w + PrintOp(op) + more == w + (PrintOp(op) + more);
    SkipOver(w, PrintOp(op) + more);
    SkipNone(PrintOp(op) + more);
    if w != "" {
      assert (w + PrintOp(op) + more)[0] == w[0];
    }
  }

  lemma NotEqualsFirst(w: string, a: string, rest: string)
    requires AllSpace(w) && a != "" && !("=" <= a)
    ensures !("=" <= w + a + rest)
  {
    if w != "" {
      assert (w + a + rest)[0] == w[0];
    } else {
      assert (w + a + rest)[0] == a[0];
      assert "=" <= a <==> a[0] == '=';
    }
  }

  lemma ComparisonText(a: string, w: string, op: string, b: string, rest: string)
    ensures a + (w + op + (w + b)) + rest == "" + a + (w + op + (w + b + rest))
  {
    Assoc(a, w + op + (w + b), rest);
    Assoc(w + op, w + b, rest);
    assert "" + a == a;
  }

  lemma ComparisonReadsBack(l: Layout, e: Expr, rest: string)
    requires LayoutOk(l) && IsComparison(e) && Delimits(rest)
    ensures ParseComparison(PrintComparison(l, e) + rest) == Done(SkipSpace(rest), e)
  {
    var a, b, op := PrintAtom(l, e.left), PrintAtom(l, e.right), PrintOp(e.op);
    ComparisonText(a, l.w, op, b, rest);
    LeftReads(l, e.left, e.op, l.w + b + rest);
    OpReads(l, e.op, e.right, rest);
    SkipSpacedAtom(l, e.right, rest);
  }

  /** The left atom, up to the operator. */
  lemma LeftReads(l: Layout, e: Expr, op: BinOp, tail: string)
    requires LayoutOk(l) && IsAtom(e) && op != And && op != Or
    ensures Atom("" + PrintAtom(l, e) + (l.w + PrintOp(op) + tail)) == Done(PrintOp(op) + tail, e)
  {
    OpDelimits(l.w, op, tail);
    SpacedAtom(l, "", e, l.w + PrintOp(op) + tail);
  }

  /** The operator, up to the space before the right atom. */
  lemma OpReads(l: Layout, op: BinOp, e: Expr, rest: string)
    requires LayoutOk(l) && IsAtom(e) && op != And && op != Or && Delimits(rest)
    ensures var tail := l.w + PrintAtom(l, e) + rest;
            ParseOp(SkipSpace(PrintOp(op) + tail)) == Done(tail, op)
  {
    AtomReadsBack(l, e, rest);
    var tail := l.w + PrintAtom(l, e) + rest;
    NoSpaceBefore(PrintOp(op), tail);
    NotEqualsFirst(l.w, PrintAtom(l, e), rest);
    OpReadsBack(op, tail);
  }

  lemma SkipSpacedAtom(l: Layout, e: Expr, rest: string)
    requires LayoutOk(l) && IsAtom(e) && Delimits(rest)
    ensures Atom(SkipSpace(l.w + PrintAtom(l, e) + rest)) == Done(SkipSpace(rest), e)
  {
    SpacedAtom(l, l.w, e, rest);
    AtomSkips(l.w + PrintAtom(l, e) + rest);
  }

  lemma AtomSkips(s: string)
    ensures Atom(SkipSpace(s)) == Atom(s)
  {
    SkipTwice(s);
  }

  // ---------- conjunctions ----------

  /** The comparisons of a conjunction, from left to right. */
  ghost function Comparisons(e: Expr): (cs: seq<Expr>)
    requires IsConjunction(e)
    ensures cs != [] && forall i :: 0 <= i < |cs| ==> IsComparison(cs[i])
  {
    if IsComparison(e) then [e] else Comparisons(e.left) + [e.right]
  }

  lemma {:induction false} FoldSnoc(op: BinOp, left: Expr, rest: seq<Expr>, last: Expr)
    ensures FoldLeft(op, left, rest + [last]) == BinaryOp(op, FoldLeft(op, left, rest), last)
    decreases |rest|
  {
    if rest == [] {
      assert [] + [last] == [last];
    } else {
      assert (rest + [last])[1..] == rest[1..] + [last];
      FoldSnoc(op, BinaryOp(op, left, rest[0]), rest[1..], last);
    }
  }

  lemma {:induction false} FoldComparisons(e: Expr)
    requires IsConjunction(e)
    ensures FoldLeft(And, Comparisons(e)[0], Comparisons(e)[1..]) == e
  {
    if !IsComparison(e) {
      var cs := Comparisons(e.left);
      FoldComparisons(e.left);
      assert (cs + [e.right])[1..] == cs[1..] + [e.right];
      FoldSnoc(And, cs[0], cs[1..], e.right);
    }
  }

  /** A connective and what it connects to. */
  function Link(l: Layout, word: string, text: string): string {
    l.gap + l.spell(word) + (l.gap + text)
  }

  ghost function AndLinks(l: Layout, cs: seq<Expr>): (links: seq<string>)
    requires forall i :: 0 <= i < |cs| ==> IsComparison(cs[i])
  {
    seq(|cs|, i requires 0 <= i < |cs| => Link(l, "AND", PrintComparison(l, cs[i])))
  }

  lemma AndLinksSnoc(l: Layout, cs: seq<Expr>, last: Expr)
    requires IsComparison(last) && forall i :: 0 <= i < |cs| ==> IsComparison(cs[i])
    ensures Flatten(AndLinks(l, cs + [last])) == Flatten(AndLinks(l, cs)) + Link(l, "AND", PrintComparison(l, last))
  {
    var link := Link(l, "AND", PrintComparison(l, last));
    assert AndLinks(l, cs + [last]) == AndLinks(l, cs) + [link];
    FlattenSnoc(AndLinks(l, cs), link);
  }

  lemma AndLinksMore(l: Layout, cs: seq<Expr>, e: Expr)
    requires cs != [] && IsComparison(e) && forall i :: 0 <= i < |cs| ==> IsComparison(cs[i])
    ensures Flatten(AndLinks(l, (cs + [e])[1..])) ==
            Flatten(AndLinks(l, cs[1..])) + Link(l, "AND", PrintComparison(l, e))
  {
    assert (cs + [e])[1..] == cs[1..] + [e];
    AndLinksSnoc(l, cs[1..], e);
  }

  lemma {:induction false} PrintConjunction(l: Layout, e: Expr)
    requires IsConjunction(e)
    ensures Print(l, e) == PrintComparison(l, Comparisons(e)[0]) + Flatten(AndLinks(l, Comparisons(e)[1..]))
  {
    if IsComparison(e) {
      assert AndLinks(l, [e][1..]) == [];
    } else {
      var cs := Comparisons(e.left);
      var link, before := Link(l, "AND", PrintComparison(l, e.right)), Flatten(AndLinks(l, cs[1..]));
      PrintConjunction(l, e.left);
      AndLinksMore(l, cs, e.right);
      Assoc(PrintComparison(l, cs[0]), before, link);
    }
  }

  /** A repetition reads its links one after the other wherever each single link
      reads: `good` is what must follow a link, and holds in front of it again. */
  lemma {:induction false} ManyReads(tail: string -> (string, seq<Expr>), good: string -> bool,
                                     links: seq<string>, es: seq<Expr>, rest: string, end: string)
    requires |links| == |es| && good(rest) && tail(rest) == (end, [])
    requires forall i, more :: 0 <= i < |links| && good(more) ==>
      good(links[i] + more) && tail(links[i] + more) == (tail(more).0, [es[i]] + tail(more).1)
    ensures good(Flatten(links) + rest) && tail(Flatten(links) + rest) == (end, es)
  {
    if links == [] {
      assert Flatten(links) + rest == rest;
    } else {
      var more := Flatten(links[1..]) + rest;
      forall i, after | 0 <= i < |links[1..]| && good(after)
        ensures good(links[1..][i] + after)
        ensures tail(links[1..][i] + after) == (tail(after).0, [es[1..][i]] + tail(after).1)
      {
        assert links[1..][i] == links[i + 1] && es[1..][i] == es[i + 1];
      }
      ManyReads(tail, good, links[1..], es[1..], rest, end);
      Assoc(links[0], Flatten(links[1..]), rest);
      assert Flatten(links) + rest == links[0] + more && [es[0]] + es[1..] == es;
    }
  }

  /** Reading past a connective in any spelling, whatever the letters that follow. */
  lemma LinkReads(l: Layout, word: string, text: string, more: string)
    requires LayoutOk(l) && word != "" && IsLetter(word[0]) && text != "" && NoSpaceFirst(text)
    ensures Keyword(word, SkipSpace(Link(l, word, text) + more)) == Done(text + more, ())
    ensures Delimits(Link(l, word, text) + more)
    ensures var s := SkipSpace(Link(l, word, text) + more); s != "" && SameLetter(s[0], word[0])
  {
    var after := l.gap + (text + more);
    var s := l.spell(word) + after;
    assert Link(l, word, text) + more == l.gap + s;
    assert (l.gap + s)[0] == l.gap[0] && (text + more)[0] == text[0];
    SpelledStarts(l.spell(word), word, after);
    StartsWith(l.spell(word), word, after);
    SkipOver(l.gap, s);
    SkipNone(s);
    SkipOver(l.gap, text + more);
    SkipNone(text + more);
  }

  /** Nothing that AND could continue. */
  predicate AndStops(rest: string) {
    AndTail(SkipSpace(rest)) == (SkipSpace(rest), [])
  }

  lemma PrintedStarts(l: Layout, e: Expr)
    requires LayoutOk(l) && IsComparison(e)
    ensures PrintComparison(l, e) != "" && NoSpaceFirst(PrintComparison(l, e))
  {
    AtomReadsBack(l, e.left, "");
    assert PrintComparison(l, e)[0] == PrintAtom(l, e.left)[0];
  }

  /** What `many0` of AND reads behind a comparison. */
  function AfterAnd(s: string): (string, seq<Expr>) {
    AndTail(SkipSpace(s))
  }

  lemma AndLinkReads(l: Layout, e: Expr, more: string)
    requires LayoutOk(l) && IsComparison(e) && Delimits(more)
    ensures var s := Link(l, "AND", PrintComparison(l, e)) + more;
            Delimits(s) && AfterAnd(s) == (AfterAnd(more).0, [e] + AfterAnd(more).1)
  {
    PrintedStarts(l, e);
    LinkReads(l, "AND", PrintComparison(l, e), more);
    ComparisonReadsBack(l, e, more);
  }

  lemma AndsRead(l: Layout, cs: seq<Expr>, rest: string)
    requires LayoutOk(l) && (forall i :: 0 <= i < |cs| ==> IsComparison(cs[i])) && Delimits(rest) && AndStops(rest)
    ensures var s := Flatten(AndLinks(l, cs)) + rest; Delimits(s) && AfterAnd(s) == (SkipSpace(rest), cs)
  {
    var links := AndLinks(l, cs);
    forall i, more | 0 <= i < |links| && Delimits(more)
      ensures Delimits(links[i] + more) && AfterAnd(links[i] + more) == (AfterAnd(more).0, [cs[i]] + AfterAnd(more).1)
    {
      AndLinkReads(l, cs[i], more);
    }
    ManyReads(AfterAnd, Delimits, links, cs, rest, SkipSpace(rest));
  }

  /** A printed conjunction reads back whole. */
  lemma ConjunctionReadsBack(l: Layout, e: Expr, rest: string)
    requires LayoutOk(l) && IsConjunction(e) && Delimits(rest) && AndStops(rest)
    ensures ParseAnd(Print(l, e) + rest) == Done(SkipSpace(rest), e)
  {
    var cs := Comparisons(e);
    var first, links := PrintComparison(l, cs[0]), Flatten(AndLinks(l, cs[1..]));
    assert Print(l, e) + rest == first + (links + rest) by {
      PrintConjunction(l, e);
      Assoc(first, links, rest);
    }
    AndsRead(l, cs[1..], rest);
    assert ParseComparison(first + (links + rest)) == Done(SkipSpace(links + rest), cs[0]) by {
      ComparisonReadsBack(l, cs[0], links + rest);
    }
    FoldComparisons(e);
  }

  // ---------- disjunctions ----------

  /** The conjunctions of a condition, from left to right. */
  ghost function Conjunctions(e: Expr): (ks: seq<Expr>)
    requires IsCondition(e)
    ensures ks != [] && forall i :: 0 <= i < |ks| ==> IsConjunction(ks[i])
  {
    if IsConjunction(e) then [e] else Conjunctions(e.left) + [e.right]
  }

  lemma {:induction false} FoldConjunctions(e: Expr)
    requires IsCondition(e)
    ensures FoldLeft(Or, Conjunctions(e)[0], Conjunctions(e)[1..]) == e
  {
    if !IsConjunction(e) {
      var ks := Conjunctions(e.left);
      FoldConjunctions(e.left);
      assert (ks + [e.right])[1..] == ks[1..] + [e.right];
      FoldSnoc(Or, ks[0], ks[1..], e.right);
    }
  }

  ghost function OrLinks(l: Layout, ks: seq<Expr>): (links: seq<string>)
    requires forall i :: 0 <= i < |ks| ==> IsConjunction(ks[i])
  {
    seq(|ks|, i requires 0 <= i < |ks| => Link(l, "OR", Print(l, ks[i])))
  }

  lemma OrLinksSnoc(l: Layout, ks: seq<Expr>, last: Expr)
    requires IsConjunction(last) && forall i :: 0 <= i < |ks| ==> IsConjunction(ks[i])
    ensures Flatten(OrLinks(l, ks + [last])) == Flatten(OrLinks(l, ks)) + Link(l, "OR", Print(l, last))
  {
    var link := Link(l, "OR", Print(l, last));
    assert OrLinks(l, ks + [last]) == OrLinks(l, ks) + [link];
    FlattenSnoc(OrLinks(l, ks), link);
  }

  lemma {:induction false} PrintCondition(l: Layout, e: Expr)
    requires IsCondition(e)
    ensures Print(l, e) == Print(l, Conjunctions(e)[0]) + Flatten(OrLinks(l, Conjunctions(e)[1..]))
  {
    if IsConjunction(e) {
      assert OrLinks(l, [e][1..]) == [];
    } else {
      var ks := Conjunctions(e.left);
      var link, before := Link(l, "OR", Print(l, e.right)), Flatten(OrLinks(l, ks[1..]));
      PrintCondition(l, e.left);
      assert Flatten(OrLinks(l, Conjunctions(e)[1..])) == before + link by {
        assert (ks + [e.right])[1..] == ks[1..] + [e.right];
        OrLinksSnoc(l, ks[1..], e.right);
      }
      Assoc(Print(l, ks[0]), before, link);
    }
  }

  /** What `many0` of OR reads behind a conjunction. */
  function AfterOr(s: string): (string, seq<Expr>) {
    OrTail(SkipSpace(s))
  }

  /** What ends a conjunction. */
  predicate EndsAnd(rest: string) {
    Delimits(rest) && AndStops(rest)
  }

  /** Nothing that AND or OR could continue. */
  predicate Stops(rest: string) {
    EndsAnd(rest) && AfterOr(rest) == (SkipSpace(rest), [])
  }

  lemma OrIsNotAnd(s: string)
    requires s != "" && SameLetter(s[0], 'O')
    ensures AndTail(s) == (s, [])
  {
    SkipNone(s);
    assert !StartsNoCase("AND", s) by {
      assert Lower(s[0]) != Lower("AND"[0]);
    }
  }

  lemma ConjunctionStarts(l: Layout, e: Expr)
    requires LayoutOk(l) && IsConjunction(e)
    ensures Print(l, e) != "" && NoSpaceFirst(Print(l, e))
  {
    PrintConjunction(l, e);
    PrintedStarts(l, Comparisons(e)[0]);
  }

  /** Behind a conjunction, OR does not look like AND. */
  lemma OrLinkEndsAnd(l: Layout, e: Expr, more: string)
    requires LayoutOk(l) && IsConjunction(e)
    ensures EndsAnd(Link(l, "OR", Print(l, e)) + more)
  {
    ConjunctionStarts(l, e);
    LinkReads(l, "OR", Print(l, e), more);
    OrIsNotAnd(SkipSpace(Link(l, "OR", Print(l, e)) + more));
    SkipTwice(Link(l, "OR", Print(l, e)) + more);
  }

  lemma OrLinkReads(l: Layout, e: Expr, more: string)
    requires LayoutOk(l) && IsConjunction(e) && EndsAnd(more)
    ensures AfterOr(Link(l, "OR", Print(l, e)) + more) == (AfterOr(more).0, [e] + AfterOr(more).1)
  {
    ConjunctionStarts(l, e);
    LinkReads(l, "OR", Print(l, e), more);
    ConjunctionReadsBack(l, e, more);
  }

  lemma OrsRead(l: Layout, ks: seq<Expr>, rest: string)
    requires LayoutOk(l) && (forall i :: 0 <= i < |ks| ==> IsConjunction(ks[i])) && Stops(rest)
    ensures var s := Flatten(OrLinks(l, ks)) + rest; EndsAnd(s) && AfterOr(s) == (SkipSpace(rest), ks)
  {
    var links := OrLinks(l, ks);
    forall i, more | 0 <= i < |links| && EndsAnd(more)
      ensures EndsAnd(links[i] + more) && AfterOr(links[i] + more) == (AfterOr(more).0, [ks[i]] + AfterOr(more).1)
    {
      OrLinkEndsAnd(l, ks[i], more);
      OrLinkReads(l, ks[i], more);
    }
    ManyReads(AfterOr, EndsAnd, links, ks, rest, SkipSpace(rest));
  }

  /** Where-clause round trip: a printed condition, in any layout and followed by
      anything that does not continue it, parses to the tree it was printed from;
      AND binds tighter than OR and both nest to the left. */
  lemma ConditionReadsBack(l: Layout, e: Expr, rest: string)
    requires LayoutOk(l) && IsCondition(e) && Stops(rest)
    ensures ParseOr(Print(l, e) + rest) == Done(SkipSpace(rest), e)
  {
    var ks := Conjunctions(e);
    var first, links := Print(l, ks[0]), Flatten(OrLinks(l, ks[1..]));
    assert Print(l, e) + rest == first + (links + rest) by {
      PrintCondition(l, e);
      Assoc(first, links, rest);
    }
    OrsRead(l, ks[1..], rest);
    assert ParseAnd(first + (links + rest)) == Done(SkipSpace(links + rest), ks[0]) by {
      ConjunctionReadsBack(l, ks[0], links + rest);
    }
    FoldConjunctions(e);
  }
}
