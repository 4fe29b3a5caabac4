/** The printer that relies on `not` > `and` > `or` writes the fewest tokens. */
module ShortestPrinter {
  import opened Expression
  import opened Lexer
  import opened LexerRoundTrip
  import opened Parser
  import opened Grammar
  import opened Printer

  lemma SplitWellFormed(a: seq<Tok>, b: seq<Tok>)
    requires AllWellFormed(a + b)
    ensures AllWellFormed(a) && AllWellFormed(b)
  {
    assert forall i :: 0 <= i < |a| ==> (a + b)[i] == a[i];
    assert forall i :: 0 <= i < |b| ==> (a + b)[|a| + i] == b[i];
  }

  // ---------------------------------------------------------------- the levels of one tree

  lemma OrNoLonger(n: Node)
    ensures |OrToks(MinOr(n))| <= |AndToks(MinAnd(n))|
  {
    if n.Or? {
      assert MinAnd(n) == AndExpr([MinNot(n)]) && MinNot(n) == Parens(MinOr(n));
      OneNot(MinNot(n));
    } else {
      assert MinOr(n) == OrExpr([MinAnd(n)]);
      OneAnd(MinAnd(n));
    }
  }

  lemma AndNoLonger(n: Node)
    ensures |AndToks(MinAnd(n))| <= |NotExprToks(MinNot(n))|
  {
    if n.And? {
      assert MinNot(n) == Parens(MinOr(n)) && MinOr(n) == OrExpr([MinAnd(n)]);
      OneAnd(MinAnd(n));
    } else {
      assert MinAnd(n) == AndExpr([MinNot(n)]);
      OneNot(MinNot(n));
    }
  }

  lemma NotAtMostParens(n: Node)
    ensures |NotExprToks(MinNot(n))| <= |OrToks(MinOr(n))| + 2
  {
    if !n.Or? && !n.And? {
      assert MinOr(n) == OrExpr([MinAnd(n)]) && MinAnd(n) == AndExpr([MinNot(n)]);
      OneAnd(MinAnd(n));
      OneNot(MinNot(n));
    }
  }

  lemma OneAnd(d: AndExpr)
    ensures OrToks(OrExpr([d])) == AndToks(d)
  {
    assert MoreAnds([d][1..]) == [];
  }

  lemma OneNot(d: NotExpr)
    ensures AndToks(AndExpr([d])) == NotExprToks(d)
  {
    assert MoreNots([d][1..]) == [];
  }

  // ---------------------------------------------------------------- leaves

  lemma FieldNoLonger(f: FieldForm)
    requires AllWellFormed(FieldToks(f))
    ensures |FieldToks(SplitField(FieldText(f)))| <= |FieldToks(f)|
  {
    match f
    case Plain(name) =>
      assert WellFormed(FieldToks(f)[0]) && IsIdentifier(name);
      assert Span(IsIdentChar, name) == |name|;
    case Keyed(_, _) =>
  }

  lemma LeafNoLonger(c: Condition)
    requires AllWellFormed(ConditionToks(c))
    ensures |NotExprToks(LeafExpr(ConditionAst(c)))| <= |ConditionToks(c)|
  {
    hide SplitField, FieldText;
    SplitWellFormed(FieldToks(c.field), NotToks(Negated(c)) + CoreToks(c));
    FieldNoLonger(c.field);
  }

  // ---------------------------------------------------------------- derivations

  lemma {:induction false} OrIsShortest(boolFields: set<string>, d: OrExpr)
    requires ValidOr(boolFields, d) && AllWellFormed(OrToks(d))
    ensures |OrToks(MinOr(OrAst(d)))| <= |OrToks(d)|
    decreases d, 1
  {
    hide ValidAnd, MinAnd, AndToks, AndAstOf;
    var first, more := d.parts[0], d.parts[1..];
    SplitWellFormed(AndToks(first), MoreAnds(more));
    if |d.parts| == 1 {
      AndIsShortest(boolFields, first);
      OrNoLonger(OrAst(d));
    } else {
      var cs := AndAsts(d.parts);
      AndIsShortest(boolFields, first);
      MoreAndsAreShortest(boolFields, more);
      assert OrAst(d) == Or(cs) && cs == [AndAstOf(first)] + AndAsts(more);
      OrOfParts(cs);
    }
  }

  /** The printed parts of an or-node. */
  function Ands(cs: seq<Node>): (r: seq<AndExpr>)
    ensures |r| == |cs|
  {
    seq(|cs|, i requires 0 <= i < |cs| => MinAnd(cs[i]))
  }

  function Nots(cs: seq<Node>): (r: seq<NotExpr>)
    ensures |r| == |cs|
  {
    seq(|cs|, i requires 0 <= i < |cs| => MinNot(cs[i]))
  }

  lemma OrOfParts(cs: seq<Node>)
    requires cs != []
    ensures OrToks(MinOr(Or(cs))) == AndToks(MinAnd(cs[0])) + MoreAnds(Ands(cs[1..]))
  {
    assert MinOr(Or(cs)).parts == Ands(cs) && Ands(cs)[1..] == Ands(cs[1..]);
  }

  lemma AndOfParts(cs: seq<Node>)
    requires cs != []
    ensures AndToks(MinAnd(And(cs))) == NotExprToks(MinNot(cs[0])) + MoreNots(Nots(cs[1..]))
  {
    assert MinAnd(And(cs)).parts == Nots(cs) && Nots(cs)[1..] == Nots(cs[1..]);
  }

  lemma {:induction false} MoreAndsAreShortest(boolFields: set<string>, parts: seq<AndExpr>)
    requires (forall i :: 0 <= i < |parts| ==> ValidAnd(boolFields, parts[i])) && AllWellFormed(MoreAnds(parts))
    ensures |MoreAnds(Ands(AndAsts(parts)))| <= |MoreAnds(parts)|
    decreases parts, 1
  {
    hide ValidAnd, MinAnd, AndToks, AndAstOf;
    if parts != [] {
      var first, more := parts[0], parts[1..];
      SplitWellFormed([Keyword(KwOr)], AndToks(first) + MoreAnds(more));
      SplitWellFormed(AndToks(first), MoreAnds(more));
      AndIsShortest(boolFields, first);
      MoreAndsAreShortest(boolFields, more);
      var cs := AndAsts(parts);
      assert cs[0] == AndAstOf(first) && cs[1..] == AndAsts(more);
      assert Ands(cs)[0] == MinAnd(cs[0]) && Ands(cs)[1..] == Ands(cs[1..]);
    }
  }

  lemma {:induction false} AndIsShortest(boolFields: set<string>, d: AndExpr)
    requires ValidAnd(boolFields, d) && AllWellFormed(AndToks(d))
    ensures |AndToks(MinAnd(AndAstOf(d)))| <= |AndToks(d)|
    decreases d, 1
  {
    hide ValidNot, MinNot, NotExprToks, NotAst;
    var first, more := d.parts[0], d.parts[1..];
    SplitWellFormed(NotExprToks(first), MoreNots(more));
    if |d.parts| == 1 {
      NotIsShortest(boolFields, first);
      AndNoLonger(AndAstOf(d));
    } else {
      var cs := NotAsts(d.parts);
      NotIsShortest(boolFields, first);
      MoreNotsAreShortest(boolFields, more);
      assert AndAstOf(d) == And(cs) && cs == [NotAst(first)] + NotAsts(more);
      AndOfParts(cs);
    }
  }

  lemma {:induction false} MoreNotsAreShortest(boolFields: set<string>, parts: seq<NotExpr>)
    requires (forall i :: 0 <= i < |parts| ==> ValidNot(boolFields, parts[i])) && AllWellFormed(MoreNots(parts))
    ensures |MoreNots(Nots(NotAsts(parts)))| <= |MoreNots(parts)|
    decreases parts, 1
  {
    hide ValidNot, MinNot, NotExprToks, NotAst;
    if parts != [] {
      var first, more := parts[0], parts[1..];
      SplitWellFormed([Keyword(KwAnd)], NotExprToks(first) + MoreNots(more));
      SplitWellFormed(NotExprToks(first), MoreNots(more));
      NotIsShortest(boolFields, first);
      MoreNotsAreShortest(boolFields, more);
      var cs := NotAsts(parts);
      assert cs[0] == NotAst(first) && cs[1..] == NotAsts(more);
      assert Nots(cs)[0] == MinNot(cs[0]) && Nots(cs)[1..] == Nots(cs[1..]);
    }
  }

  lemma {:induction false} NotIsShortest(boolFields: set<string>, d: NotExpr)
    requires ValidNot(boolFields, d) && AllWellFormed(NotExprToks(d))
    ensures |NotExprToks(MinNot(NotAst(d)))| <= |NotExprToks(d)|
    decreases d, 1
  {
    hide OrToks, MinOr, OrAst, ConditionToks, LeafExpr;
    match d
    case Negation(inner) =>
      SplitWellFormed([Keyword(KwNot)], NotExprToks(inner));
      NotIsShortest(boolFields, inner);
    case Parens(body) =>
      SplitWellFormed([LParen], OrToks(body) + [RParen]);
      SplitWellFormed(OrToks(body), [RParen]);
      assert |body.parts| > 0;
      OrIsShortest(boolFields, body);
      NotAtMostParens(OrAst(body));
    case Truth(b) => TruthIsOneToken(b);
    case Leaf(c) =>
      LeafNoLonger(c);
      assert IsLeaf(ConditionAst(c));
  }

  lemma TruthIsOneToken(b: bool)
    ensures NotExprToks(MinNot(Literal(b, false))) == NotExprToks(Truth(b))
  {
  }

  /** Nothing that can be written for a tree has fewer tokens than the printer's text for it. */
  lemma MinimalParentheses(boolFields: set<string>, n: Node, d: OrExpr)
    requires ValidOr(boolFields, d) && AllWellFormed(OrToks(d)) && OrAst(d) == n
    ensures |OrToks(MinOr(n))| <= |OrToks(d)|
  {
    OrIsShortest(boolFields, d);
  }
}
