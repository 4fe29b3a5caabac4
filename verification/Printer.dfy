/** Two printers for expression trees, and the proof that parsing undoes both, on tokens and on text. */
module Printer {
  import opened Common
  import opened Expression
  import opened Lexer
  import opened LexerRoundTrip
  import opened Parser
  import opened Grammar
  import opened GrammarSound

  // ---------------------------------------------------------------- leaves

  /** A field name read as a name with a bracketed key, if it has that shape. */
  function SplitField(field: string): FieldForm {
    var k := Span(IsIdentChar, field);
    var tail := field[k..];
    if |tail| >= 4 && tail[..2] == "[\"" && tail[|tail| - 2..] == "\"]"
    then Keyed(field[..k], tail[2..|tail| - 2])
    else Plain(field)
  }

  lemma SplitFieldText(field: string)
    ensures FieldText(SplitField(field)) == field
  {
    hide Span, IsIdentChar;
    var k := Span(IsIdentChar, field);
    var tail := field[k..];
    if |tail| >= 4 && tail[..2] == "[\"" && tail[|tail| - 2..] == "\"]" {
      Sandwich(tail, 2);
      assert field == field[..k] + tail;
    }
  }

  lemma Sandwich(s: string, n: nat)
    requires |s| >= 2 * n
    ensures s == s[..n] + (s[n..|s| - n] + s[|s| - n..])
  {
    assert s[n..] == s[n..|s| - n] + s[|s| - n..];
  }

  function LeafForm(n: Node): Condition
    requires IsLeaf(n) && !n.Literal?
  {
    match n
    case InList(f, listType, listName, negated) => InListForm(SplitField(f), negated, listType, listName)
    case InLiterals(f, values, negated) => InValuesForm(SplitField(f), negated, values)
    case Exists(f, negated) => ExistsForm(SplitField(f), negated)
    case Compare(f, op, value, _) => CompareForm(SplitField(f), op, value)
    case BoolField(f, _) => BareForm(SplitField(f))
  }

  /** Trees the concrete syntax can express: canonical, with values in the places the grammar allows. */
  predicate Expressible(boolFields: set<string>, n: Node) {
    match n
    case And(cs) => |cs| >= 2 && forall i | 0 <= i < |cs| :: Expressible(boolFields, cs[i])
    case Or(cs) => |cs| >= 2 && forall i | 0 <= i < |cs| :: Expressible(boolFields, cs[i])
    case Not(c) => Expressible(boolFields, c)
    case Compare(_, op, value, negated) => !negated && (value.BoolConst? ==> OpTok(op).Op?)
    case BoolField(f, negated) => !negated && f in boolFields
    case InLiterals(_, values, _) => forall i | 0 <= i < |values| :: !values[i].BoolConst?
    case Literal(_, negated) => !negated
    case _ => true
  }

  function LeafExpr(n: Node): NotExpr
    requires IsLeaf(n)
  {
    if n.Literal? then Truth(n.truth) else Leaf(LeafForm(n))
  }

  lemma LeafExprMeans(boolFields: set<string>, n: Node)
    requires IsLeaf(n) && Expressible(boolFields, n)
    ensures ValidNot(boolFields, LeafExpr(n)) && NotAst(LeafExpr(n)) == n
  {
    if !n.Literal? { SplitFieldText(n.field); }
  }

  // ---------------------------------------------------------------- the fully parenthesised printer

  function FullNot(n: Node): NotExpr {
    match n
    case Not(c) => Negation(FullNot(c))
    case Or(cs) => Parens(OrExpr(seq(|cs|, i requires 0 <= i < |cs| => AndExpr([FullNot(cs[i])]))))
    case And(cs) => Parens(OrExpr([AndExpr(seq(|cs|, i requires 0 <= i < |cs| => FullNot(cs[i])))]))
    case _ => LeafExpr(n)
  }

  function Full(n: Node): OrExpr {
    OrExpr([AndExpr([FullNot(n)])])
  }

  lemma {:induction false} AndAstsAt(parts: seq<AndExpr>, i: nat)
    requires i < |parts|
    ensures AndAsts(parts)[i] == AndAstOf(parts[i])
  {
    if i > 0 { AndAstsAt(parts[1..], i - 1); }
  }

  lemma {:induction false} NotAstsAt(parts: seq<NotExpr>, i: nat)
    requires i < |parts|
    ensures NotAsts(parts)[i] == NotAst(parts[i])
  {
    if i > 0 { NotAstsAt(parts[1..], i - 1); }
  }

  /** A derivation whose parts have the children as their trees has the joined tree. */
  lemma OrOf(boolFields: set<string>, parts: seq<AndExpr>, cs: seq<Node>)
    requires |parts| == |cs| >= 2
    requires forall i :: 0 <= i < |cs| ==> ValidAnd(boolFields, parts[i]) && AndAstOf(parts[i]) == cs[i]
    ensures ValidOr(boolFields, OrExpr(parts)) && OrAst(OrExpr(parts)) == Or(cs)
  {
    hide AndAstOf, AndAsts, ValidAnd;
    forall i | 0 <= i < |cs| ensures AndAsts(parts)[i] == cs[i] { AndAstsAt(parts, i); }
    assert AndAsts(parts) == cs;
  }

  lemma AndOf(boolFields: set<string>, parts: seq<NotExpr>, cs: seq<Node>)
    requires |parts| == |cs| >= 2
    requires forall i :: 0 <= i < |cs| ==> ValidNot(boolFields, parts[i]) && NotAst(parts[i]) == cs[i]
    ensures ValidAnd(boolFields, AndExpr(parts)) && AndAstOf(AndExpr(parts)) == And(cs)
  {
    hide NotAst, NotAsts, ValidNot;
    forall i | 0 <= i < |cs| ensures NotAsts(parts)[i] == cs[i] { NotAstsAt(parts, i); }
    assert NotAsts(parts) == cs;
  }

  lemma SingleAnd(boolFields: set<string>, d: NotExpr)
    requires ValidNot(boolFields, d)
    ensures ValidAnd(boolFields, AndExpr([d])) && AndAstOf(AndExpr([d])) == NotAst(d)
  {
  }

  lemma SingleOr(boolFields: set<string>, d: AndExpr)
    requires ValidAnd(boolFields, d)
    ensures ValidOr(boolFields, OrExpr([d])) && OrAst(OrExpr([d])) == AndAstOf(d)
  {
  }

  lemma ParensOf(boolFields: set<string>, d: OrExpr)
    requires ValidOr(boolFields, d)
    ensures ValidNot(boolFields, Parens(d)) && NotAst(Parens(d)) == OrAst(d)
  {
  }

  lemma {:induction false} FullNotMeans(boolFields: set<string>, n: Node)
    requires Expressible(boolFields, n)
    ensures ValidNot(boolFields, FullNot(n)) && NotAst(FullNot(n)) == n
  {
    hide ValidNot, ValidAnd, ValidOr, NotAst, AndAstOf, OrAst;
    match n
    case Not(c) =>
      FullNotMeans(boolFields, c);
      NegationOf(boolFields, FullNot(c));
    case Or(cs) =>
      var parts := seq(|cs|, i requires 0 <= i < |cs| => AndExpr([FullNot(cs[i])]));
      forall i | 0 <= i < |cs| ensures ValidAnd(boolFields, parts[i]) && AndAstOf(parts[i]) == cs[i] {
        FullNotMeans(boolFields, cs[i]);
        SingleAnd(boolFields, FullNot(cs[i]));
      }
      OrOf(boolFields, parts, cs);
      ParensOf(boolFields, OrExpr(parts));
      assert FullNot(n) == Parens(OrExpr(parts));
    case And(cs) =>
      var parts := seq(|cs|, i requires 0 <= i < |cs| => FullNot(cs[i]));
      forall i | 0 <= i < |cs| ensures ValidNot(boolFields, parts[i]) && NotAst(parts[i]) == cs[i] {
        FullNotMeans(boolFields, cs[i]);
      }
      AndOf(boolFields, parts, cs);
      SingleOr(boolFields, AndExpr(parts));
      ParensOf(boolFields, OrExpr([AndExpr(parts)]));
      assert FullNot(n) == Parens(OrExpr([AndExpr(parts)]));
    case _ => LeafExprMeans(boolFields, n);
  }

  lemma NegationOf(boolFields: set<string>, d: NotExpr)
    requires ValidNot(boolFields, d)
    ensures ValidNot(boolFields, Negation(d)) && NotAst(Negation(d)) == Not(NotAst(d))
  {
  }

  // ---------------------------------------------------------------- the minimal printer: not > and > or

  function MinOr(n: Node): OrExpr
    decreases n, if n.Or? then 0 else if n.And? then 1 else 2
  {
    match n
    case Or(cs) => OrExpr(seq(|cs|, i requires 0 <= i < |cs| => MinAnd(cs[i])))
    case _ => OrExpr([MinAnd(n)])
  }

  function MinAnd(n: Node): AndExpr
    decreases n, if n.Or? then 2 else if n.And? then 0 else 1
  {
    match n
    case And(cs) => AndExpr(seq(|cs|, i requires 0 <= i < |cs| => MinNot(cs[i])))
    case _ => AndExpr([MinNot(n)])
  }

  function MinNot(n: Node): NotExpr
    decreases n, if n.Or? then 1 else if n.And? then 2 else 0
  {
    match n
    case Not(c) => Negation(MinNot(c))
    case Or(_) => Parens(MinOr(n))
    case And(_) => Parens(MinOr(n))
    case _ => LeafExpr(n)
  }

  lemma {:induction false} MinOrMeans(boolFields: set<string>, n: Node)
    requires Expressible(boolFields, n)
    ensures ValidOr(boolFields, MinOr(n)) && OrAst(MinOr(n)) == n
    decreases n, if n.Or? then 0 else if n.And? then 1 else 2
  {
    hide ValidNot, ValidAnd, ValidOr, NotAst, AndAstOf, OrAst, MinAnd;
    match n
    case Or(cs) =>
      var parts := seq(|cs|, i requires 0 <= i < |cs| => MinAnd(cs[i]));
      forall i | 0 <= i < |cs| ensures ValidAnd(boolFields, parts[i]) && AndAstOf(parts[i]) == cs[i] {
        MinAndMeans(boolFields, cs[i]);
      }
      OrOf(boolFields, parts, cs);
      assert MinOr(n) == OrExpr(parts);
    case _ =>
      MinAndMeans(boolFields, n);
      SingleOr(boolFields, MinAnd(n));
  }

  lemma {:induction false} MinAndMeans(boolFields: set<string>, n: Node)
    requires Expressible(boolFields, n)
    ensures ValidAnd(boolFields, MinAnd(n)) && AndAstOf(MinAnd(n)) == n
    decreases n, if n.Or? then 2 else if n.And? then 0 else 1
  {
    hide ValidNot, ValidAnd, ValidOr, NotAst, AndAstOf, OrAst, MinNot;
    match n
    case And(cs) =>
      var parts := seq(|cs|, i requires 0 <= i < |cs| => MinNot(cs[i]));
      forall i | 0 <= i < |cs| ensures ValidNot(boolFields, parts[i]) && NotAst(parts[i]) == cs[i] {
        MinNotMeans(boolFields, cs[i]);
      }
      AndOf(boolFields, parts, cs);
      assert MinAnd(n) == AndExpr(parts);
    case _ =>
      MinNotMeans(boolFields, n);
      SingleAnd(boolFields, MinNot(n));
  }

  lemma {:induction false} MinNotMeans(boolFields: set<string>, n: Node)
    requires Expressible(boolFields, n)
    ensures ValidNot(boolFields, MinNot(n)) && NotAst(MinNot(n)) == n
    decreases n, if n.Or? then 1 else if n.And? then 2 else 0
  {
    hide ValidNot, ValidAnd, ValidOr, NotAst, AndAstOf, OrAst, MinOr;
    match n
    case Not(c) =>
      MinNotMeans(boolFields, c);
      NegationOf(boolFields, MinNot(c));
    case Or(_) =>
      MinOrMeans(boolFields, n);
      ParensOf(boolFields, MinOr(n));
    case And(_) =>
      MinOrMeans(boolFields, n);
      ParensOf(boolFields, MinOr(n));
    case _ => LeafExprMeans(boolFields, n);
  }

  // ---------------------------------------------------------------- round trips

  /** Parsing the tokens of either printer gives the tree back. */
  lemma ParseUndoesPrinters(boolFields: set<string>, n: Node)
    requires Expressible(boolFields, n)
    ensures Framed(OrToks(Full(n)) + [Eof]) && Parse(boolFields, OrToks(Full(n)) + [Eof]) == Parsed(n, [Eof])
    ensures Framed(OrToks(MinOr(n)) + [Eof]) && Parse(boolFields, OrToks(MinOr(n)) + [Eof]) == Parsed(n, [Eof])
  {
    hide Parse, OrToks, NotAst, ValidNot, FullNot;
    FullNotMeans(boolFields, n);
    SingleAnd(boolFields, FullNot(n));
    SingleOr(boolFields, AndExpr([FullNot(n)]));
    ParserIsComplete(boolFields, Full(n));
    MinOrMeans(boolFields, n);
    ParserIsComplete(boolFields, MinOr(n));
  }

  /** The kinds of located tokens are the tokens, followed by the end marker. */
  lemma {:induction false} LocatedKinds(ts: seq<Tok>, off: nat)
    ensures Kinds(Located(ts, off)) == ts + [Eof]
  {
    if ts != [] {
      var rest := Located(ts[1..], off + |Text(ts[0])| + 1);
      LocatedKinds(ts[1..], off + |Text(ts[0])| + 1);
      assert Located(ts, off) == [Token(ts[0], off)] + rest;
      assert Kinds(Located(ts, off)) == [ts[0]] + Kinds(rest);
      assert ts == [ts[0]] + ts[1..];
    }
  }

  /** Rendering a derivation whose tokens can be written, and parsing the text, gives the derivation's tree. */
  lemma TextRoundTrip(boolFields: set<string>, d: OrExpr)
    requires ValidOr(boolFields, d)
    requires forall i :: 0 <= i < |OrToks(d)| ==> WellFormed(OrToks(d)[i])
    ensures ExpressionOf(boolFields, Render(OrToks(d))) == Ok(OrAst(d))
  {
    hide Scan, Parse, WellFormed, OrToks, OrAst, ValidOr;
    var ts := OrToks(d);
    var text := Render(ts);
    ParserIsComplete(boolFields, d);
    TokenizeUndoesRender(ts, 0);
    LocatedKinds(ts, 0);
    DerivationIsWritten(boolFields, d);
    FirstNotSpace(ts);
  }

  lemma DerivationIsWritten(boolFields: set<string>, d: OrExpr)
    requires ValidOr(boolFields, d)
    ensures OrToks(d) != []
  {
    hide Parse, OrToks, OrAst, ValidOr;
    ParserIsComplete(boolFields, d);
    EmptyIsRejected(boolFields);
    assert OrToks(d) == [] ==> OrToks(d) + [Eof] == [Eof];
  }

  lemma EmptyIsRejected(boolFields: set<string>)
    ensures Parse(boolFields, [Eof]).Failed?
  {
    assert ParseNot(boolFields, [Eof]).Failed?;
  }

  /** The text of a token does not start with white space. */
  lemma FirstNotSpace(ts: seq<Tok>)
    requires ts != [] && WellFormed(ts[0])
    ensures Render(ts) != "" && !IsSpace(Render(ts)[0])
  {
    hide Next, WellFormed;
    var rest := " " + Render(ts[1..]);
    ReadToken(ts[0], Render(ts[1..]));
    SpaceIsSkipped(Text(ts[0]) + rest);
  }

  /** Names, keys and list references that survive the lexer. */
  predicate Writable(n: Node) {
    match n
    case And(cs) => forall i | 0 <= i < |cs| :: Writable(cs[i])
    case Or(cs) => forall i | 0 <= i < |cs| :: Writable(cs[i])
    case Not(c) => Writable(c)
    case Literal(_, _) => true
    case InList(f, listType, listName, _) => IsIdentifier(SplitField(f).name) && WellFormed(ListRef(listType, listName))
    case _ => IsIdentifier(SplitField(n.field).name)
  }

  predicate AllWellFormed(ts: seq<Tok>) {
    forall i | 0 <= i < |ts| :: WellFormed(ts[i])
  }

  lemma JoinWellFormed(a: seq<Tok>, b: seq<Tok>)
    requires AllWellFormed(a) && AllWellFormed(b)
    ensures AllWellFormed(a + b)
  {
  }

  lemma {:induction false} ValuesWellFormed(values: seq<Constant>)
    ensures AllWellFormed(MoreValues(values))
  {
    if values != [] {
      ValuesWellFormed(values[1..]);
      JoinWellFormed([ValueTok(values[0])], MoreValues(values[1..]));
      JoinWellFormed([Comma], [ValueTok(values[0])] + MoreValues(values[1..]));
    }
  }

  lemma LeafWellFormed(n: Node)
    requires IsLeaf(n) && Writable(n)
    ensures AllWellFormed(NotExprToks(LeafExpr(n)))
  {
    hide IsIdentifier, SplitField;
    if !n.Literal? {
      var c := LeafForm(n);
      CoreWellFormed(n);
      JoinWellFormed(NotToks(Negated(c)), CoreToks(c));
      JoinWellFormed(FieldToks(c.field), NotToks(Negated(c)) + CoreToks(c));
    }
  }

  lemma CoreWellFormed(n: Node)
    requires IsLeaf(n) && !n.Literal? && Writable(n)
    ensures AllWellFormed(CoreToks(LeafForm(n)))
  {
    hide IsIdentifier, SplitField;
    if n.InLiterals? && n.values != [] {
      ValuesWellFormed(n.values[1..]);
      JoinWellFormed([ValueTok(n.values[0])], MoreValues(n.values[1..]));
      JoinWellFormed([LBracket], [ValueTok(n.values[0])] + MoreValues(n.values[1..]));
      JoinWellFormed([Keyword(KwIn)], ListToks(n.values));
    } else if n.InLiterals? {
      JoinWellFormed([Keyword(KwIn)], ListToks(n.values));
    }
  }

  lemma {:induction false} MoreAndsWellFormed(parts: seq<AndExpr>)
    requires forall i :: 0 <= i < |parts| ==> AllWellFormed(AndToks(parts[i]))
    ensures AllWellFormed(MoreAnds(parts))
  {
    hide AllWellFormed, AndToks;
    if parts == [] {
      EmptyWellFormed();
    } else {
      MoreAndsWellFormed(parts[1..]);
      JoinWellFormed(AndToks(parts[0]), MoreAnds(parts[1..]));
      KeywordWellFormed(KwOr);
      JoinWellFormed([Keyword(KwOr)], AndToks(parts[0]) + MoreAnds(parts[1..]));
    }
  }

  lemma {:induction false} MoreNotsWellFormed(parts: seq<NotExpr>)
    requires forall i :: 0 <= i < |parts| ==> AllWellFormed(NotExprToks(parts[i]))
    ensures AllWellFormed(MoreNots(parts))
  {
    hide AllWellFormed, NotExprToks;
    if parts == [] {
      EmptyWellFormed();
    } else {
      MoreNotsWellFormed(parts[1..]);
      JoinWellFormed(NotExprToks(parts[0]), MoreNots(parts[1..]));
      KeywordWellFormed(KwAnd);
      JoinWellFormed([Keyword(KwAnd)], NotExprToks(parts[0]) + MoreNots(parts[1..]));
    }
  }

  lemma EmptyWellFormed()
    ensures AllWellFormed([])
  {
  }

  lemma KeywordWellFormed(w: Word)
    ensures AllWellFormed([Keyword(w)]) && AllWellFormed([LParen]) && AllWellFormed([RParen])
  {
  }

  lemma {:induction false} MinOrWellFormed(n: Node)
    requires Writable(n) && MinOr(n).parts != []
    ensures AllWellFormed(OrToks(MinOr(n)))
    decreases n, if n.Or? then 0 else if n.And? then 1 else 2, 0
  {
    hide AllWellFormed, MinAnd, AndToks;
    var parts := MinOr(n).parts;
    forall i | 0 <= i < |parts| ensures AllWellFormed(AndToks(parts[i])) {
      if n.Or? { MinAndWellFormed(n.children[i]); } else { MinAndWellFormed(n); }
    }
    MoreAndsWellFormed(parts[1..]);
    JoinWellFormed(AndToks(parts[0]), MoreAnds(parts[1..]));
  }

  lemma {:induction false} MinAndWellFormed(n: Node)
    requires Writable(n)
    ensures AllWellFormed(AndToks(MinAnd(n)))
    decreases n, if n.Or? then 2 else if n.And? then 0 else 1
  {
    hide AllWellFormed, MinNot, NotExprToks;
    var parts := MinAnd(n).parts;
    forall i | 0 <= i < |parts| ensures AllWellFormed(NotExprToks(parts[i])) {
      if n.And? { MinNotWellFormed(n.children[i]); } else { MinNotWellFormed(n); }
    }
    if parts == [] {
      EmptyWellFormed();
    } else {
      MoreNotsWellFormed(parts[1..]);
      JoinWellFormed(NotExprToks(parts[0]), MoreNots(parts[1..]));
    }
  }

  lemma {:induction false} MinNotWellFormed(n: Node)
    requires Writable(n)
    ensures AllWellFormed(NotExprToks(MinNot(n)))
    decreases n, if n.Or? then 1 else if n.And? then 2 else 0
  {
    hide AllWellFormed, MinOr, OrToks;
    KeywordWellFormed(KwNot);
    match n
    case Not(c) =>
      MinNotWellFormed(c);
      JoinWellFormed([Keyword(KwNot)], NotExprToks(MinNot(c)));
    case Or(_) => ParensWellFormed(n);
    case And(_) => ParensWellFormed(n);
    case _ => LeafWellFormed(n);
  }

  lemma {:induction false} ParensWellFormed(n: Node)
    requires Writable(n)
    ensures AllWellFormed(NotExprToks(Parens(MinOr(n))))
    decreases n, if n.Or? then 0 else if n.And? then 1 else 2, 1
  {
    hide AllWellFormed, MinAnd, AndToks;
    KeywordWellFormed(KwNot);
    if MinOr(n).parts == [] {
      EmptyWellFormed();
    } else {
      MinOrWellFormed(n);
    }
    JoinWellFormed(OrToks(MinOr(n)), [RParen]);
    JoinWellFormed([LParen], OrToks(MinOr(n)) + [RParen]);
  }

  /** The text of the minimal printer. */
  function Print(n: Node): string {
    Render(OrToks(MinOr(n)))
  }

  /** parse_expression undoes printing, on every tree that can be written in the expression language. */
  lemma ParseExpressionUndoesPrint(boolFields: set<string>, n: Node)
    requires Expressible(boolFields, n) && Writable(n)
    ensures ExpressionOf(boolFields, Print(n)) == Ok(n)
  {
    hide OrToks, MinOr, ExpressionOf, ValidOr, OrAst;
    MinOrMeans(boolFields, n);
    BodyInhabited(boolFields, MinOr(n));
    MinOrWellFormed(n);
    TextRoundTrip(boolFields, MinOr(n));
  }

  /** Hence printing is injective on such trees. */
  lemma PrintIsInjective(boolFields: set<string>, m: Node, n: Node)
    requires Expressible(boolFields, m) && Writable(m) && Expressible(boolFields, n) && Writable(n)
    requires Print(m) == Print(n)
    ensures m == n
  {
    hide Print, ExpressionOf;
    ParseExpressionUndoesPrint(boolFields, m);
    ParseExpressionUndoesPrint(boolFields, n);
  }
}
