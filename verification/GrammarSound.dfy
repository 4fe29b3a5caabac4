/** Whatever the parser accepts has a derivation, so parsing succeeds exactly on the language of the grammar. */
module GrammarSound {
  import opened Common
  import opened Expression
  import opened Lexer
  import opened Parser
  import opened Grammar

  lemma Regroup<T>(a: seq<T>, b: seq<T>, c: seq<T>, d: seq<T>)
    ensures a + (b + (c + d)) == (a + (b + c)) + d && (a + b) + c == a + (b + c)
  {
  }

  lemma TailSplit(ts: seq<Tok>)
    requires Framed(ts) && ts[0] != Eof
    ensures ts == [ts[0]] + Tail(ts)
  {
  }

  lemma SoundField(ts: seq<Tok>)
    requires Framed(ts) && ParseField(ts).Parsed?
    ensures ts == FieldToks(ParseField(ts).value) + ParseField(ts).rest
  {
    hide Framed, SuffixOf;
    var t1 := Tail(ts);
    TailSplit(ts);
    if t1[0].LBracket? {
      TailSplit(t1);
      TailSplit(Tail(t1));
      TailSplit(Tail(Tail(t1)));
    }
  }

  lemma SoundValue(ts: seq<Tok>, bools: bool)
    requires Framed(ts) && ParseValue(ts, bools).Parsed?
    ensures var v := ParseValue(ts, bools).value; ts == [ValueTok(v)] + ParseValue(ts, bools).rest && (v.BoolConst? ==> bools)
  {
    TailSplit(ts);
  }

  lemma {:induction false} SoundValues(read: seq<Constant>, ts: seq<Tok>) returns (v: Constant, more: seq<Constant>)
    requires Framed(ts) && ParseValues(read, ts).Parsed?
    ensures ParseValues(read, ts).value == read + ([v] + more)
    ensures ts == [ValueTok(v)] + (MoreValues(more) + ParseValues(read, ts).rest)
    ensures !v.BoolConst? && forall i :: 0 <= i < |more| ==> !more[i].BoolConst?
    decreases |ts|
  {
    hide Framed, SuffixOf, ParseValue;
    var value, rest := ParseValue(ts, false).value, ParseValue(ts, false).rest;
    SoundValue(ts, false);
    TailSplit(rest);
    v := value;
    if rest[0].Comma? {
      var first, others := SoundValues(read + [value], Tail(rest));
      more := [first] + others;
      assert more[0] == first && more[1..] == others;
      Regroup([Comma], [ValueTok(first)], MoreValues(others), ParseValues(read, ts).rest);
      Regroup(read, [value], more, []);
    } else {
      more := [];
      assert read + ([v] + []) == read + [v];
    }
  }

  lemma SoundList(field: string, negated: bool, ts: seq<Tok>) returns (values: seq<Constant>)
    requires Framed(ts) && ts[0] == LBracket && ParseIn(field, negated, ts).Parsed?
    ensures ParseIn(field, negated, ts).value == InLiterals(field, values, negated)
    ensures ts == ListToks(values) + ParseIn(field, negated, ts).rest
    ensures forall i :: 0 <= i < |values| ==> !values[i].BoolConst?
  {
    hide Framed, SuffixOf, Advances, ParseValues, MoreValues;
    var t1 := Tail(ts);
    TailSplit(ts);
    if t1[0].RBracket? {
      TailSplit(t1);
      values := [];
    } else {
      var v, more := SoundValues([], t1);
      values := [v] + more;
      assert values[0] == v && values[1..] == more && [] + ([v] + more) == values;
      Regroup([LBracket], [ValueTok(v)], MoreValues(more), ParseIn(field, negated, ts).rest);
    }
  }

  lemma SoundComparison(field: string, op: CompareOp, bools: bool, ts: seq<Tok>) returns (v: Constant)
    requires Framed(ts) && ParseComparison(field, op, bools, ts).Parsed?
    ensures ParseComparison(field, op, bools, ts).value == Compare(field, op, v, false)
    ensures ts == [ValueTok(v)] + ParseComparison(field, op, bools, ts).rest && (v.BoolConst? ==> bools)
  {
    SoundValue(ts, bools);
    v := ParseValue(ts, bools).value;
  }

  lemma SoundInValues(f: FieldForm, negated: bool, ts: seq<Tok>) returns (c: Condition)
    requires Framed(ts) && ts[0] == LBracket && ParseIn(FieldText(f), negated, ts).Parsed?
    ensures c.InValuesForm? && forall i :: 0 <= i < |c.values| ==> !c.values[i].BoolConst?
    ensures c.field == f && c.negated == negated && ConditionAst(c) == ParseIn(FieldText(f), negated, ts).value
    ensures [Keyword(KwIn)] + ts == CoreToks(c) + ParseIn(FieldText(f), negated, ts).rest
  {
    hide Framed, SuffixOf, Advances, ParseIn, FieldText, ListToks;
    var values := SoundList(FieldText(f), negated, ts);
    c := InValuesForm(f, negated, values);
    Regroup([Keyword(KwIn)], ListToks(values), ParseIn(FieldText(f), negated, ts).rest, []);
  }

  lemma SoundIn(f: FieldForm, negated: bool, ts: seq<Tok>) returns (c: Condition)
    requires Framed(ts) && ParseIn(FieldText(f), negated, ts).Parsed?
    ensures c.InListForm? || (c.InValuesForm? && forall i :: 0 <= i < |c.values| ==> !c.values[i].BoolConst?)
    ensures c.field == f && c.negated == negated && ConditionAst(c) == ParseIn(FieldText(f), negated, ts).value
    ensures [Keyword(KwIn)] + ts == CoreToks(c) + ParseIn(FieldText(f), negated, ts).rest
  {
    hide Framed, SuffixOf, Advances, ParseValues, FieldText, ListToks;
    if ts[0].ListRef? {
      TailSplit(ts);
      c := InListForm(f, negated, ts[0].listType, ts[0].listName);
      Regroup([Keyword(KwIn)], [ts[0]], Tail(ts), []);
    } else {
      c := SoundInValues(f, negated, ts);
    }
  }

  lemma SoundOperator(boolFields: set<string>, f: FieldForm, negated: bool, ts: seq<Tok>) returns (c: Condition)
    requires Framed(ts) && (negated ==> ts[0] == Keyword(KwIn) || ts[0] == Keyword(KwExists))
    requires ParseOperator(FieldText(f), negated, boolFields, ts).Parsed?
    ensures ValidCondition(boolFields, c) && c.field == f && Negated(c) == negated
    ensures ConditionAst(c) == ParseOperator(FieldText(f), negated, boolFields, ts).value
    ensures ts == CoreToks(c) + ParseOperator(FieldText(f), negated, boolFields, ts).rest
  {
    hide Framed, SuffixOf, Advances, ParseComparison, ParseIn, FieldText, ListToks;
    var t := ts[0];
    if t == Keyword(KwIn) {
      TailSplit(ts);
      c := SoundIn(f, negated, Tail(ts));
    } else if t == Keyword(KwExists) {
      TailSplit(ts);
      c := ExistsForm(f, negated);
    } else if EndsCondition(t) {
      c := BareForm(f);
    } else {
      var op, bools := if t.Op? then t.op else WordOp(t.word).value, t.Op?;
      TailSplit(ts);
      var v := SoundComparison(FieldText(f), op, bools, Tail(ts));
      c := CompareForm(f, op, v);
      Regroup([t], [ValueTok(v)], [], ParseComparison(FieldText(f), op, bools, Tail(ts)).rest);
    }
  }

  lemma SoundCondition(boolFields: set<string>, ts: seq<Tok>) returns (c: Condition)
    requires Framed(ts) && ParseCondition(boolFields, ts).Parsed?
    ensures ValidCondition(boolFields, c) && ConditionAst(c) == ParseCondition(boolFields, ts).value
    ensures ts == ConditionToks(c) + ParseCondition(boolFields, ts).rest
  {
    hide Framed, SuffixOf, ParseField, ParseOperator, ConditionAst, CoreToks, FieldText;
    var f, rest := ParseField(ts).value, ParseField(ts).rest;
    SoundField(ts);
    if rest[0] == Keyword(KwNot) {
      var after := Tail(rest);
      TailSplit(rest);
      c := SoundOperator(boolFields, f, true, after);
    } else {
      c := SoundOperator(boolFields, f, false, rest);
    }
  }

  lemma {:induction false} AndAstsAppend(a: seq<AndExpr>, b: AndExpr)
    ensures AndAsts(a + [b]) == AndAsts(a) + [AndAstOf(b)]
  {
    if a != [] {
      AndAstsAppend(a[1..], b);
      assert (a + [b])[1..] == a[1..] + [b];
    }
  }

  lemma {:induction false} NotAstsAppend(a: seq<NotExpr>, b: NotExpr)
    ensures NotAsts(a + [b]) == NotAsts(a) + [NotAst(b)]
  {
    if a != [] {
      NotAstsAppend(a[1..], b);
      assert (a + [b])[1..] == a[1..] + [b];
    }
  }

  lemma JoinedOr(parts: seq<AndExpr>)
    requires parts != []
    ensures OrAst(OrExpr(parts)) == if |AndAsts(parts)| == 1 then AndAsts(parts)[0] else Or(AndAsts(parts))
  {
  }

  lemma JoinedAnd(parts: seq<NotExpr>)
    requires parts != []
    ensures AndAstOf(AndExpr(parts)) == if |NotAsts(parts)| == 1 then NotAsts(parts)[0] else And(NotAsts(parts))
  {
  }

  lemma MoreAndsCons(first: AndExpr, others: seq<AndExpr>)
    ensures MoreAnds([first] + others) == [Keyword(KwOr)] + (AndToks(first) + MoreAnds(others)) && MoreAnds([]) == []
  {
    assert ([first] + others)[1..] == others;
  }

  lemma MoreNotsCons(first: NotExpr, others: seq<NotExpr>)
    ensures MoreNots([first] + others) == [Keyword(KwAnd)] + (NotExprToks(first) + MoreNots(others)) && MoreNots([]) == []
  {
    assert ([first] + others)[1..] == others;
  }

  lemma {:induction false} SoundOr(boolFields: set<string>, ts: seq<Tok>) returns (d: OrExpr)
    requires Framed(ts) && ParseOr(boolFields, ts).Parsed?
    ensures ValidOr(boolFields, d) && OrAst(d) == ParseOr(boolFields, ts).value
    ensures ts == OrToks(d) + ParseOr(boolFields, ts).rest
    decreases |ts|, 4
  {
    hide Framed, SuffixOf, ParseAnd, ParseOrs, ValidAnd, AndToks, AndAstOf;
    var first := SoundAnd(boolFields, ts);
    var rest := ParseAnd(boolFields, ts).rest;
    assert AndAsts([first]) == [AndAstOf(first)];
    var more := SoundOrs(boolFields, [first], rest);
    d := OrExpr([first] + more);
    assert d.parts[0] == first && d.parts[1..] == more;
  }

  /** The loop over `or` after the parts `read`. */
  lemma {:induction false} SoundOrs(boolFields: set<string>, read: seq<AndExpr>, ts: seq<Tok>) returns (more: seq<AndExpr>)
    requires Framed(ts) && read != [] && ParseOrs(boolFields, AndAsts(read), ts).Parsed?
    ensures forall i :: 0 <= i < |more| ==> ValidAnd(boolFields, more[i])
    ensures ts == MoreAnds(more) + ParseOrs(boolFields, AndAsts(read), ts).rest
    ensures OrAst(OrExpr(read + more)) == ParseOrs(boolFields, AndAsts(read), ts).value
    decreases |ts|, 5
  {
    hide Framed, SuffixOf, ParseAnd, ValidAnd, AndToks, MoreAnds, AndAstOf, AndAsts, OrAst;
    if ts[0] != Keyword(KwOr) {
      JoinedOr(read);
      MoreAndsCons(read[0], []);
      more := [];
      assert read + more == read;
    } else {
      TailSplit(ts);
      var next := SoundAnd(boolFields, Tail(ts));
      var rest := ParseAnd(boolFields, Tail(ts)).rest;
      AndAstsAppend(read, next);
      var others := SoundOrs(boolFields, read + [next], rest);
      more := [next] + others;
      MoreAndsCons(next, others);
      Regroup([Keyword(KwOr)], AndToks(next), MoreAnds(others), ParseOrs(boolFields, AndAsts(read + [next]), rest).rest);
      Regroup(read, [next], others, []);
    }
  }

  lemma {:induction false} SoundAnd(boolFields: set<string>, ts: seq<Tok>) returns (d: AndExpr)
    requires Framed(ts) && ParseAnd(boolFields, ts).Parsed?
    ensures ValidAnd(boolFields, d) && AndAstOf(d) == ParseAnd(boolFields, ts).value
    ensures ts == AndToks(d) + ParseAnd(boolFields, ts).rest
    decreases |ts|, 2
  {
    hide Framed, SuffixOf, ParseNot, ParseAnds, ValidNot, NotExprToks, NotAst;
    var first := SoundNot(boolFields, ts);
    var rest := ParseNot(boolFields, ts).rest;
    assert NotAsts([first]) == [NotAst(first)];
    var more := SoundAnds(boolFields, [first], rest);
    d := AndExpr([first] + more);
    assert d.parts[0] == first && d.parts[1..] == more;
  }

  /** The loop over `and` after the parts `read`. */
  lemma {:induction false} SoundAnds(boolFields: set<string>, read: seq<NotExpr>, ts: seq<Tok>) returns (more: seq<NotExpr>)
    requires Framed(ts) && read != [] && ParseAnds(boolFields, NotAsts(read), ts).Parsed?
    ensures forall i :: 0 <= i < |more| ==> ValidNot(boolFields, more[i])
    ensures ts == MoreNots(more) + ParseAnds(boolFields, NotAsts(read), ts).rest
    ensures AndAstOf(AndExpr(read + more)) == ParseAnds(boolFields, NotAsts(read), ts).value
    decreases |ts|, 3
  {
    hide Framed, SuffixOf, ParseNot, ValidNot, NotExprToks, MoreNots, NotAst, NotAsts, AndAstOf;
    if ts[0] != Keyword(KwAnd) {
      JoinedAnd(read);
      MoreNotsCons(read[0], []);
      more := [];
      assert read + more == read;
    } else {
      TailSplit(ts);
      var next := SoundNot(boolFields, Tail(ts));
      var rest := ParseNot(boolFields, Tail(ts)).rest;
      NotAstsAppend(read, next);
      var others := SoundAnds(boolFields, read + [next], rest);
      more := [next] + others;
      MoreNotsCons(next, others);
      Regroup([Keyword(KwAnd)], NotExprToks(next), MoreNots(others), ParseAnds(boolFields, NotAsts(read + [next]), rest).rest);
      Regroup(read, [next], others, []);
    }
  }

  lemma {:induction false} SoundNot(boolFields: set<string>, ts: seq<Tok>) returns (d: NotExpr)
    requires Framed(ts) && ParseNot(boolFields, ts).Parsed?
    ensures ValidNot(boolFields, d) && NotAst(d) == ParseNot(boolFields, ts).value
    ensures ts == NotExprToks(d) + ParseNot(boolFields, ts).rest
    decreases |ts|, 1
  {
    hide Framed, SuffixOf, ParsePrimary;
    if ts[0] == Keyword(KwNot) {
      TailSplit(ts);
      var inner := SoundNot(boolFields, Tail(ts));
      d := Negation(inner);
    } else {
      d := SoundPrimary(boolFields, ts);
    }
  }

  lemma {:induction false} SoundPrimary(boolFields: set<string>, ts: seq<Tok>) returns (d: NotExpr)
    requires Framed(ts) && ParsePrimary(boolFields, ts).Parsed?
    ensures ValidNot(boolFields, d) && NotAst(d) == ParsePrimary(boolFields, ts).value
    ensures ts == NotExprToks(d) + ParsePrimary(boolFields, ts).rest
    decreases |ts|, 0
  {
    hide Framed, SuffixOf, ParseOr, ParseCondition, ValidOr, ValidCondition, OrToks, OrAst, ConditionToks, ConditionAst;
    if ts[0].LParen? {
      TailSplit(ts);
      var body := SoundOr(boolFields, Tail(ts));
      TailSplit(ParseOr(boolFields, Tail(ts)).rest);
      BodyInhabited(boolFields, body);
      d := Parens(body);
    } else if ts[0] == Keyword(KwTrue) || ts[0] == Keyword(KwFalse) {
      TailSplit(ts);
      d := Truth(ts[0] == Keyword(KwTrue));
    } else {
      var c := SoundCondition(boolFields, ts);
      d := Leaf(c);
    }
  }

  lemma BodyInhabited(boolFields: set<string>, d: OrExpr)
    requires ValidOr(boolFields, d)
    ensures |d.parts| > 0
  {
  }

  /** The derivations whose tokens are `ts`. */
  ghost predicate Derives(boolFields: set<string>, d: OrExpr, ts: seq<Tok>, n: Node) {
    ValidOr(boolFields, d) && OrToks(d) + [Eof] == ts && OrAst(d) == n
  }

  /** Parsing yields a tree exactly when the grammar derives the tokens with that tree. */
  lemma ParserMatchesGrammar(boolFields: set<string>, ts: seq<Tok>, n: Node)
    requires Framed(ts)
    ensures Parse(boolFields, ts) == Parsed(n, [Eof]) <==> exists d :: Derives(boolFields, d, ts, n)
  {
    if Parse(boolFields, ts) == Parsed(n, [Eof]) {
      var d := SoundOr(boolFields, ts);
      assert Derives(boolFields, d, ts, n);
    }
    forall d | Derives(boolFields, d, ts, n) ensures Parse(boolFields, ts) == Parsed(n, [Eof]) {
      ParserIsComplete(boolFields, d);
    }
  }

  /** Every and/or node has two or more children, and a bare field, a comparison or a constant is never negated in place. */
  predicate Canonical(n: Node) {
    match n
    case And(cs) => |cs| >= 2 && forall i | 0 <= i < |cs| :: Canonical(cs[i])
    case Or(cs) => |cs| >= 2 && forall i | 0 <= i < |cs| :: Canonical(cs[i])
    case Not(c) => Canonical(c)
    case Compare(_, _, _, negated) => !negated
    case BoolField(_, negated) => !negated
    case Literal(_, negated) => !negated
    case _ => true
  }

  lemma {:induction false} OrAstCanonical(boolFields: set<string>, d: OrExpr)
    requires ValidOr(boolFields, d)
    ensures Canonical(OrAst(d))
    decreases d, 1
  {
    AndAstsCanonical(boolFields, d.parts);
    assert AndAsts(d.parts)[0] == AndAstOf(d.parts[0]);
  }

  lemma {:induction false} AndAstsCanonical(boolFields: set<string>, parts: seq<AndExpr>)
    requires forall i :: 0 <= i < |parts| ==> ValidAnd(boolFields, parts[i])
    ensures forall i :: 0 <= i < |parts| ==> Canonical(AndAsts(parts)[i])
    decreases parts, 0
  {
    if parts != [] {
      NotAstsCanonical(boolFields, parts[0].parts);
      assert NotAsts(parts[0].parts)[0] == NotAst(parts[0].parts[0]);
      AndAstsCanonical(boolFields, parts[1..]);
    }
  }

  lemma {:induction false} NotAstsCanonical(boolFields: set<string>, parts: seq<NotExpr>)
    requires forall i :: 0 <= i < |parts| ==> ValidNot(boolFields, parts[i])
    ensures forall i :: 0 <= i < |parts| ==> Canonical(NotAsts(parts)[i])
    decreases parts, 0
  {
    if parts != [] {
      NotAstCanonical(boolFields, parts[0]);
      NotAstsCanonical(boolFields, parts[1..]);
    }
  }

  lemma {:induction false} NotAstCanonical(boolFields: set<string>, d: NotExpr)
    requires ValidNot(boolFields, d)
    ensures Canonical(NotAst(d))
    decreases d, 1
  {
    match d
    case Negation(inner) => NotAstCanonical(boolFields, inner);
    case Parens(body) => OrAstCanonical(boolFields, body);
    case _ =>
  }

  /** Trees that come out of the parser are canonical. */
  lemma ParsedIsCanonical(boolFields: set<string>, ts: seq<Tok>)
    requires Framed(ts) && Parse(boolFields, ts).Parsed?
    ensures Canonical(Parse(boolFields, ts).value)
  {
    var d := SoundOr(boolFields, ts);
    OrAstCanonical(boolFields, d);
  }
}
