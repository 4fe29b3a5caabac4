/** The grammar of the expression language as derivation trees, and the parser's agreement with it. */
module Grammar {
  import opened Common
  import opened Expression
  import opened Lexer
  import opened Parser

  // ---------------------------------------------------------------- derivations

  /** A condition as written: its field and its tail. */
  datatype Condition =
    | InListForm(field: FieldForm, negated: bool, listType: string, listName: string)
    | InValuesForm(field: FieldForm, negated: bool, values: seq<Constant>)
    | ExistsForm(field: FieldForm, negated: bool)
    | CompareForm(field: FieldForm, op: CompareOp, value: Constant)
    | BareForm(field: FieldForm)

  datatype OrExpr = OrExpr(parts: seq<AndExpr>)

  datatype AndExpr = AndExpr(parts: seq<NotExpr>)

  datatype NotExpr = Negation(inner: NotExpr) | Parens(body: OrExpr) | Truth(b: bool) | Leaf(condition: Condition)

  predicate ValidCondition(boolFields: set<string>, c: Condition) {
    match c
    case InValuesForm(_, _, values) => forall i | 0 <= i < |values| :: !values[i].BoolConst?
    case CompareForm(_, op, value) => value.BoolConst? ==> OpTok(op).Op?
    case BareForm(f) => FieldText(f) in boolFields
    case _ => true
  }

  predicate ValidOr(boolFields: set<string>, d: OrExpr) {
    |d.parts| > 0 && forall i | 0 <= i < |d.parts| :: ValidAnd(boolFields, d.parts[i])
  }

  predicate ValidAnd(boolFields: set<string>, d: AndExpr) {
    |d.parts| > 0 && forall i | 0 <= i < |d.parts| :: ValidNot(boolFields, d.parts[i])
  }

  predicate ValidNot(boolFields: set<string>, d: NotExpr) {
    match d
    case Negation(inner) => ValidNot(boolFields, inner)
    case Parens(body) => ValidOr(boolFields, body)
    case Truth(_) => true
    case Leaf(c) => ValidCondition(boolFields, c)
  }

  // ---------------------------------------------------------------- the tokens of a derivation

  function FieldToks(f: FieldForm): seq<Tok> {
    match f
    case Plain(name) => [Ident(name)]
    case Keyed(name, key) => [Ident(name), LBracket, Str(key), RBracket]
  }

  function NotToks(negated: bool): seq<Tok> {
    if negated then [Keyword(KwNot)] else []
  }

  function ValueTok(v: Constant): Tok {
    match v
    case BoolConst(b) => Keyword(if b then KwTrue else KwFalse)
    case IntConst(i) => Number(i)
    case StrConst(s) => Str(s)
  }

  /** The values after the first one, each behind a comma, and the closing bracket. */
  function MoreValues(values: seq<Constant>): seq<Tok> {
    if values == [] then [RBracket] else [Comma] + ([ValueTok(values[0])] + MoreValues(values[1..]))
  }

  function ListToks(values: seq<Constant>): seq<Tok> {
    if values == [] then [LBracket, RBracket] else [LBracket] + ([ValueTok(values[0])] + MoreValues(values[1..]))
  }

  function OpTok(op: CompareOp): Tok {
    match op
    case Contains => Keyword(KwContains)
    case StartsWith => Keyword(KwStartsWith)
    case EndsWith => Keyword(KwEndsWith)
    case _ => Op(op)
  }

  predicate Negated(c: Condition) {
    !c.CompareForm? && !c.BareForm? && c.negated
  }

  /** What follows the field and an optional `not`. */
  function CoreToks(c: Condition): seq<Tok> {
    match c
    case InListForm(_, _, listType, listName) => [Keyword(KwIn), ListRef(listType, listName)]
    case InValuesForm(_, _, values) => [Keyword(KwIn)] + ListToks(values)
    case ExistsForm(_, _) => [Keyword(KwExists)]
    case CompareForm(_, op, value) => [OpTok(op), ValueTok(value)]
    case BareForm(_) => []
  }

  function ConditionToks(c: Condition): seq<Tok> {
    FieldToks(c.field) + (NotToks(Negated(c)) + CoreToks(c))
  }

  function OrToks(d: OrExpr): seq<Tok>
    decreases d, 0
  {
    if d.parts == [] then [] else AndToks(d.parts[0]) + MoreAnds(d.parts[1..])
  }

  function MoreAnds(parts: seq<AndExpr>): seq<Tok>
    decreases parts, 0
  {
    if parts == [] then [] else [Keyword(KwOr)] + (AndToks(parts[0]) + MoreAnds(parts[1..]))
  }

  function AndToks(d: AndExpr): seq<Tok>
    decreases d, 0
  {
    if d.parts == [] then [] else NotExprToks(d.parts[0]) + MoreNots(d.parts[1..])
  }

  function MoreNots(parts: seq<NotExpr>): seq<Tok>
    decreases parts, 0
  {
    if parts == [] then [] else [Keyword(KwAnd)] + (NotExprToks(parts[0]) + MoreNots(parts[1..]))
  }

  function NotExprToks(d: NotExpr): seq<Tok>
    decreases d, 0
  {
    match d
    case Negation(inner) => [Keyword(KwNot)] + NotExprToks(inner)
    case Parens(body) => [LParen] + (OrToks(body) + [RParen])
    case Truth(b) => [Keyword(if b then KwTrue else KwFalse)]
    case Leaf(c) => ConditionToks(c)
  }

  // ---------------------------------------------------------------- the tree of a derivation

  function ConditionAst(c: Condition): Node {
    match c
    case InListForm(f, negated, listType, listName) => InList(FieldText(f), listType, listName, negated)
    case InValuesForm(f, negated, values) => InLiterals(FieldText(f), values, negated)
    case ExistsForm(f, negated) => Exists(FieldText(f), negated)
    case CompareForm(f, op, value) => Compare(FieldText(f), op, value, false)
    case BareForm(f) => BoolField(FieldText(f), false)
  }

  /** A single part stands for itself; only two or more make an or-node. */
  function OrAst(d: OrExpr): Node
    requires |d.parts| > 0
    decreases d, 1
  {
    if |d.parts| == 1 then AndAstOf(d.parts[0]) else Or(AndAsts(d.parts))
  }

  function AndAsts(parts: seq<AndExpr>): (r: seq<Node>)
    ensures |r| == |parts|
    decreases parts, 0
  {
    if parts == [] then [] else [AndAstOf(parts[0])] + AndAsts(parts[1..])
  }

  function AndAstOf(d: AndExpr): Node
    decreases d, 1
  {
    if |d.parts| == 1 then NotAst(d.parts[0]) else And(NotAsts(d.parts))
  }

  function NotAsts(parts: seq<NotExpr>): (r: seq<Node>)
    ensures |r| == |parts|
    decreases parts, 0
  {
    if parts == [] then [] else [NotAst(parts[0])] + NotAsts(parts[1..])
  }

  function NotAst(d: NotExpr): Node
    decreases d, 1
  {
    match d
    case Negation(inner) => Not(NotAst(inner))
    case Parens(body) => if |body.parts| > 0 then OrAst(body) else Or([])
    case Truth(b) => Literal(b, false)
    case Leaf(c) => ConditionAst(c)
  }

  // ---------------------------------------------------------------- the parser accepts every derivation

  /** Tokens left after a phrase, the first of which may not continue it. */
  predicate Follows(rest: seq<Tok>, ands: bool, ors: bool) {
    Framed(rest) && EndsCondition(rest[0]) && (rest[0] == Keyword(KwAnd) ==> ands) && (rest[0] == Keyword(KwOr) ==> ors)
  }

  lemma FramedAppend(a: seq<Tok>, rest: seq<Tok>)
    requires Framed(rest) && Eof !in a
    ensures Framed(a + rest)
  {
    var all := a + rest;
    assert forall i :: 0 <= i < |a| ==> all[i] == a[i];
    assert forall i :: |a| <= i < |all| ==> all[i] == rest[i - |a|];
  }

  lemma {:induction false} MoreValuesPlain(values: seq<Constant>)
    ensures Eof !in MoreValues(values) && MoreValues(values) != []
  {
    if values != [] { MoreValuesPlain(values[1..]); }
  }

  lemma FieldPlain(f: FieldForm)
    ensures Eof !in FieldToks(f)
    ensures forall op :: OpTok(op) != Eof
    ensures forall v :: ValueTok(v) != Eof
  {
  }

  lemma ConditionPlain(c: Condition)
    ensures Eof !in ConditionToks(c) && Eof !in CoreToks(c)
  {
    hide FieldToks, OpTok, ValueTok, MoreValues;
    FieldPlain(c.field);
    if c.InValuesForm? && c.values != [] { MoreValuesPlain(c.values[1..]); }
  }

  lemma {:induction false} OrPlain(d: OrExpr)
    ensures Eof !in OrToks(d)
    decreases d, 0
  {
    if d.parts != [] { AndPlain(d.parts[0]); MoreAndsPlain(d.parts[1..]); }
  }

  lemma {:induction false} MoreAndsPlain(parts: seq<AndExpr>)
    ensures Eof !in MoreAnds(parts)
    decreases parts, 0
  {
    if parts != [] { AndPlain(parts[0]); MoreAndsPlain(parts[1..]); }
  }

  lemma {:induction false} AndPlain(d: AndExpr)
    ensures Eof !in AndToks(d)
    decreases d, 0
  {
    if d.parts != [] { NotPlain(d.parts[0]); MoreNotsPlain(d.parts[1..]); }
  }

  lemma {:induction false} MoreNotsPlain(parts: seq<NotExpr>)
    ensures Eof !in MoreNots(parts)
    decreases parts, 0
  {
    if parts != [] { NotPlain(parts[0]); MoreNotsPlain(parts[1..]); }
  }

  lemma {:induction false} NotPlain(d: NotExpr)
    ensures Eof !in NotExprToks(d)
    decreases d, 0
  {
    match d
    case Negation(inner) => NotPlain(inner);
    case Parens(body) => OrPlain(body);
    case Truth(_) =>
    case Leaf(c) => ConditionPlain(c);
  }

  lemma AcceptsField(f: FieldForm, rest: seq<Tok>)
    requires Framed(rest) && rest[0] != LBracket
    ensures Framed(FieldToks(f) + rest)
    ensures ParseField(FieldToks(f) + rest) == Parsed(f, rest)
  {
    FramedAppend(FieldToks(f), rest);
    var all := FieldToks(f) + rest;
    match f
    case Plain(name) => assert all[1..] == rest;
    case Keyed(name, key) =>
      assert all[1..] == [LBracket, Str(key), RBracket] + rest;
      assert all[1..][1..] == [Str(key), RBracket] + rest;
      assert all[1..][1..][1..] == [RBracket] + rest;
      assert all[1..][1..][1..][1..] == rest;
  }

  lemma AcceptsValue(v: Constant, rest: seq<Tok>, bools: bool)
    requires Framed(rest) && (v.BoolConst? ==> bools)
    ensures Framed([ValueTok(v)] + rest) && ParseValue([ValueTok(v)] + rest, bools) == Parsed(v, rest)
  {
    FramedAppend([ValueTok(v)], rest);
    assert ([ValueTok(v)] + rest)[1..] == rest;
  }

  /** The loop over list values, entered at a value. */
  lemma {:induction false} AcceptsValues(read: seq<Constant>, v: Constant, more: seq<Constant>, rest: seq<Tok>)
    requires Framed(rest) && !v.BoolConst? && forall i :: 0 <= i < |more| ==> !more[i].BoolConst?
    ensures var ts := [ValueTok(v)] + (MoreValues(more) + rest);
            Framed(ts) && ParseValues(read, ts) == Parsed(read + ([v] + more), rest)
    decreases |more|
  {
    hide Framed, SuffixOf, Advances, ParseValue;
    MoreValuesPlain(more);
    var after := MoreValues(more) + rest;
    FramedAppend(MoreValues(more), rest);
    AcceptsValue(v, after, false);
    if more == [] {
      assert after == [RBracket] + rest && after[1..] == rest;
      assert read + ([v] + more) == read + [v];
    } else {
      var inner := [ValueTok(more[0])] + (MoreValues(more[1..]) + rest);
      assert after == [Comma] + inner && after[1..] == inner;
      AcceptsValues(read + [v], more[0], more[1..], rest);
      assert read + ([v] + more) == (read + [v]) + ([more[0]] + more[1..]);
    }
  }

  lemma AcceptsList(field: string, negated: bool, values: seq<Constant>, rest: seq<Tok>)
    requires Framed(rest) && forall i :: 0 <= i < |values| ==> !values[i].BoolConst?
    ensures Framed(ListToks(values) + rest)
    ensures ParseIn(field, negated, ListToks(values) + rest) == Parsed(InLiterals(field, values, negated), rest)
  {
    hide Framed, SuffixOf, Advances, ParseValues, MoreValues;
    var all := ListToks(values) + rest;
    if values == [] {
      FramedAppend(ListToks(values), rest);
      assert all[1..] == [RBracket] + rest && all[1..][1..] == rest;
    } else {
      AcceptsValues([], values[0], values[1..], rest);
      var inner := [ValueTok(values[0])] + (MoreValues(values[1..]) + rest);
      assert all == [LBracket] + inner && all[1..] == inner;
      FramedAppend([LBracket], inner);
      assert [] + ([values[0]] + values[1..]) == values;
    }
  }

  lemma AcceptsComparison(boolFields: set<string>, f: FieldForm, op: CompareOp, v: Constant, rest: seq<Tok>)
    requires ValidCondition(boolFields, CompareForm(f, op, v)) && Framed(rest)
    ensures var ts := [OpTok(op), ValueTok(v)] + rest;
            Framed(ts) && ParseOperator(FieldText(f), false, boolFields, ts) == Parsed(Compare(FieldText(f), op, v, false), rest)
  {
    hide Framed, SuffixOf, Advances, ParseValue, ParseIn, FieldText;
    var ts := [OpTok(op), ValueTok(v)] + rest;
    AcceptsValue(v, rest, OpTok(op).Op?);
    FramedAppend([OpTok(op), ValueTok(v)], rest);
    assert ts[1..] == [ValueTok(v)] + rest;
  }

  lemma CoreStart(c: Condition, rest: seq<Tok>)
    requires Follows(rest, true, true)
    ensures var ts := CoreToks(c) + rest;
            Framed(ts) && ts[0] != LBracket && ts[0] != Keyword(KwNot)
            && (Negated(c) ==> ts[0] == Keyword(KwIn) || ts[0] == Keyword(KwExists))
  {
    ConditionPlain(c);
    FramedAppend(CoreToks(c), rest);
    if c.BareForm? { assert CoreToks(c) + rest == rest; }
  }

  /** What comes after an optional `not`. */
  lemma AcceptsOperator(boolFields: set<string>, c: Condition, rest: seq<Tok>)
    requires ValidCondition(boolFields, c) && Follows(rest, true, true)
    ensures Framed(CoreToks(c) + rest)
    ensures ParseOperator(FieldText(c.field), Negated(c), boolFields, CoreToks(c) + rest) == Parsed(ConditionAst(c), rest)
  {
    hide Framed, SuffixOf, Advances, ParseValue, ParseValues, ParseComparison, ListToks, FieldText;
    var ts := CoreToks(c) + rest;
    CoreStart(c, rest);
    match c
    case InListForm(_, _, listType, listName) =>
      assert ts[1..] == [ListRef(listType, listName)] + rest && ts[1..][1..] == rest;
    case InValuesForm(f, negated, values) =>
      AcceptsList(FieldText(f), negated, values, rest);
      assert ts[1..] == ListToks(values) + rest;
    case ExistsForm(_, _) =>
      assert ts[1..] == rest;
    case CompareForm(f, op, value) =>
      AcceptsComparison(boolFields, f, op, value, rest);
    case BareForm(_) =>
      assert ts == rest;
  }

  lemma AcceptsCondition(boolFields: set<string>, c: Condition, rest: seq<Tok>)
    requires ValidCondition(boolFields, c) && Follows(rest, true, true)
    ensures Framed(ConditionToks(c) + rest)
    ensures ParseCondition(boolFields, ConditionToks(c) + rest) == Parsed(ConditionAst(c), rest)
  {
    hide Framed, SuffixOf, Advances, ParseOperator, ParseField, ConditionAst, FieldText, CoreToks, ValidCondition, EndsCondition;
    var core := CoreToks(c) + rest;
    CoreStart(c, rest);
    AcceptsOperator(boolFields, c, rest);
    var tail := NotToks(Negated(c)) + core;
    FramedAppend(NotToks(Negated(c)), core);
    assert ConditionToks(c) + rest == FieldToks(c.field) + tail;
    AcceptsField(c.field, tail);
    if Negated(c) {
      assert tail[1..] == core;
    } else {
      assert tail == core;
    }
  }

  lemma {:induction false} AcceptsOr(boolFields: set<string>, d: OrExpr, rest: seq<Tok>)
    requires ValidOr(boolFields, d) && Follows(rest, false, false)
    ensures Framed(OrToks(d) + rest) && ParseOr(boolFields, OrToks(d) + rest) == Parsed(OrAst(d), rest)
    decreases d, 2
  {
    hide Framed, SuffixOf, Advances, ValidAnd, ParseAnd, EndsCondition, AndAstOf, AndToks;
    var more := MoreAnds(d.parts[1..]) + rest;
    MoreAndsFollow(d.parts[1..], rest);
    AcceptsAnd(boolFields, d.parts[0], more);
    assert OrToks(d) + rest == AndToks(d.parts[0]) + more;
    AcceptsOrs(boolFields, [AndAstOf(d.parts[0])], d.parts[1..], rest);
    assert [AndAstOf(d.parts[0])] + AndAsts(d.parts[1..]) == AndAsts(d.parts);
  }

  lemma MoreAndsFollow(parts: seq<AndExpr>, rest: seq<Tok>)
    requires Follows(rest, false, false)
    ensures Follows(MoreAnds(parts) + rest, false, true)
  {
    MoreAndsPlain(parts);
    FramedAppend(MoreAnds(parts), rest);
  }

  lemma {:induction false} AcceptsOrs(boolFields: set<string>, read: seq<Node>, parts: seq<AndExpr>, rest: seq<Tok>)
    requires read != [] && Follows(rest, false, false)
    requires forall i :: 0 <= i < |parts| ==> ValidAnd(boolFields, parts[i])
    ensures var all := read + AndAsts(parts);
            Framed(MoreAnds(parts) + rest)
            && ParseOrs(boolFields, read, MoreAnds(parts) + rest) == Parsed(if |all| == 1 then all[0] else Or(all), rest)
    decreases parts, 2
  {
    hide Framed, SuffixOf, Advances, ValidAnd, ParseAnd, EndsCondition, AndAstOf, AndToks;
    MoreAndsFollow(parts, rest);
    var ts := MoreAnds(parts) + rest;
    if parts == [] {
      assert ts == rest && read + AndAsts(parts) == read;
    } else {
      var more := MoreAnds(parts[1..]) + rest;
      MoreAndsFollow(parts[1..], rest);
      AcceptsAnd(boolFields, parts[0], more);
      assert ts == [Keyword(KwOr)] + (AndToks(parts[0]) + more) && ts[1..] == AndToks(parts[0]) + more;
      AcceptsOrs(boolFields, read + [AndAstOf(parts[0])], parts[1..], rest);
      assert (read + [AndAstOf(parts[0])]) + AndAsts(parts[1..]) == read + AndAsts(parts);
    }
  }

  lemma {:induction false} AcceptsAnd(boolFields: set<string>, d: AndExpr, rest: seq<Tok>)
    requires ValidAnd(boolFields, d) && Follows(rest, false, true)
    ensures Framed(AndToks(d) + rest) && ParseAnd(boolFields, AndToks(d) + rest) == Parsed(AndAstOf(d), rest)
    decreases d, 2
  {
    hide Framed, SuffixOf, Advances, ValidNot, ParseNot, EndsCondition, NotAst, NotExprToks;
    var more := MoreNots(d.parts[1..]) + rest;
    MoreNotsFollow(d.parts[1..], rest);
    AcceptsNot(boolFields, d.parts[0], more);
    assert AndToks(d) + rest == NotExprToks(d.parts[0]) + more;
    AcceptsAnds(boolFields, [NotAst(d.parts[0])], d.parts[1..], rest);
    assert [NotAst(d.parts[0])] + NotAsts(d.parts[1..]) == NotAsts(d.parts);
  }

  lemma MoreNotsFollow(parts: seq<NotExpr>, rest: seq<Tok>)
    requires Follows(rest, false, true)
    ensures Follows(MoreNots(parts) + rest, true, true)
  {
    MoreNotsPlain(parts);
    FramedAppend(MoreNots(parts), rest);
  }

  lemma {:induction false} AcceptsAnds(boolFields: set<string>, read: seq<Node>, parts: seq<NotExpr>, rest: seq<Tok>)
    requires read != [] && Follows(rest, false, true)
    requires forall i :: 0 <= i < |parts| ==> ValidNot(boolFields, parts[i])
    ensures var all := read + NotAsts(parts);
            Framed(MoreNots(parts) + rest)
            && ParseAnds(boolFields, read, MoreNots(parts) + rest) == Parsed(if |all| == 1 then all[0] else And(all), rest)
    decreases parts, 2
  {
    hide Framed, SuffixOf, Advances, ValidNot, ParseNot, EndsCondition, NotAst, NotExprToks;
    MoreNotsFollow(parts, rest);
    var ts := MoreNots(parts) + rest;
    if parts == [] {
      assert ts == rest && read + NotAsts(parts) == read;
    } else {
      var more := MoreNots(parts[1..]) + rest;
      MoreNotsFollow(parts[1..], rest);
      AcceptsNot(boolFields, parts[0], more);
      assert ts == [Keyword(KwAnd)] + (NotExprToks(parts[0]) + more) && ts[1..] == NotExprToks(parts[0]) + more;
      AcceptsAnds(boolFields, read + [NotAst(parts[0])], parts[1..], rest);
      assert (read + [NotAst(parts[0])]) + NotAsts(parts[1..]) == read + NotAsts(parts);
    }
  }

  lemma {:induction false} AcceptsNot(boolFields: set<string>, d: NotExpr, rest: seq<Tok>)
    requires ValidNot(boolFields, d) && Follows(rest, true, true)
    ensures Framed(NotExprToks(d) + rest) && ParseNot(boolFields, NotExprToks(d) + rest) == Parsed(NotAst(d), rest)
    decreases d, 2
  {
    hide Framed, SuffixOf, Advances, ParseOr, ParseCondition, ConditionToks, ConditionAst, ValidCondition, OrAst, OrToks;
    NotPlain(d);
    FramedAppend(NotExprToks(d), rest);
    var all := NotExprToks(d) + rest;
    match d
    case Negation(inner) =>
      AcceptsNot(boolFields, inner, rest);
      assert all[1..] == NotExprToks(inner) + rest;
    case Parens(body) =>
      var closing := [RParen] + rest;
      FramedAppend([RParen], rest);
      AcceptsOr(boolFields, body, closing);
      assert all[1..] == OrToks(body) + closing;
      assert closing[1..] == rest;
    case Truth(b) =>
      assert all[1..] == rest;
    case Leaf(c) =>
      AcceptsCondition(boolFields, c, rest);
      ConditionStart(c, rest);
  }

  lemma ConditionStart(c: Condition, rest: seq<Tok>)
    ensures ConditionToks(c) != [] && (ConditionToks(c) + rest)[0].Ident?
  {
  }

  /** Every derivation is parsed to its tree. */
  lemma ParserIsComplete(boolFields: set<string>, d: OrExpr)
    requires ValidOr(boolFields, d)
    ensures Framed(OrToks(d) + [Eof]) && Parse(boolFields, OrToks(d) + [Eof]) == Parsed(OrAst(d), [Eof])
  {
    AcceptsOr(boolFields, d, [Eof]);
  }
}
