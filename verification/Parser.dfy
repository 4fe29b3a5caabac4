/** The recursive-descent parser of shared/expression_core.py. */
module Parser {
  import opened Common
  import opened Expression
  import opened Lexer

  /** Why parsing stopped: one constructor per `raise ValueError` of the source. */
  datatype ParseError =
    | ExpectedRParen | UnexpectedToken | ExpectedField | ExpectedKey | ExpectedRBracket | ExpectedInOrExists
    | ExpectedValue | NeedsOperator | ExpectedOperator | ExpectedListValue | ExpectedList

  /** A value and the tokens left, or an error at the token from which `left` tokens remain. */
  datatype Outcome<+T> = Parsed(value: T, rest: seq<Tok>) | Failed(error: ParseError, left: nat)

  /** Tokens that end with an end marker and have no other. */
  predicate Framed(ts: seq<Tok>): (framed: bool)
    ensures framed ==> |ts| > 0
  {
    |ts| > 0 && forall i | 0 <= i < |ts| :: ts[i] == Eof <==> i == |ts| - 1
  }

  predicate SuffixOf(rest: seq<Tok>, ts: seq<Tok>) {
    |rest| <= |ts| && rest == ts[|ts| - |rest|..]
  }

  /** A successful step leaves a framed proper suffix, so it never passes the end marker; a failure is at a token not before the step. */
  predicate Advances<T>(r: Outcome<T>, ts: seq<Tok>) {
    match r
    case Parsed(_, rest) => Framed(rest) && SuffixOf(rest, ts) && |rest| < |ts|
    case Failed(_, left) => 0 < left <= |ts|
  }

  predicate Stays<T>(r: Outcome<T>, ts: seq<Tok>) {
    match r
    case Parsed(_, rest) => Framed(rest) && SuffixOf(rest, ts)
    case Failed(_, left) => 0 < left <= |ts|
  }

  /** One token further. */
  function Tail(ts: seq<Tok>): (r: seq<Tok>)
    requires Framed(ts) && ts[0] != Eof
    ensures Framed(r) && SuffixOf(r, ts) && |r| == |ts| - 1
  {
    ts[1..]
  }

  lemma StaysAfter<T>(r: Outcome<T>, rest: seq<Tok>, ts: seq<Tok>)
    requires Stays(r, rest) && SuffixOf(rest, ts)
    ensures Stays(r, ts)
  {
  }

  // ---------------------------------------------------------------- conditions

  /** A field as written: a name, or a name with a bracketed key. */
  datatype FieldForm = Plain(name: string) | Keyed(name: string, key: string)

  function FieldText(f: FieldForm): string {
    match f
    case Plain(name) => name
    case Keyed(name, key) => name + ("[\"" + (key + "\"]"))
  }

  function ParseField(ts: seq<Tok>): (r: Outcome<FieldForm>)
    requires Framed(ts)
    ensures Advances(r, ts)
  {
    if !ts[0].Ident? then Failed(ExpectedField, |ts|)
    else
      var t1 := Tail(ts);
      if !t1[0].LBracket? then Parsed(Plain(ts[0].name), t1)
      else
        var t2 := Tail(t1);
        if !t2[0].Str? then Failed(ExpectedKey, |t2|)
        else
          var t3 := Tail(t2);
          if !t3[0].RBracket? then Failed(ExpectedRBracket, |t3|)
          else Parsed(Keyed(ts[0].name, t2[0].s), Tail(t3))
  }

  /** The value after an operator; `bools` tells whether true and false count. */
  function ParseValue(ts: seq<Tok>, bools: bool): (r: Outcome<Constant>)
    requires Framed(ts)
    ensures Advances(r, ts) && (r.Failed? ==> r.error == ExpectedValue)
  {
    match ts[0]
    case Str(s) => Parsed(StrConst(s), Tail(ts))
    case Number(i) => Parsed(IntConst(i), Tail(ts))
    case Keyword(w) =>
      if bools && (w == KwTrue || w == KwFalse) then Parsed(BoolConst(w == KwTrue), Tail(ts)) else Failed(ExpectedValue, |ts|)
    case _ => Failed(ExpectedValue, |ts|)
  }

  /** The rest of a bracketed list, after the values read so far. */
  function ParseValues(values: seq<Constant>, ts: seq<Tok>): (r: Outcome<seq<Constant>>)
    requires Framed(ts)
    ensures Advances(r, ts)
    decreases |ts|
  {
    match ParseValue(ts, false)
    case Failed(_, left) => Failed(ExpectedListValue, left)
    case Parsed(v, rest) =>
      if rest[0].Comma? then ParseValues(values + [v], Tail(rest))
      else if rest[0].RBracket? then Parsed(values + [v], Tail(rest))
      else Failed(ExpectedRBracket, |rest|)
  }

  function ParseIn(field: string, negated: bool, ts: seq<Tok>): (r: Outcome<Node>)
    requires Framed(ts)
    ensures Advances(r, ts)
  {
    match ts[0]
    case ListRef(listType, listName) => Parsed(InList(field, listType, listName, negated), Tail(ts))
    case LBracket =>
      var t1 := Tail(ts);
      if t1[0].RBracket? then Parsed(InLiterals(field, [], negated), Tail(t1))
      else
        (match ParseValues([], t1)
         case Failed(e, left) => Failed(e, left)
         case Parsed(values, rest) => Parsed(InLiterals(field, values, negated), rest))
    case _ => Failed(ExpectedList, |ts|)
  }

  function WordOp(w: Word): Option<CompareOp> {
    match w
    case KwContains => Some(Contains)
    case KwStartsWith => Some(StartsWith)
    case KwEndsWith => Some(EndsWith)
    case _ => None
  }

  /** A token at which a field without an operator may end. */
  predicate EndsCondition(t: Tok) {
    t == Eof || t == RParen || t == Keyword(KwAnd) || t == Keyword(KwOr)
  }

  function ParseComparison(field: string, op: CompareOp, bools: bool, ts: seq<Tok>): (r: Outcome<Node>)
    requires Framed(ts)
    ensures Advances(r, ts)
  {
    match ParseValue(ts, bools)
    case Failed(e, left) => Failed(e, left)
    case Parsed(v, rest) => Parsed(Compare(field, op, v, false), rest)
  }

  /** What follows the field and an optional `not`. */
  function ParseOperator(field: string, negated: bool, boolFields: set<string>, ts: seq<Tok>): (r: Outcome<Node>)
    requires Framed(ts)
    ensures Stays(r, ts)
  {
    var t := ts[0];
    if t == Keyword(KwIn) then ParseIn(field, negated, Tail(ts))
    else if t == Keyword(KwExists) then Parsed(Exists(field, negated), Tail(ts))
    else if t.Keyword? && WordOp(t.word).Some? then ParseComparison(field, WordOp(t.word).value, false, Tail(ts))
    else if EndsCondition(t) then
      if field in boolFields then Parsed(BoolField(field, negated), ts) else Failed(NeedsOperator, |ts|)
    else if t.Op? then ParseComparison(field, t.op, true, Tail(ts))
    else Failed(ExpectedOperator, |ts|)
  }

  function ParseCondition(boolFields: set<string>, ts: seq<Tok>): (r: Outcome<Node>)
    requires Framed(ts)
    ensures Advances(r, ts)
  {
    match ParseField(ts)
    case Failed(e, left) => Failed(e, left)
    case Parsed(f, rest) =>
      if rest[0] != Keyword(KwNot) then ParseOperator(FieldText(f), false, boolFields, rest)
      else
        var after := Tail(rest);
        if after[0] != Keyword(KwIn) && after[0] != Keyword(KwExists) then Failed(ExpectedInOrExists, |after|)
        else ParseOperator(FieldText(f), true, boolFields, after)
  }

  // ---------------------------------------------------------------- levels of precedence

  function ParseOr(boolFields: set<string>, ts: seq<Tok>): (r: Outcome<Node>)
    requires Framed(ts)
    ensures Advances(r, ts)
    decreases |ts|, 4
  {
    match ParseAnd(boolFields, ts)
    case Failed(e, left) => Failed(e, left)
    case Parsed(n, rest) => ParseOrs(boolFields, [n], rest)
  }

  /** The loop over `or`, with the children read so far. */
  function ParseOrs(boolFields: set<string>, children: seq<Node>, ts: seq<Tok>): (r: Outcome<Node>)
    requires Framed(ts) && children != []
    ensures Stays(r, ts)
    decreases |ts|, 5
  {
    if ts[0] != Keyword(KwOr) then Parsed(if |children| == 1 then children[0] else Or(children), ts)
    else
      match ParseAnd(boolFields, Tail(ts))
      case Failed(e, left) => Failed(e, left)
      case Parsed(n, rest) =>
        var r := ParseOrs(boolFields, children + [n], rest);
        StaysAfter(r, rest, ts);
        r
  }

  function ParseAnd(boolFields: set<string>, ts: seq<Tok>): (r: Outcome<Node>)
    requires Framed(ts)
    ensures Advances(r, ts)
    decreases |ts|, 2
  {
    match ParseNot(boolFields, ts)
    case Failed(e, left) => Failed(e, left)
    case Parsed(n, rest) => ParseAnds(boolFields, [n], rest)
  }

  function ParseAnds(boolFields: set<string>, children: seq<Node>, ts: seq<Tok>): (r: Outcome<Node>)
    requires Framed(ts) && children != []
    ensures Stays(r, ts)
    decreases |ts|, 3
  {
    if ts[0] != Keyword(KwAnd) then Parsed(if |children| == 1 then children[0] else And(children), ts)
    else
      match ParseNot(boolFields, Tail(ts))
      case Failed(e, left) => Failed(e, left)
      case Parsed(n, rest) =>
        var r := ParseAnds(boolFields, children + [n], rest);
        StaysAfter(r, rest, ts);
        r
  }

  function ParseNot(boolFields: set<string>, ts: seq<Tok>): (r: Outcome<Node>)
    requires Framed(ts)
    ensures Advances(r, ts)
    decreases |ts|, 1
  {
    if ts[0] == Keyword(KwNot) then
      (match ParseNot(boolFields, Tail(ts))
       case Failed(e, left) => Failed(e, left)
       case Parsed(n, rest) => Parsed(Not(n), rest))
    else ParsePrimary(boolFields, ts)
  }

  function ParsePrimary(boolFields: set<string>, ts: seq<Tok>): (r: Outcome<Node>)
    requires Framed(ts)
    ensures Advances(r, ts)
    decreases |ts|, 0
  {
    match ts[0]
    case LParen =>
      (match ParseOr(boolFields, Tail(ts))
       case Failed(e, left) => Failed(e, left)
       case Parsed(n, rest) => if rest[0].RParen? then Parsed(n, Tail(rest)) else Failed(ExpectedRParen, |rest|))
    case Keyword(w) =>
      if w == KwTrue || w == KwFalse then Parsed(Literal(w == KwTrue, false), Tail(ts)) else ParseCondition(boolFields, ts)
    case _ => ParseCondition(boolFields, ts)
  }

  /** A whole expression: everything before the end marker is used up. */
  function Parse(boolFields: set<string>, ts: seq<Tok>): (r: Outcome<Node>)
    requires Framed(ts)
    ensures r.Parsed? ==> r.rest == [Eof]
    ensures r.Failed? ==> 0 < r.left <= |ts|
  {
    match ParseOr(boolFields, ts)
    case Failed(e, left) => Failed(e, left)
    case Parsed(n, rest) => if rest[0] == Eof then Parsed(n, rest) else Failed(UnexpectedToken, |rest|)
  }

  // ---------------------------------------------------------------- the program

  function Kinds(tokens: seq<Token>): (r: seq<Tok>)
    ensures |r| == |tokens| && forall i :: 0 <= i < |tokens| ==> r[i] == tokens[i].tok
  {
    seq(|tokens|, i requires 0 <= i < |tokens| => tokens[i].tok)
  }

  /** The source's ValueError with the position it reports. */
  datatype SyntaxError = SyntaxError(reason: ParseError, pos: nat)

  class TokenParser {
    const tokens: seq<Token>
    const boolFields: set<string>
    var pos: nat

    ghost predicate Valid()
      reads this
    {
      pos < |tokens| && Framed(Kinds(tokens))
    }

    /** The kinds of the tokens not yet consumed. */
    ghost function Rest(): (r: seq<Tok>)
      requires Valid()
      reads this
      ensures |r| == |tokens| - pos && Framed(r)
    {
      Kinds(tokens)[pos..]
    }

    /** The position is where the specification leaves it, and so is the result or the error. */
    ghost predicate Agrees<T>(spec: Outcome<T>, r: Result<T, SyntaxError>)
      reads this
    {
      && Valid()
      && match spec
         case Parsed(v, rest) => r == Ok(v) && Rest() == rest
         case Failed(e, left) => left <= |tokens| && 0 < left && r == Err(SyntaxError(e, tokens[|tokens| - left].pos))
    }

    constructor (tokens: seq<Token>, boolFields: set<string>)
      requires EndsOnce(tokens)
      ensures Valid() && this.tokens == tokens && this.boolFields == boolFields && Rest() == Kinds(tokens)
    {
      this.tokens := tokens;
      this.boolFields := boolFields;
      this.pos := 0;
    }

    method Peek() returns (t: Tok)
      requires Valid()
      ensures t == Rest()[0]
    {
      t := tokens[pos].tok;
    }

    method Advance() returns (t: Tok)
      requires Valid() && Rest()[0] != Eof
      modifies this
      ensures Valid() && t == old(Rest())[0] && Framed(old(Rest())) && Rest() == Tail(old(Rest())) && pos == old(pos) + 1
    {
      t := tokens[pos].tok;
      pos := pos + 1;
    }

    /** The error at the current token. */
    method Fail<T>(reason: ParseError) returns (r: Result<T, SyntaxError>)
      requires Valid()
      ensures r == Err(SyntaxError(reason, tokens[|tokens| - |Rest()|].pos))
    {
      r := Err(SyntaxError(reason, tokens[pos].pos));
    }

    method ParseAll() returns (r: Result<Node, SyntaxError>)
      requires Valid()
      modifies this
      ensures Framed(old(Rest())) && Agrees(Parse(boolFields, old(Rest())), r)
    {
      hide Framed, SuffixOf, Kinds, Rest, ParseOr;
      r := OrLevel();
      if r.Ok? {
        var t := Peek();
        if t != Eof {
          r := Fail(UnexpectedToken);
        }
      }
    }

    method OrLevel() returns (r: Result<Node, SyntaxError>)
      requires Valid()
      modifies this
      ensures Framed(old(Rest())) && Agrees(ParseOr(boolFields, old(Rest())), r)
      decreases |tokens| - pos, 4
    {
      hide Framed, SuffixOf, Kinds, Rest, ParseAnd;
      ghost var start := Rest();
      var first := AndLevel();
      if first.Err? {
        return first;
      }
      var children := [first.value];
      var t := Peek();
      while t == Keyword(KwOr)
        invariant Valid() && Framed(start) && t == Rest()[0] && children != []
        invariant pos > old(pos)
        invariant ParseOr(boolFields, start) == ParseOrs(boolFields, children, Rest())
        decreases |tokens| - pos
      {
        var _ := Advance();
        var next := AndLevel();
        if next.Err? {
          return next;
        }
        children := children + [next.value];
        t := Peek();
      }
      r := Ok(if |children| == 1 then children[0] else Or(children));
    }

    method AndLevel() returns (r: Result<Node, SyntaxError>)
      requires Valid()
      modifies this
      ensures Framed(old(Rest())) && Agrees(ParseAnd(boolFields, old(Rest())), r)
      decreases |tokens| - pos, 2
    {
      hide Framed, SuffixOf, Kinds, Rest, ParseNot;
      ghost var start := Rest();
      var first := NotLevel();
      if first.Err? {
        return first;
      }
      var children := [first.value];
      var t := Peek();
      while t == Keyword(KwAnd)
        invariant Valid() && Framed(start) && t == Rest()[0] && children != []
        invariant pos > old(pos)
        invariant ParseAnd(boolFields, start) == ParseAnds(boolFields, children, Rest())
        decreases |tokens| - pos
      {
        var _ := Advance();
        var next := NotLevel();
        if next.Err? {
          return next;
        }
        children := children + [next.value];
        t := Peek();
      }
      r := Ok(if |children| == 1 then children[0] else And(children));
    }

    method NotLevel() returns (r: Result<Node, SyntaxError>)
      requires Valid()
      modifies this
      ensures Framed(old(Rest())) && Agrees(ParseNot(boolFields, old(Rest())), r)
      decreases |tokens| - pos, 1
    {
      hide Framed, SuffixOf, Kinds, Rest, ParsePrimary;
      var t := Peek();
      if t == Keyword(KwNot) {
        var _ := Advance();
        var child := NotLevel();
        r := if child.Ok? then Ok(Not(child.value)) else child;
      } else {
        r := Primary();
      }
    }

    method Primary() returns (r: Result<Node, SyntaxError>)
      requires Valid()
      modifies this
      ensures Framed(old(Rest())) && Agrees(ParsePrimary(boolFields, old(Rest())), r)
      decreases |tokens| - pos, 0
    {
      hide Framed, SuffixOf, Kinds, Rest, ParseOr, ParseCondition;
      var t := Peek();
      if t.LParen? {
        var _ := Advance();
        r := OrLevel();
        if r.Ok? {
          var close := Peek();
          if close.RParen? {
            var _ := Advance();
          } else {
            r := Fail(ExpectedRParen);
          }
        }
      } else if t == Keyword(KwTrue) || t == Keyword(KwFalse) {
        var _ := Advance();
        r := Ok(Literal(t == Keyword(KwTrue), false));
      } else {
        r := Condition();
      }
    }

    method Field() returns (r: Result<FieldForm, SyntaxError>)
      requires Valid()
      modifies this
      ensures Framed(old(Rest())) && Agrees(ParseField(old(Rest())), r) && (r.Ok? ==> pos > old(pos))
    {
      hide Framed, SuffixOf, Kinds, Rest;
      var t := Peek();
      if !t.Ident? {
        r := Fail(ExpectedField);
        return;
      }
      var name := Advance();
      var open := Peek();
      if !open.LBracket? {
        return Ok(Plain(name.name));
      }
      var _ := Advance();
      var key := Peek();
      if !key.Str? {
        r := Fail(ExpectedKey);
        return;
      }
      var _ := Advance();
      var close := Peek();
      if !close.RBracket? {
        r := Fail(ExpectedRBracket);
        return;
      }
      var _ := Advance();
      r := Ok(Keyed(name.name, key.s));
    }

    method Condition() returns (r: Result<Node, SyntaxError>)
      requires Valid()
      modifies this
      ensures Framed(old(Rest())) && Agrees(ParseCondition(boolFields, old(Rest())), r)
    {
      hide Framed, SuffixOf, Kinds, Rest, ParseField, ParseOperator, FieldText;
      var field := Field();
      if field.Err? {
        return Err(field.error);
      }
      var negated := false;
      var t := Peek();
      if t == Keyword(KwNot) {
        var _ := Advance();
        negated := true;
        var next := Peek();
        if next != Keyword(KwIn) && next != Keyword(KwExists) {
          r := Fail(ExpectedInOrExists);
          return;
        }
      }
      r := Operator(FieldText(field.value), negated);
    }

    method Operator(field: string, negated: bool) returns (r: Result<Node, SyntaxError>)
      requires Valid()
      modifies this
      ensures Framed(old(Rest())) && Agrees(ParseOperator(field, negated, boolFields, old(Rest())), r)
    {
      hide Framed, SuffixOf, Kinds, Rest, ParseIn, ParseComparison;
      var t := Peek();
      if t == Keyword(KwIn) {
        var _ := Advance();
        r := In(field, negated);
      } else if t == Keyword(KwExists) {
        var _ := Advance();
        r := Ok(Exists(field, negated));
      } else if t.Keyword? && WordOp(t.word).Some? {
        var _ := Advance();
        r := Comparison(field, WordOp(t.word).value, false);
      } else if EndsCondition(t) {
        if field in boolFields {
          r := Ok(BoolField(field, negated));
        } else {
          r := Fail(NeedsOperator);
        }
      } else if t.Op? {
        var _ := Advance();
        r := Comparison(field, t.op, true);
      } else {
        r := Fail(ExpectedOperator);
      }
    }

    method Comparison(field: string, op: CompareOp, bools: bool) returns (r: Result<Node, SyntaxError>)
      requires Valid()
      modifies this
      ensures Framed(old(Rest())) && Agrees(ParseComparison(field, op, bools, old(Rest())), r)
    {
      hide Framed, SuffixOf, Kinds, Rest, ParseValue;
      var v := Value(bools, ExpectedValue);
      r := if v.Ok? then Ok(Compare(field, op, v.value, false)) else Err(v.error);
    }

    /** One value; `reason` is the error the caller reports when there is none. */
    method Value(bools: bool, reason: ParseError) returns (r: Result<Constant, SyntaxError>)
      requires Valid()
      modifies this
      ensures Framed(old(Rest()))
      ensures var spec := ParseValue(old(Rest()), bools);
              Agrees(if spec.Failed? then Failed(reason, spec.left) else spec, r)
      ensures r.Ok? ==> pos > old(pos)
    {
      hide Framed, SuffixOf, Kinds, Rest;
      var t := Peek();
      if t.Str? {
        var _ := Advance();
        r := Ok(StrConst(t.s));
      } else if t.Number? {
        var _ := Advance();
        r := Ok(IntConst(t.i));
      } else if bools && (t == Keyword(KwTrue) || t == Keyword(KwFalse)) {
        var _ := Advance();
        r := Ok(BoolConst(t == Keyword(KwTrue)));
      } else {
        r := Fail(reason);
      }
    }

    method In(field: string, negated: bool) returns (r: Result<Node, SyntaxError>)
      requires Valid()
      modifies this
      ensures Framed(old(Rest())) && Agrees(ParseIn(field, negated, old(Rest())), r)
    {
      hide Framed, SuffixOf, Kinds, Rest, ParseValues;
      var t := Peek();
      if t.ListRef? {
        var _ := Advance();
        return Ok(InList(field, t.listType, t.listName, negated));
      }
      if !t.LBracket? {
        r := Fail(ExpectedList);
        return;
      }
      var _ := Advance();
      var close := Peek();
      if close.RBracket? {
        var _ := Advance();
        return Ok(InLiterals(field, [], negated));
      }
      var values := Values();
      r := if values.Ok? then Ok(InLiterals(field, values.value, negated)) else Err(values.error);
    }

    method Values() returns (r: Result<seq<Constant>, SyntaxError>)
      requires Valid()
      modifies this
      ensures Framed(old(Rest())) && Agrees(ParseValues([], old(Rest())), r)
    {
      hide Framed, SuffixOf, Kinds, Rest, ParseValue;
      ghost var start := Rest();
      var values: seq<Constant> := [];
      while true
        invariant Valid() && Framed(start) && Framed(Rest())
        invariant ParseValues([], start) == ParseValues(values, Rest())
        decreases |tokens| - pos
      {
        var v := Value(false, ExpectedListValue);
        if v.Err? {
          return Err(v.error);
        }
        values := values + [v.value];
        var t := Peek();
        if t.Comma? {
          var _ := Advance();
          continue;
        }
        if t.RBracket? {
          var _ := Advance();
          return Ok(values);
        }
        r := Fail(ExpectedRBracket);
        return;
      }
    }
  }

  // ---------------------------------------------------------------- from text

  datatype ExpressionError = Required | BadToken(at: nat) | BadSyntax(error: SyntaxError)

  /** What parse_expression returns or raises. */
  function ExpressionOf(boolFields: set<string>, text: string): Result<Node, ExpressionError> {
    if forall i | 0 <= i < |text| :: IsSpace(text[i]) then Err(Required)
    else
      match Scan(text, 0)
      case Err(at) => Err(BadToken(at))
      case Ok(tokens) =>
        EndsOnceOf(text);
        match Parse(boolFields, Kinds(tokens))
        case Parsed(n, _) => Ok(n)
        case Failed(e, left) => Err(BadSyntax(SyntaxError(e, tokens[|tokens| - left].pos)))
  }

  lemma EndsOnceOf(text: string)
    requires Scan(text, 0).Ok?
    ensures EndsOnce(Scan(text, 0).value) && Framed(Kinds(Scan(text, 0).value))
  {
    ScanIsPlaced(text, 0);
  }

  method ParseExpression(text: string, boolFields: set<string>) returns (r: Result<Node, ExpressionError>)
    ensures r == ExpressionOf(boolFields, text)
  {
    hide Scan, Parse, Framed, EndsOnce, Kinds, Advances, IsSpace, TokenParser.Rest;
    if forall i | 0 <= i < |text| :: IsSpace(text[i]) {
      return Err(Required);
    }
    var tokens := Tokenize(text);
    if tokens.Err? {
      return Err(BadToken(tokens.error));
    }
    EndsOnceOf(text);
    var parser := new TokenParser(tokens.value, boolFields);
    var node := parser.ParseAll();
    r := if node.Ok? then Ok(node.value) else Err(BadSyntax(node.error));
  }
}
