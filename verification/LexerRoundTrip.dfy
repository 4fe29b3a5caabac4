/** Rendering tokens to text, and the proof that tokenizing undoes it. */
module LexerRoundTrip {
  import opened Common
  import opened Expression
  import opened Lexer

  // ---------------------------------------------------------------- rendering

  function DigitChar(d: nat): char
    requires d < 10
  {
    ('0' as int + d) as char
  }

  function Decimal(n: nat): (s: string)
    ensures s != "" && forall i :: 0 <= i < |s| ==> IsDigit(s[i])
  {
    if n < 10 then [DigitChar(n)] else Decimal(n / 10) + [DigitChar(n % 10)]
  }

  function Integer(i: int): string {
    if i < 0 then "-" + Decimal(-i) else Decimal(i)
  }

  /** The string with a backslash before every quote and backslash. */
  function Escape(s: string): string {
    if s == "" then ""
    else (if s[0] == '"' || s[0] == '\\' then ['\\', s[0]] else [s[0]]) + Escape(s[1..])
  }

  function OpText(op: CompareOp): string {
    match op
    case Eq => "="
    case Ne => "!="
    case Match => "~"
    case NotMatch => "!~"
    case Gt => ">"
    case Lt => "<"
    case Ge => ">="
    case Le => "<="
    case Contains => "contains"
    case StartsWith => "starts_with"
    case EndsWith => "ends_with"
  }

  function WordText(w: Word): string {
    match w
    case KwAnd => "and"
    case KwOr => "or"
    case KwNot => "not"
    case KwIn => "in"
    case KwContains => "contains"
    case KwStartsWith => "starts_with"
    case KwEndsWith => "ends_with"
    case KwExists => "exists"
    case KwTrue => "true"
    case KwFalse => "false"
  }

  function Text(t: Tok): string {
    match t
    case LParen => "("
    case RParen => ")"
    case LBracket => "["
    case RBracket => "]"
    case Comma => ","
    case Op(op) => OpText(op)
    case Str(s) => "\"" + Escape(s) + "\""
    case Number(i) => Integer(i)
    case ListRef(listType, listName) => "$" + (listType + ":" + listName)
    case Keyword(w) => WordText(w)
    case Ident(name) => name
    case Eof => ""
  }

  /** A name that reads back as one identifier: not a keyword in any case, and not an AS number. */
  predicate IsIdentifier(name: string) {
    name != "" && (IsAlpha(name[0]) || name[0] == '_') && (forall i | 0 <= i < |name| :: IsIdentChar(name[i]))
    && KeywordOf(Lower(name)).None? && !StartsAsNumber(name)
  }

  predicate WellFormed(t: Tok) {
    match t
    case ListRef(listType, listName) =>
      (forall i | 0 <= i < |listType| :: IsRefChar(listType[i]) && listType[i] != ':')
      && forall i | 0 <= i < |listName| :: IsRefChar(listName[i])
    case Ident(name) => IsIdentifier(name)
    case Eof => false
    case _ => true
  }

  /** Every token followed by a space. */
  function Render(ts: seq<Tok>): string {
    if ts == [] then "" else Text(ts[0]) + (" " + Render(ts[1..]))
  }

  /** The tokens at the positions where Render puts them, and the end marker. */
  function Located(ts: seq<Tok>, off: nat): seq<Token> {
    if ts == [] then [Token(Eof, off)]
    else [Token(ts[0], off)] + Located(ts[1..], off + |Text(ts[0])| + 1)
  }

  // ---------------------------------------------------------------- reading one token back

  lemma SpanExact(p: char -> bool, w: string, rest: string)
    requires forall i :: 0 <= i < |w| ==> p(w[i])
    requires rest != "" ==> !p(rest[0])
    ensures Span(p, w + rest) == |w|
  {
    var whole := w + rest;
    assert forall i :: 0 <= i < |w| ==> whole[i] == w[i];
    assert rest != "" ==> whole[|w|] == rest[0];
  }

  lemma {:induction false} DecimalValue(n: nat)
    ensures ParseNat(Decimal(n)) == n
  {
    if n >= 10 {
      DecimalValue(n / 10);
      var s := Decimal(n);
      assert s[..|s| - 1] == Decimal(n / 10) && s[|s| - 1] == DigitChar(n % 10);
    }
  }

  lemma {:induction false} EscapeBody(s: string, rest: string)
    ensures StringBody(Escape(s) + ("\"" + rest), '"') == Some((s, |Escape(s)| + 1))
  {
    var whole := Escape(s) + ("\"" + rest);
    if s == "" {
      assert whole[0] == '"';
    } else {
      EscapeBody(s[1..], rest);
      var tail := Escape(s[1..]) + ("\"" + rest);
      assert s == [s[0]] + s[1..];
      if s[0] == '"' || s[0] == '\\' {
        assert whole == ['\\', s[0]] + tail;
        assert whole[2..] == tail;
      } else {
        assert whole == [s[0]] + tail;
        assert whole[1..] == tail;
      }
    }
  }

  lemma StartsLikeString(s: string)
    requires s != "" && s[0] == '"'
    ensures StringBody(s[1..], '"').Some? ==>
              Next(s) == Emit(Str(StringBody(s[1..], '"').value.0), StringBody(s[1..], '"').value.1 + 1)
  {
    hide StringBody;
  }

  lemma ReadString(s: string, rest: string)
    ensures Next(Text(Str(s)) + (" " + rest)) == Emit(Str(s), |Text(Str(s))|)
  {
    hide Next, StringBody, Escape;
    StartsLikeString(Text(Str(s)) + (" " + rest));
    var whole := Text(Str(s)) + (" " + rest);
    EscapeBody(s, " " + rest);
    assert whole == "\"" + (Escape(s) + ("\"" + (" " + rest)));
    assert whole[1..] == Escape(s) + ("\"" + (" " + rest));
  }

  lemma StartsLikeNumber(s: string)
    requires StartsNumber(s)
    ensures Next(s) == NumberStep(s)
  {
    hide NumberStep;
  }

  lemma ReadNumber(i: int, rest: string)
    ensures Next(Integer(i) + (" " + rest)) == Emit(Number(i), |Integer(i)|)
  {
    hide Next, ParseNat, Decimal, Span;
    var digits := Decimal(if i < 0 then -i else i);
    var whole := Integer(i) + (" " + rest);
    var start := if i < 0 then 1 else 0;
    DecimalValue(if i < 0 then -i else i);
    SpanExact(IsDigit, digits, " " + rest);
    assert whole[start..] == digits + (" " + rest);
    assert whole[start..][..|digits|] == digits;
    assert whole[start] == digits[0];
    StartsLikeNumber(whole);
  }

  lemma ReadListRef(listType: string, listName: string, rest: string)
    requires WellFormed(ListRef(listType, listName))
    ensures Next(Text(ListRef(listType, listName)) + (" " + rest)) == Emit(ListRef(listType, listName), |Text(ListRef(listType, listName))|)
  {
    var ref := listType + ":" + listName;
    var whole := Text(ListRef(listType, listName)) + (" " + rest);
    assert whole[1..] == ref + (" " + rest);
    forall i | 0 <= i < |ref| ensures IsRefChar(ref[i]) {
      if i < |listType| { assert ref[i] == listType[i]; }
      else if i > |listType| { assert ref[i] == listName[i - |listType| - 1]; }
    }
    SpanExact(IsRefChar, ref, " " + rest);
    assert whole[1..][..|ref|] == ref;
    ColonAfter(listType, listName, ref);
    assert whole[0] == '$';
    assert Next(whole) == ListRefStep(whole) by { hide ListRefStep; }
  }

  lemma ColonAfter(listType: string, listName: string, ref: string)
    requires ref == listType + ":" + listName && ':' !in listType
    ensures Span(ch => ch != ':', ref) == |listType|
    ensures ref[..|listType|] == listType && ref[|listType| + 1..] == listName
  {
    assert ref == listType + (":" + listName);
    SpanExact(ch => ch != ':', listType, ":" + listName);
  }

  lemma StartsLikeWord(s: string)
    requires s != "" && (IsAlpha(s[0]) || s[0] == '_') && !StartsAsNumber(s)
    ensures Next(s) == WordStep(s)
  {
    hide WordStep;
  }

  /** A word followed by a space is read whole. */
  lemma ReadWord(w: string, rest: string)
    requires w != "" && (IsAlpha(w[0]) || w[0] == '_') && (forall i :: 0 <= i < |w| ==> IsIdentChar(w[i])) && !StartsAsNumber(w)
    ensures Next(w + (" " + rest)) == Emit(if KeywordOf(Lower(w)).Some? then Keyword(KeywordOf(Lower(w)).value) else Ident(w), |w|)
  {
    hide Next, KeywordOf, Lower;
    var whole := w + (" " + rest);
    SpanExact(IsIdentChar, w, " " + rest);
    assert whole[..|w|] == w;
    assert whole[0] == w[0];
    assert |w| > 1 ==> whole[1] == w[1];
    assert |w| > 2 ==> whole[2] == w[2];
    assert |w| == 1 ==> whole[1] == ' ';
    assert |w| == 2 ==> whole[2] == ' ';
    StartsLikeWord(whole);
  }

  lemma WordTextIsWord(w: Word)
    ensures var s := WordText(w); s != "" && IsAlpha(s[0]) && (forall i :: 0 <= i < |s| ==> IsIdentChar(s[i])) && !StartsAsNumber(s)
    ensures KeywordOf(Lower(WordText(w))) == Some(w)
  {
    assert Lower(WordText(w)) == WordText(w);
  }

  lemma ReadSymbol(t: Tok, rest: string)
    requires t.LParen? || t.RParen? || t.LBracket? || t.RBracket? || t.Comma?
    ensures Next(Text(t) + (" " + rest)) == Emit(t, 1)
  {
    assert (Text(t) + (" " + rest))[0] == Text(t)[0];
  }

  lemma ReadOp(op: SymbolOp, rest: string)
    ensures Next(OpText(op) + (" " + rest)) == Emit(Op(op), |OpText(op)|)
  {
    var whole := OpText(op) + (" " + rest);
    assert whole[0] == OpText(op)[0];
    assert whole[..2] == if |OpText(op)| == 2 then OpText(op) else [OpText(op)[0], ' '];
    assert |OpText(op)| == 1 ==> [OpText(op)[0], ' '][1] == ' ';
  }

  /** Every well-formed token is read back from its text. */
  lemma ReadToken(t: Tok, rest: string)
    requires WellFormed(t)
    ensures Text(t) != "" && Next(Text(t) + (" " + rest)) == Emit(t, |Text(t)|)
  {
    hide Next;
    match t
    case Op(op) => ReadOp(op, rest);
    case Str(s) => ReadString(s, rest);
    case Number(i) => ReadNumber(i, rest);
    case ListRef(listType, listName) => ReadListRef(listType, listName, rest);
    case Keyword(w) => WordTextIsWord(w); ReadWord(WordText(w), rest);
    case Ident(name) => ReadWord(name, rest);
    case _ => ReadSymbol(t, rest);
  }

  // ---------------------------------------------------------------- reading all tokens back

  lemma ScanSpace(rest: string, off: nat)
    ensures Scan(" " + rest, off) == Scan(rest, off + 1)
  {
    hide Next;
    SpaceIsSkipped(" " + rest);
    assert (" " + rest)[1..] == rest;
  }

  /** Tokenizing undoes rendering: the same tokens, where they were put, and one end marker. */
  lemma {:induction false} TokenizeUndoesRender(ts: seq<Tok>, off: nat)
    requires forall i :: 0 <= i < |ts| ==> WellFormed(ts[i])
    ensures Scan(Render(ts), off) == Ok(Located(ts, off))
  {
    hide Next, WellFormed, Text;
    if ts != [] {
      var rest := Render(ts[1..]);
      var whole := Text(ts[0]) + (" " + rest);
      var k := |Text(ts[0])|;
      ReadToken(ts[0], rest);
      TokenizeUndoesRender(ts[1..], off + k + 1);
      ScanSpace(rest, off + k);
      assert whole[k..] == " " + rest;
      assert Scan(whole, off) == Push([Token(ts[0], off)], Scan(" " + rest, off + k));
    }
  }
}
