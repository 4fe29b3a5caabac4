/** The tokenizer of shared/expression_core.py, over ASCII character classes. */
module Lexer {
  import opened Common
  import opened Expression

  datatype Word = KwAnd | KwOr | KwNot | KwIn | KwContains | KwStartsWith | KwEndsWith | KwExists | KwTrue | KwFalse

  /** The operators written as symbols. */
  type SymbolOp = op: CompareOp | op != Contains && op != StartsWith && op != EndsWith witness Eq

  /** A token's kind and value. */
  datatype Tok =
    | LParen | RParen | LBracket | RBracket | Comma
    | Op(op: SymbolOp)
    | Str(s: string)
    | Number(i: int)
    | ListRef(listType: string, listName: string)
    | Keyword(word: Word)
    | Ident(name: string)
    | Eof

  datatype Token = Token(tok: Tok, pos: nat)

  /** The tokens, or the position at which tokenizing failed. */
  type LexResult = Result<seq<Token>, nat>

  // ---------------------------------------------------------------- characters

  predicate IsSpace(c: char) { c == ' ' || '\t' <= c <= '\r' || (0x1c as char) <= c <= (0x1f as char) }

  predicate IsDigit(c: char) { '0' <= c <= '9' }

  predicate IsAlpha(c: char) { 'a' <= c <= 'z' || 'A' <= c <= 'Z' }

  predicate IsIdentChar(c: char) { IsAlpha(c) || IsDigit(c) || c == '.' || c == '_' }

  predicate IsRefChar(c: char) { IsAlpha(c) || IsDigit(c) || c == '_' || c == '.' || c == ':' || c == '-' }

  function ToLower(c: char): char {
    if 'A' <= c <= 'Z' then ((c as int) + 32) as char else c
  }

  function Lower(s: string): (r: string)
    ensures |r| == |s|
    ensures forall i :: 0 <= i < |s| ==> r[i] == ToLower(s[i])
  {
    seq(|s|, i requires 0 <= i < |s| => ToLower(s[i]))
  }

  // ---------------------------------------------------------------- specification

  /** Length of the longest prefix whose characters all satisfy `p`. */
  function Span(p: char -> bool, s: string): (k: nat)
    ensures k <= |s|
    ensures forall i :: 0 <= i < k ==> p(s[i])
    ensures k < |s| ==> !p(s[k])
  {
    if s != "" && p(s[0]) then 1 + Span(p, s[1..]) else 0
  }

  function DigitValue(c: char): nat
    requires IsDigit(c)
  {
    c as int - '0' as int
  }

  /** int() of a string of digits. */
  function ParseNat(s: string): nat
    requires forall i :: 0 <= i < |s| ==> IsDigit(s[i])
  {
    if s == "" then 0 else 10 * ParseNat(s[..|s| - 1]) + DigitValue(s[|s| - 1])
  }

  /** Content and length of a string body, up to and including the closing quote. */
  function StringBody(s: string, quote: char): (r: Option<(string, nat)>)
    ensures r.Some? ==> 0 < r.value.1 <= |s|
  {
    if s == "" then None
    else if s[0] == '\\' && |s| > 1 then
      (match StringBody(s[2..], quote)
       case None => None
       case Some((body, k)) => Some(([s[1]] + body, k + 2)))
    else if s[0] == quote then Some(("", 1))
    else
      match StringBody(s[1..], quote)
      case None => None
      case Some((body, k)) => Some(([s[0]] + body, k + 1))
  }

  function TwoCharOp(s: string): Option<SymbolOp> {
    if s == "!=" then Some(Ne)
    else if s == "!~" then Some(NotMatch)
    else if s == ">=" then Some(Ge)
    else if s == "<=" then Some(Le)
    else None
  }

  function OneCharOp(c: char): Option<SymbolOp> {
    match c
    case '=' => Some(Eq)
    case '~' => Some(Match)
    case '>' => Some(Gt)
    case '<' => Some(Lt)
    case _ => None
  }

  function Punctuation(c: char): Option<Tok> {
    match c
    case '(' => Some(LParen)
    case ')' => Some(RParen)
    case '[' => Some(LBracket)
    case ']' => Some(RBracket)
    case ',' => Some(Comma)
    case _ => None
  }

  function KeywordOf(lower: string): Option<Word> {
    match lower
    case "and" => Some(KwAnd)
    case "or" => Some(KwOr)
    case "not" => Some(KwNot)
    case "in" => Some(KwIn)
    case "contains" => Some(KwContains)
    case "starts_with" => Some(KwStartsWith)
    case "ends_with" => Some(KwEndsWith)
    case "exists" => Some(KwExists)
    case "true" => Some(KwTrue)
    case "false" => Some(KwFalse)
    case _ => None
  }

  predicate StartsNumber(s: string) {
    s != "" && (IsDigit(s[0]) || (s[0] == '-' && |s| > 1 && IsDigit(s[1])))
  }

  /** An autonomous system number such as AS64500. */
  predicate StartsAsNumber(s: string) {
    |s| > 2 && (s[0] == 'A' || s[0] == 'a') && (s[1] == 'S' || s[1] == 's') && IsDigit(s[2])
  }

  /** What happens at the front of the remaining text: a character is skipped, a token of some length is read, or tokenizing fails. */
  datatype Step = Skip | Emit(tok: Tok, len: nat) | Fail

  function NumberStep(s: string): (r: Step)
    requires StartsNumber(s)
    ensures r.Emit? && 0 < r.len <= |s| && r.tok != Eof
  {
    var start := if s[0] == '-' then 1 else 0;
    var k := Span(IsDigit, s[start..]);
    var magnitude: int := ParseNat(s[start..][..k]);
    Emit(Number(if s[0] == '-' then -magnitude else magnitude), start + k)
  }

  function ListRefStep(s: string): (r: Step)
    requires s != ""
    ensures !r.Skip? && (r.Emit? ==> 0 < r.len <= |s| && r.tok != Eof)
  {
    var k := Span(IsRefChar, s[1..]);
    var ref := s[1..][..k];
    var c := Span(ch => ch != ':', ref);
    if c == |ref| then Fail else Emit(ListRef(ref[..c], ref[c + 1..]), k + 1)
  }

  function WordStep(s: string): (r: Step)
    requires s != "" && (IsAlpha(s[0]) || s[0] == '_')
    ensures r.Emit? && 0 < r.len <= |s| && r.tok != Eof
  {
    var k := Span(IsIdentChar, s);
    var word := s[..k];
    match KeywordOf(Lower(word))
    case Some(w) => Emit(Keyword(w), k)
    case None => Emit(Ident(word), k)
  }

  function AsNumberStep(s: string): (r: Step)
    requires StartsAsNumber(s)
    ensures r.Emit? && 0 < r.len <= |s| && r.tok != Eof
  {
    var k := Span(IsDigit, s[2..]);
    Emit(Str("AS" + s[2..][..k]), k + 2)
  }

  /** Numbers, list references and words. */
  function OtherStep(s: string): (r: Step)
    requires s != ""
    ensures !r.Skip? && (r.Emit? ==> 0 < r.len <= |s| && r.tok != Eof)
  {
    if StartsNumber(s) then NumberStep(s)
    else if s[0] == '$' then ListRefStep(s)
    else if StartsAsNumber(s) then AsNumberStep(s)
    else if IsAlpha(s[0]) || s[0] == '_' then WordStep(s)
    else Fail
  }

  function Next(s: string): (r: Step)
    requires s != ""
    ensures r.Emit? ==> 0 < r.len <= |s| && r.tok != Eof
  {
    var c := s[0];
    if IsSpace(c) then Skip
    else if Punctuation(c).Some? then Emit(Punctuation(c).value, 1)
    else if |s| > 1 && TwoCharOp(s[..2]).Some? then Emit(Op(TwoCharOp(s[..2]).value), 2)
    else if OneCharOp(c).Some? then Emit(Op(OneCharOp(c).value), 1)
    else if c == '"' || c == '\'' then
      (match StringBody(s[1..], c)
       case None => Fail
       case Some((body, k)) => Emit(Str(body), k + 1))
    else OtherStep(s)
  }

  /** The tokens of `s`, the text that starts at offset `off`. */
  function Scan(s: string, off: nat): LexResult
    decreases |s|
  {
    if s == "" then Ok([Token(Eof, off)])
    else
      match Next(s)
      case Skip => Scan(s[1..], off + 1)
      case Fail => Err(off)
      case Emit(tok, len) => Push([Token(tok, off)], Scan(s[len..], off + len))
  }

  /** Tokens read before, in front of the outcome of the rest. */
  function Push(tokens: seq<Token>, rest: LexResult): LexResult {
    match rest
    case Ok(ts) => Ok(tokens + ts)
    case Err(p) => Err(p)
  }

  /** A string body of which `buf` was read before, over `n` characters. */
  function Extend(buf: string, n: nat, rest: Option<(string, nat)>): Option<(string, nat)> {
    match rest
    case None => None
    case Some((body, k)) => Some((buf + body, n + k))
  }

  // ---------------------------------------------------------------- the program

  method SpanLoop(p: char -> bool, text: string, i: nat) returns (j: nat)
    requires i <= |text|
    ensures i <= j <= |text| && j - i == Span(p, text[i..])
  {
    j := i;
    while j < |text| && p(text[j])
      invariant i <= j <= |text|
      invariant Span(p, text[i..]) == (j - i) + Span(p, text[j..])
    {
      assert text[j..][1..] == text[j + 1..];
      j := j + 1;
    }
  }

  /** The string literal whose opening quote is at i; j is the index of the closing quote, or at least |text|. */
  method StringLoop(text: string, i: nat) returns (buf: string, j: nat)
    requires i < |text|
    ensures i < j
    ensures match StringBody(text[i + 1..], text[i])
            case None => j >= |text|
            case Some((body, k)) => buf == body && j < |text| && j == i + k
  {
    hide StringBody, Extend;
    var quote := text[i];
    j := i + 1;
    buf := [];
    ExtendNothing(StringBody(text[j..], quote));
    while j < |text|
      invariant i < j <= |text|
      invariant StringBody(text[i + 1..], quote) == Extend(buf, j - i - 1, StringBody(text[j..], quote))
    {
      ghost var s := text[j..];
      if text[j] == '\\' && j + 1 < |text| {
        BodyStep(s, quote);
        ExtendTwice(buf, j - i - 1, [text[j + 1]], 2, StringBody(s[2..], quote));
        assert s[2..] == text[j + 2..];
        buf := buf + [text[j + 1]];
        j := j + 2;
        continue;
      }
      BodyStep(s, quote);
      if text[j] == quote {
        ExtendByNothing(buf, j - i - 1, 1);
        break;
      }
      ExtendTwice(buf, j - i - 1, [text[j]], 1, StringBody(s[1..], quote));
      assert s[1..] == text[j + 1..];
      buf := buf + [text[j]];
      j := j + 1;
    }
    BodyEnds(quote);
    assert j == |text| ==> text[j..] == "";
    ExtendNone(buf, j - i - 1);
  }

  /** What the first character of a string body does. */
  lemma BodyStep(s: string, quote: char)
    requires s != ""
    ensures StringBody(s, quote)
         == if s[0] == '\\' && |s| > 1 then Extend([s[1]], 2, StringBody(s[2..], quote))
            else if s[0] == quote then Some(("", 1)) else Extend([s[0]], 1, StringBody(s[1..], quote))
  {
  }

  lemma BodyEnds(quote: char)
    ensures StringBody("", quote) == None
  {
  }

  lemma ExtendNone(buf: string, n: nat)
    ensures Extend(buf, n, None) == None
  {
  }

  lemma ExtendByNothing(buf: string, n: nat, k: nat)
    ensures Extend(buf, n, Some(("", k))) == Some((buf, n + k))
  {
    assert buf + "" == buf;
  }

  lemma ExtendNothing(r: Option<(string, nat)>)
    ensures Extend([], 0, r) == r
  {
    if r.Some? { assert [] + r.value.0 == r.value.0; }
  }

  lemma ExtendTwice(a: string, m: nat, b: string, n: nat, r: Option<(string, nat)>)
    ensures Extend(a, m, Extend(b, n, r)) == Extend(a + b, m + n, r)
  {
    if r.Some? { assert a + (b + r.value.0) == (a + b) + r.value.0; }
  }

  lemma PushNothing(r: LexResult)
    ensures Push([], r) == r
  {
    if r.Ok? { assert [] + r.value == r.value; }
  }

  lemma PushTwice(a: seq<Token>, b: seq<Token>, r: LexResult)
    ensures Push(a, Push(b, r)) == Push(a + b, r)
  {
    if r.Ok? { assert a + (b + r.value) == (a + b) + r.value; }
  }

  lemma SpaceIsSkipped(s: string)
    requires s != ""
    ensures Next(s).Skip? <==> IsSpace(s[0])
  {
  }

  method Tokenize(text: string) returns (r: LexResult)
    ensures r == Scan(text, 0)
  {
    hide Next;
    var tokens: seq<Token> := [];
    var i := 0;
    assert text[0..] == text;
    PushNothing(Scan(text, 0));
    while i < |text|
      invariant i <= |text|
      invariant Scan(text, 0) == Push(tokens, Scan(text[i..], i))
    {
      ghost var s := text[i..];
      if IsSpace(text[i]) {
        SpaceIsSkipped(s);
        assert s[1..] == text[i + 1..];
        i := i + 1;
        continue;
      }
      var step := NextToken(text, i);
      if step.Fail? {
        return Err(i);
      }
      PushTwice(tokens, [Token(step.tok, i)], Scan(s[step.len..], i + step.len));
      assert s[step.len..] == text[i + step.len..];
      tokens := tokens + [Token(step.tok, i)];
      i := i + step.len;
    }
    tokens := tokens + [Token(Eof, |text|)];
    r := Ok(tokens);
  }

  method NextToken(text: string, i: nat) returns (step: Step)
    requires i < |text| && !IsSpace(text[i])
    ensures step == Next(text[i..]) && !step.Skip?
  {
    var c := text[i];
    ghost var s := text[i..];
    var two := text[i..if i + 2 <= |text| then i + 2 else |text|];
    assert if |s| > 1 then two == s[..2] else |two| == 1;
    if Punctuation(c).Some? {
      step := Emit(Punctuation(c).value, 1);
    } else if TwoCharOp(two).Some? {
      step := Emit(Op(TwoCharOp(two).value), 2);
    } else if OneCharOp(c).Some? {
      step := Emit(Op(OneCharOp(c).value), 1);
    } else if c == '"' || c == '\'' {
      var buf, j := StringLoop(text, i);
      assert s[1..] == text[i + 1..];
      step := if j >= |text| then Fail else Emit(Str(buf), j + 1 - i);
    } else {
      step := OtherToken(text, i);
    }
  }

  /** The branches for numbers, list references and words. */
  method OtherToken(text: string, i: nat) returns (step: Step)
    requires i < |text|
    ensures step == OtherStep(text[i..])
  {
    hide NumberStep, ListRefStep, AsNumberStep, WordStep;
    var c := text[i];
    if IsDigit(c) || (c == '-' && i + 1 < |text| && IsDigit(text[i + 1])) {
      step := NumberToken(text, i);
    } else if c == '$' {
      step := ListRefToken(text, i);
    } else if (c == 'A' || c == 'a') && i + 2 < |text| && (text[i + 1] == 'S' || text[i + 1] == 's') && IsDigit(text[i + 2]) {
      step := AsNumberToken(text, i);
    } else if IsAlpha(c) || c == '_' {
      step := WordToken(text, i);
    } else {
      step := Fail;
    }
  }

  method AsNumberToken(text: string, i: nat) returns (step: Step)
    requires i < |text| && StartsAsNumber(text[i..])
    ensures step == AsNumberStep(text[i..])
  {
    var j := SpanLoop(IsDigit, text, i + 2);
    assert text[i..][2..] == text[i + 2..] && text[i + 2..j] == text[i + 2..][..j - i - 2];
    step := Emit(Str("AS" + text[i + 2..j]), j - i);
  }

  method WordToken(text: string, i: nat) returns (step: Step)
    requires i < |text| && (IsAlpha(text[i]) || text[i] == '_')
    ensures step == WordStep(text[i..])
  {
    hide KeywordOf, Lower;
    var j := SpanLoop(IsIdentChar, text, i);
    var word := text[i..j];
    assert word == text[i..][..j - i];
    match KeywordOf(Lower(word))
    case Some(w) => step := Emit(Keyword(w), j - i);
    case None => step := Emit(Ident(word), j - i);
  }

  method NumberToken(text: string, i: nat) returns (step: Step)
    requires i < |text| && StartsNumber(text[i..])
    ensures step == NumberStep(text[i..])
  {
    var c := text[i];
    var start := if c == '-' then i + 1 else i;
    var j := SpanLoop(IsDigit, text, start);
    assert text[i..][start - i..] == text[start..] && text[start..j] == text[start..][..j - start];
    var magnitude: int := ParseNat(text[start..j]);
    step := Emit(Number(if c == '-' then -magnitude else magnitude), j - i);
  }

  method ListRefToken(text: string, i: nat) returns (step: Step)
    requires i < |text|
    ensures step == ListRefStep(text[i..])
  {
    var j := SpanLoop(IsRefChar, text, i + 1);
    var ref := text[i + 1..j];
    assert text[i..][1..] == text[i + 1..] && ref == text[i + 1..][..j - i - 1];
    var k := SpanLoop(ch => ch != ':', ref, 0);
    assert ref[0..] == ref;
    step := if k == |ref| then Fail else Emit(ListRef(ref[..k], ref[k + 1..]), j - i);
  }

  // ---------------------------------------------------------------- positions

  predicate Increasing(ts: seq<Token>) {
    forall i, j | 0 <= i < j < |ts| :: ts[i].pos < ts[j].pos
  }

  /** Exactly the last token is an end marker. */
  predicate EndsOnce(ts: seq<Token>) {
    |ts| > 0 && forall i | 0 <= i < |ts| :: ts[i].tok == Eof <==> i == |ts| - 1
  }

  /** Positions strictly increase from `off` on, and the one end marker stands at `end`. */
  predicate Placed(ts: seq<Token>, off: nat, end: nat) {
    Increasing(ts) && EndsOnce(ts) && ts[|ts| - 1].pos == end && forall i | 0 <= i < |ts| :: ts[i].pos >= off
  }

  lemma PlacedPush(tok: Tok, off: nat, ts: seq<Token>, off': nat, end: nat)
    requires tok != Eof && off < off' && Placed(ts, off', end)
    ensures Placed([Token(tok, off)] + ts, off, end)
  {
  }

  /** Whatever the text, the tokens lie in order inside it and end with the one end marker. */
  lemma {:induction false} ScanIsPlaced(s: string, off: nat)
    requires Scan(s, off).Ok?
    ensures Placed(Scan(s, off).value, off, off + |s|)
    decreases |s|
  {
    hide Next;
    if s != "" {
      var step := Next(s);
      if step.Skip? {
        ScanIsPlaced(s[1..], off + 1);
      } else {
        ScanIsPlaced(s[step.len..], off + step.len);
        PlacedPush(step.tok, off, Scan(s[step.len..], off + step.len).value, off + step.len, off + |s|);
      }
    }
  }
}
