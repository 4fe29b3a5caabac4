/** Different spellings of one token, and white space between tokens. */
module LexerSpelling {
  import opened Common
  import opened Expression
  import opened Lexer

  predicate Letter(c: char) { 'A' <= c <= 'Z' || 'a' <= c <= 'z' }

  predicate Digit(c: char) { c in {'0', '1', '2', '3', '4', '5', '6', '7', '8', '9'} }

  predicate AllDigits(s: string) {
    forall i | 0 <= i < |s| :: Digit(s[i])
  }

  /** A letter, a digit, a dot or an underscore. */
  predicate WordChar(c: char) { Letter(c) || Digit(c) || c == '.' || c == '_' }

  /** Nothing that would prolong a word follows. */
  predicate EndsWord(rest: string) {
    rest == "" || !WordChar(rest[0])
  }

  lemma SpanIs(p: char -> bool, word: string, rest: string)
    requires forall i :: 0 <= i < |word| ==> p(word[i])
    requires rest != "" ==> !p(rest[0])
    ensures Span(p, word + rest) == |word|
  {
    var s := word + rest;
    assert forall i :: 0 <= i < |word| ==> s[i] == word[i];
    assert rest != "" ==> s[|word|] == rest[0];
  }

  // ---------------------------------------------------------------- autonomous system numbers

  lemma AsNumberText(text: string, digits: string, rest: string)
    requires |text| > 2 && (text[0] == 'A' || text[0] == 'a') && (text[1] == 'S' || text[1] == 's')
    requires digits != "" && AllDigits(digits) && text[2..] == digits + rest
    requires rest != "" ==> !Digit(rest[0])
    ensures AsNumberStep(text) == Emit(Str("AS" + digits), |digits| + 2) && Next(text) == AsNumberStep(text)
  {
    hide StringBody, NumberStep, ListRefStep, WordStep, Span;
    assert text[2] == digits[0];
    SpanIs(IsDigit, digits, rest);
    assert text[2..][..|digits|] == digits;
    assert text[..2][0] == text[0];
  }

  /** as64500, AS64500 and "AS64500" are one token. */
  lemma AsNumberSpellings(a: char, s: char, digits: string, rest: string)
    requires (a == 'A' || a == 'a') && (s == 'S' || s == 's') && digits != "" && AllDigits(digits)
    requires rest != "" ==> !Digit(rest[0])
    ensures Next([a, s] + (digits + rest)) == Emit(Str("AS" + digits), |digits| + 2)
    ensures Next(['"'] + (("AS" + digits) + (['"'] + rest))) == Emit(Str("AS" + digits), |digits| + 4)
  {
    hide Next, AsNumberStep;
    AsNumberText([a, s] + (digits + rest), digits, rest);
    assert forall i :: 0 <= i < |digits| ==> ("AS" + digits)[i + 2] == digits[i];
    QuotedBody("AS" + digits, rest, '"');
  }

  // ---------------------------------------------------------------- quotes

  /** No quote, and no backslash. */
  predicate PlainBody(body: string, quote: char) {
    forall i | 0 <= i < |body| :: body[i] != quote && body[i] != '\\'
  }

  lemma {:induction false} BodyIs(body: string, rest: string, quote: char)
    requires PlainBody(body, quote) && quote != '\\'
    ensures StringBody(body + ([quote] + rest), quote) == Some((body, |body| + 1))
  {
    var s := body + ([quote] + rest);
    if body == "" {
      assert s[0] == quote;
    } else {
      BodyIs(body[1..], rest, quote);
      assert s[0] == body[0] && s[1..] == body[1..] + ([quote] + rest);
      assert [body[0]] + body[1..] == body;
    }
  }

  /** A text between double quotes and the same text between single quotes are one token. */
  lemma QuoteSpellings(body: string, rest: string)
    requires PlainBody(body, '"') && PlainBody(body, '\'')
    ensures Next(['"'] + (body + (['"'] + rest))) == Emit(Str(body), |body| + 2)
    ensures Next(['\''] + (body + (['\''] + rest))) == Emit(Str(body), |body| + 2)
  {
    QuotedBody(body, rest, '"');
    QuotedBody(body, rest, '\'');
  }

  lemma QuotedBody(body: string, rest: string, quote: char)
    requires PlainBody(body, quote) && (quote == '"' || quote == '\'')
    ensures Next([quote] + (body + ([quote] + rest))) == Emit(Str(body), |body| + 2)
  {
    hide StringBody;
    var s := [quote] + (body + ([quote] + rest));
    BodyIs(body, rest, quote);
    assert s[1..] == body + ([quote] + rest) && s[0] == quote;
    assert |s| > 1 && s[..2][0] == quote;
  }

  // ---------------------------------------------------------------- words

  /** A letter or an underscore, followed by word characters, and no number of an autonomous system. */
  predicate IsWord(word: string, rest: string) {
    && word != "" && (Letter(word[0]) || word[0] == '_') && (forall i | 0 <= i < |word| :: WordChar(word[i]))
    && !StartsAsNumber(word + rest) && EndsWord(rest)
  }

  lemma WordIsRead(word: string, rest: string)
    requires IsWord(word, rest)
    ensures Next(word + rest) == match KeywordOf(Lower(word)) case Some(w) => Emit(Keyword(w), |word|) case None => Emit(Ident(word), |word|)
  {
    hide Lower, KeywordOf, StringBody, Span;
    var s := word + rest;
    assert forall i :: 0 <= i < |word| ==> WordChar(word[i]) && IsIdentChar(word[i]);
    SpanIs(IsIdentChar, word, rest);
    assert s[..|word|] == word && s[0] == word[0];
    assert |s| > 1 ==> s[..2][0] == word[0];
  }

  /** c is the character d, or the capital of the letter d. */
  predicate CaseOf(c: char, d: char) {
    c == d || ('a' <= d <= 'z' && 'A' <= c <= 'Z' && c as int - 'A' as int == d as int - 'a' as int)
  }

  /** The word is the keyword with some of its letters capitals. */
  predicate Spells(word: string, keyword: string) {
    KeywordOf(keyword).Some? && |word| == |keyword| && forall i | 0 <= i < |word| :: CaseOf(word[i], keyword[i])
  }

  lemma KeywordsAreLowerCase(keyword: string)
    requires KeywordOf(keyword).Some?
    ensures forall i :: 0 <= i < |keyword| ==> 'a' <= keyword[i] <= 'z' || keyword[i] == '_'
  {
  }

  lemma LowerOfSpelling(word: string, keyword: string)
    requires Spells(word, keyword)
    ensures Lower(word) == keyword
  {
    hide KeywordOf;
    KeywordsAreLowerCase(keyword);
    forall i | 0 <= i < |word| ensures Lower(word)[i] == keyword[i] { }
  }

  /** A keyword is read as such however its letters are written. */
  lemma KeywordSpellings(word: string, keyword: string, rest: string)
    requires IsWord(word, rest) && Spells(word, keyword)
    ensures Next(word + rest) == Emit(Keyword(KeywordOf(keyword).value), |word|)
  {
    hide KeywordOf, Lower, Next;
    WordIsRead(word, rest);
    LowerOfSpelling(word, keyword);
  }

  /** Any other word is a name, as it is written. */
  lemma NamesAreKept(word: string, rest: string)
    requires IsWord(word, rest) && forall keyword :: !Spells(word, keyword)
    ensures Next(word + rest) == Emit(Ident(word), |word|)
  {
    hide KeywordOf, Next;
    WordIsRead(word, rest);
    if KeywordOf(Lower(word)).Some? {
      SpellsItsKeyword(word);
      assert false;
    }
  }

  lemma SpellsItsKeyword(word: string)
    requires KeywordOf(Lower(word)).Some?
    ensures Spells(word, Lower(word))
  {
    hide KeywordOf;
    KeywordsAreLowerCase(Lower(word));
  }

  // ---------------------------------------------------------------- list references

  /** What a list's name may consist of. */
  predicate NamePart(c: char) { Letter(c) || Digit(c) || c == '_' || c == '.' || c == '-' }

  predicate IsListType(s: string) {
    forall i | 0 <= i < |s| :: NamePart(s[i])
  }

  predicate IsListName(s: string) {
    forall i | 0 <= i < |s| :: NamePart(s[i]) || s[i] == ':'
  }

  /** $type:name is split at the first colon and ends where no such character follows. */
  lemma ListReferenceIsRead(listType: string, listName: string, rest: string)
    requires IsListType(listType) && IsListName(listName)
    requires rest != "" ==> !NamePart(rest[0]) && rest[0] != ':'
    ensures Next("$" + ((listType + ([':'] + listName)) + rest)) == Emit(ListRef(listType, listName), |listType| + |listName| + 2)
  {
    hide StringBody, NumberStep, WordStep, AsNumberStep, Span;
    var ref := listType + ([':'] + listName);
    var s := "$" + (ref + rest);
    assert s[1..] == ref + rest && s[0] == '$';
    assert |s| > 1 && s[..2][0] == '$';
    RefCharsAre(listType, listName);
    SpanIs(IsRefChar, ref, rest);
    assert s[1..][..|ref|] == ref;
    SpanIs(ch => ch != ':', listType, [':'] + listName);
    assert ref[..|listType|] == listType && ref[|listType| + 1..] == listName;
  }

  lemma RefCharsAre(listType: string, listName: string)
    requires IsListType(listType) && IsListName(listName)
    ensures forall i :: 0 <= i < |listType + ([':'] + listName)| ==> IsRefChar((listType + ([':'] + listName))[i])
  {
  }

  // ---------------------------------------------------------------- operators and punctuation

  lemma FirstTwo(a: char, b: char, rest: string)
    ensures var s := [a, b] + rest; s[0] == a && |s| > 1 && s[..2] == [a, b]
  {
  }

  /** The operators of two characters are read as such wherever they stand, at the end of the text as well. */
  lemma LongOperatorsAreRead(rest: string)
    ensures Next("!=" + rest) == Emit(Op(Ne), 2) && Next("!~" + rest) == Emit(Op(NotMatch), 2)
    ensures Next(">=" + rest) == Emit(Op(Ge), 2) && Next("<=" + rest) == Emit(Op(Le), 2)
  {
    hide StringBody, OtherStep;
    FirstTwo('!', '=', rest);
    FirstTwo('!', '~', rest);
    FirstTwo('>', '=', rest);
    FirstTwo('<', '=', rest);
  }

  /** The others are read whatever follows, except that > and < take an equals sign with them. */
  lemma ShortOperatorsAreRead(rest: string)
    ensures Next("=" + rest) == Emit(Op(Eq), 1) && Next("~" + rest) == Emit(Op(Match), 1)
    ensures rest == "" || rest[0] != '=' ==> Next(">" + rest) == Emit(Op(Gt), 1) && Next("<" + rest) == Emit(Op(Lt), 1)
  {
    hide StringBody, OtherStep;
    FirstOne('=', rest);
    FirstOne('~', rest);
    FirstOne('>', rest);
    FirstOne('<', rest);
  }

  lemma FirstOne(a: char, rest: string)
    ensures var s := [a] + rest; s[0] == a && (rest != "" ==> s[..2][0] == a && s[..2][1] == rest[0])
  {
  }

  /** Parentheses, brackets and commas. */
  lemma PunctuationIsRead(rest: string)
    ensures Next("(" + rest) == Emit(LParen, 1) && Next(")" + rest) == Emit(RParen, 1) && Next("," + rest) == Emit(Comma, 1)
    ensures Next("[" + rest) == Emit(LBracket, 1) && Next("]" + rest) == Emit(RBracket, 1)
  {
    hide StringBody, OtherStep;
  }

  // ---------------------------------------------------------------- white space

  /** Space, tab, line feed, carriage return, form feed and vertical tab. */
  predicate Blank(c: char) {
    c == ' ' || c == '\t' || c == '\n' || c == '\r' || c as int == 11 || c as int == 12
  }

  /** Blanks before a text only move its tokens. */
  lemma {:induction false} BlanksAreSkipped(blanks: string, text: string, off: nat)
    requires forall i :: 0 <= i < |blanks| ==> Blank(blanks[i])
    ensures Scan(blanks + text, off) == Scan(text, off + |blanks|)
  {
    if blanks == "" {
      assert blanks + text == text;
    } else {
      hide OtherStep, StringBody;
      BlanksAreSkipped(blanks[1..], text, off + 1);
      assert (blanks + text)[1..] == blanks[1..] + text;
    }
  }
}
