/** Where a syntax error is reported: at the first token with which the text before it cannot go on. */
module ParseErrors {
  import opened Common
  import opened Expression
  import opened Lexer
  import opened Parser
  import opened Grammar
  import opened GrammarSound

  // ---------------------------------------------------------------- only the tokens seen decide

  /** How many tokens a step has looked at: those it consumed, and the one it stopped at. */
  function Seen<T>(r: Outcome<T>, ts: seq<Tok>): int {
    match r
    case Parsed(_, rest) => |ts| - |rest| + 1
    case Failed(_, left) => |ts| - left + 1
  }

  predicate Agree(ts: seq<Tok>, us: seq<Tok>, k: int) {
    k <= |ts| && k <= |us| && forall i | 0 <= i < k :: ts[i] == us[i]
  }

  /** The same value or the same error, after the same number of tokens. */
  predicate Alike<T(==)>(a: Outcome<T>, ts: seq<Tok>, b: Outcome<T>, us: seq<Tok>) {
    match a
    case Parsed(v, rest) => b.Parsed? && b.value == v && |us| - |b.rest| == |ts| - |rest|
    case Failed(e, left) => b.Failed? && b.error == e && |us| - b.left == |ts| - left
  }

  lemma AgreeAfter(ts: seq<Tok>, us: seq<Tok>, k: int, rest: seq<Tok>, rest': seq<Tok>)
    requires Agree(ts, us, k) && SuffixOf(rest, ts) && SuffixOf(rest', us) && |ts| - |rest| == |us| - |rest'|
    ensures Agree(rest, rest', k - (|ts| - |rest|))
  {
    var m := |ts| - |rest|;
    assert forall i :: 0 <= i < |rest| ==> rest[i] == ts[m + i];
    assert forall i :: 0 <= i < |rest'| ==> rest'[i] == us[m + i];
  }

  lemma TailAgrees(ts: seq<Tok>, us: seq<Tok>, k: int)
    requires Framed(ts) && Framed(us) && Agree(ts, us, k) && k >= 1 && ts[0] != Eof
    ensures us[0] == ts[0] && Agree(Tail(ts), Tail(us), k - 1)
  {
  }

  lemma LocalField(ts: seq<Tok>, us: seq<Tok>)
    requires Framed(ts) && Framed(us) && Agree(ts, us, Seen(ParseField(ts), ts))
    ensures Alike(ParseField(ts), ts, ParseField(us), us)
  {
    hide Framed, SuffixOf, Agree;
    var k := Seen(ParseField(ts), ts);
    FirstAgrees(ts, us, k);
    if ts[0].Ident? {
      TailAgrees(ts, us, k);
      var t1, u1 := Tail(ts), Tail(us);
      FirstAgrees(t1, u1, k - 1);
      if t1[0].LBracket? {
        TailAgrees(t1, u1, k - 1);
        var t2, u2 := Tail(t1), Tail(u1);
        FirstAgrees(t2, u2, k - 2);
        if t2[0].Str? {
          TailAgrees(t2, u2, k - 2);
          FirstAgrees(Tail(t2), Tail(u2), k - 3);
        }
      }
    }
  }

  lemma FirstAgrees(ts: seq<Tok>, us: seq<Tok>, k: int)
    requires Framed(ts) && Framed(us) && Agree(ts, us, k)
    ensures k >= 1 ==> ts[0] == us[0]
  {
  }

  lemma LocalValue(ts: seq<Tok>, us: seq<Tok>, bools: bool)
    requires Framed(ts) && Framed(us) && Agree(ts, us, 1)
    ensures Alike(ParseValue(ts, bools), ts, ParseValue(us, bools), us)
  {
    hide Framed, SuffixOf, Agree;
    FirstAgrees(ts, us, 1);
  }

  lemma AgreeLess(ts: seq<Tok>, us: seq<Tok>, k: int, j: int)
    requires Agree(ts, us, k) && j <= k
    ensures Agree(ts, us, j)
  {
  }

  lemma {:induction false} LocalValues(values: seq<Constant>, ts: seq<Tok>, us: seq<Tok>)
    requires Framed(ts) && Framed(us) && Agree(ts, us, Seen(ParseValues(values, ts), ts))
    ensures Alike(ParseValues(values, ts), ts, ParseValues(values, us), us)
    decreases |ts|
  {
    hide Framed, SuffixOf, Agree, ParseValue;
    var k := Seen(ParseValues(values, ts), ts);
    AgreeLess(ts, us, k, 1);
    LocalValue(ts, us, false);
    match ParseValue(ts, false)
    case Failed(_, _) =>
    case Parsed(v, rest) =>
      var rest' := ParseValue(us, false).rest;
      AgreeAfter(ts, us, k, rest, rest');
      var l := k - (|ts| - |rest|);
      FirstAgrees(rest, rest', l);
      if rest[0].Comma? {
        TailAgrees(rest, rest', l);
        LocalValues(values + [v], Tail(rest), Tail(rest'));
      }
  }

  lemma LocalIn(field: string, negated: bool, ts: seq<Tok>, us: seq<Tok>)
    requires Framed(ts) && Framed(us) && Agree(ts, us, Seen(ParseIn(field, negated, ts), ts))
    ensures Alike(ParseIn(field, negated, ts), ts, ParseIn(field, negated, us), us)
  {
    hide Framed, SuffixOf, Agree, ParseValues;
    var k := Seen(ParseIn(field, negated, ts), ts);
    FirstAgrees(ts, us, k);
    if ts[0].LBracket? {
      TailAgrees(ts, us, k);
      FirstAgrees(Tail(ts), Tail(us), k - 1);
      if !Tail(ts)[0].RBracket? {
        LocalValues([], Tail(ts), Tail(us));
      }
    }
  }

  lemma LocalComparison(field: string, op: CompareOp, bools: bool, ts: seq<Tok>, us: seq<Tok>)
    requires Framed(ts) && Framed(us) && Agree(ts, us, 1)
    ensures Alike(ParseComparison(field, op, bools, ts), ts, ParseComparison(field, op, bools, us), us)
  {
    hide Framed, SuffixOf, Agree, ParseValue;
    LocalValue(ts, us, bools);
  }

  lemma LocalOperator(field: string, negated: bool, boolFields: set<string>, ts: seq<Tok>, us: seq<Tok>)
    requires Framed(ts) && Framed(us) && Agree(ts, us, Seen(ParseOperator(field, negated, boolFields, ts), ts))
    ensures Alike(ParseOperator(field, negated, boolFields, ts), ts, ParseOperator(field, negated, boolFields, us), us)
  {
    hide Framed, SuffixOf, Agree, ParseIn, ParseComparison;
    var k := Seen(ParseOperator(field, negated, boolFields, ts), ts);
    var t := ts[0];
    FirstAgrees(ts, us, k);
    if t == Keyword(KwIn) {
      TailAgrees(ts, us, k);
      LocalIn(field, negated, Tail(ts), Tail(us));
    } else if t.Keyword? && WordOp(t.word).Some? {
      TailAgrees(ts, us, k);
      AgreeLess(Tail(ts), Tail(us), k - 1, 1);
      LocalComparison(field, WordOp(t.word).value, false, Tail(ts), Tail(us));
    } else if t.Op? {
      TailAgrees(ts, us, k);
      AgreeLess(Tail(ts), Tail(us), k - 1, 1);
      LocalComparison(field, t.op, true, Tail(ts), Tail(us));
    }
  }

  lemma LocalCondition(boolFields: set<string>, ts: seq<Tok>, us: seq<Tok>)
    requires Framed(ts) && Framed(us) && Agree(ts, us, Seen(ParseCondition(boolFields, ts), ts))
    ensures Alike(ParseCondition(boolFields, ts), ts, ParseCondition(boolFields, us), us)
  {
    hide Framed, Agree, ParseField, ParseOperator;
    var k := Seen(ParseCondition(boolFields, ts), ts);
    match ParseField(ts)
    case Failed(_, _) => LocalField(ts, us);
    case Parsed(f, rest) =>
      AgreeLess(ts, us, k, Seen(ParseField(ts), ts));
      LocalField(ts, us);
      var rest' := ParseField(us).rest;
      AgreeAfter(ts, us, k, rest, rest');
      var l := k - (|ts| - |rest|);
      FirstAgrees(rest, rest', l);
      if rest[0] != Keyword(KwNot) {
        LocalOperator(FieldText(f), false, boolFields, rest, rest');
      } else {
        TailAgrees(rest, rest', l);
        FirstAgrees(Tail(rest), Tail(rest'), l - 1);
        if Tail(rest)[0] == Keyword(KwIn) || Tail(rest)[0] == Keyword(KwExists) {
          LocalOperator(FieldText(f), true, boolFields, Tail(rest), Tail(rest'));
        }
      }
  }

  lemma {:induction false} LocalOr(boolFields: set<string>, ts: seq<Tok>, us: seq<Tok>)
    requires Framed(ts) && Framed(us) && Agree(ts, us, Seen(ParseOr(boolFields, ts), ts))
    ensures Alike(ParseOr(boolFields, ts), ts, ParseOr(boolFields, us), us)
    decreases |ts|, 4
  {
    hide Framed, Agree, ParseAnd, ParseOrs;
    var k := Seen(ParseOr(boolFields, ts), ts);
    match ParseAnd(boolFields, ts)
    case Failed(_, _) => LocalAnd(boolFields, ts, us);
    case Parsed(n, rest) =>
      AgreeLess(ts, us, k, Seen(ParseAnd(boolFields, ts), ts));
      LocalAnd(boolFields, ts, us);
      var rest' := ParseAnd(boolFields, us).rest;
      AgreeAfter(ts, us, k, rest, rest');
      LocalOrs(boolFields, [n], rest, rest');
  }

  lemma {:induction false} LocalOrs(boolFields: set<string>, children: seq<Node>, ts: seq<Tok>, us: seq<Tok>)
    requires Framed(ts) && Framed(us) && children != [] && Agree(ts, us, Seen(ParseOrs(boolFields, children, ts), ts))
    ensures Alike(ParseOrs(boolFields, children, ts), ts, ParseOrs(boolFields, children, us), us)
    decreases |ts|, 5
  {
    hide Framed, Agree, ParseAnd;
    var k := Seen(ParseOrs(boolFields, children, ts), ts);
    FirstAgrees(ts, us, k);
    if ts[0] == Keyword(KwOr) {
      TailAgrees(ts, us, k);
      match ParseAnd(boolFields, Tail(ts))
      case Failed(_, _) => LocalAnd(boolFields, Tail(ts), Tail(us));
      case Parsed(n, rest) =>
        AgreeLess(Tail(ts), Tail(us), k - 1, Seen(ParseAnd(boolFields, Tail(ts)), Tail(ts)));
        LocalAnd(boolFields, Tail(ts), Tail(us));
        var rest' := ParseAnd(boolFields, Tail(us)).rest;
        AgreeAfter(Tail(ts), Tail(us), k - 1, rest, rest');
        LocalOrs(boolFields, children + [n], rest, rest');
    }
  }

  lemma {:induction false} LocalAnd(boolFields: set<string>, ts: seq<Tok>, us: seq<Tok>)
    requires Framed(ts) && Framed(us) && Agree(ts, us, Seen(ParseAnd(boolFields, ts), ts))
    ensures Alike(ParseAnd(boolFields, ts), ts, ParseAnd(boolFields, us), us)
    decreases |ts|, 2
  {
    hide Framed, Agree, ParseNot, ParseAnds;
    var k := Seen(ParseAnd(boolFields, ts), ts);
    match ParseNot(boolFields, ts)
    case Failed(_, _) => LocalNot(boolFields, ts, us);
    case Parsed(n, rest) =>
      AgreeLess(ts, us, k, Seen(ParseNot(boolFields, ts), ts));
      LocalNot(boolFields, ts, us);
      var rest' := ParseNot(boolFields, us).rest;
      AgreeAfter(ts, us, k, rest, rest');
      LocalAnds(boolFields, [n], rest, rest');
  }

  lemma {:induction false} LocalAnds(boolFields: set<string>, children: seq<Node>, ts: seq<Tok>, us: seq<Tok>)
    requires Framed(ts) && Framed(us) && children != [] && Agree(ts, us, Seen(ParseAnds(boolFields, children, ts), ts))
    ensures Alike(ParseAnds(boolFields, children, ts), ts, ParseAnds(boolFields, children, us), us)
    decreases |ts|, 3
  {
    hide Framed, Agree, ParseNot;
    var k := Seen(ParseAnds(boolFields, children, ts), ts);
    FirstAgrees(ts, us, k);
    if ts[0] == Keyword(KwAnd) {
      TailAgrees(ts, us, k);
      match ParseNot(boolFields, Tail(ts))
      case Failed(_, _) => LocalNot(boolFields, Tail(ts), Tail(us));
      case Parsed(n, rest) =>
        AgreeLess(Tail(ts), Tail(us), k - 1, Seen(ParseNot(boolFields, Tail(ts)), Tail(ts)));
        LocalNot(boolFields, Tail(ts), Tail(us));
        var rest' := ParseNot(boolFields, Tail(us)).rest;
        AgreeAfter(Tail(ts), Tail(us), k - 1, rest, rest');
        LocalAnds(boolFields, children + [n], rest, rest');
    }
  }

  lemma {:induction false} LocalNot(boolFields: set<string>, ts: seq<Tok>, us: seq<Tok>)
    requires Framed(ts) && Framed(us) && Agree(ts, us, Seen(ParseNot(boolFields, ts), ts))
    ensures Alike(ParseNot(boolFields, ts), ts, ParseNot(boolFields, us), us)
    decreases |ts|, 1
  {
    hide Framed, SuffixOf, Agree, ParsePrimary;
    var k := Seen(ParseNot(boolFields, ts), ts);
    FirstAgrees(ts, us, k);
    if ts[0] == Keyword(KwNot) {
      TailAgrees(ts, us, k);
      LocalNot(boolFields, Tail(ts), Tail(us));
    } else {
      LocalPrimary(boolFields, ts, us);
    }
  }

  lemma {:induction false} LocalPrimary(boolFields: set<string>, ts: seq<Tok>, us: seq<Tok>)
    requires Framed(ts) && Framed(us) && Agree(ts, us, Seen(ParsePrimary(boolFields, ts), ts))
    ensures Alike(ParsePrimary(boolFields, ts), ts, ParsePrimary(boolFields, us), us)
    decreases |ts|, 0
  {
    hide Framed, SuffixOf, Agree, ParseOr, ParseCondition;
    var k := Seen(ParsePrimary(boolFields, ts), ts);
    FirstAgrees(ts, us, k);
    if ts[0].LParen? {
      TailAgrees(ts, us, k);
      match ParseOr(boolFields, Tail(ts))
      case Failed(_, _) => LocalOr(boolFields, Tail(ts), Tail(us));
      case Parsed(n, rest) =>
        AgreeLess(Tail(ts), Tail(us), k - 1, Seen(ParseOr(boolFields, Tail(ts)), Tail(ts)));
        LocalOr(boolFields, Tail(ts), Tail(us));
        var rest' := ParseOr(boolFields, Tail(us)).rest;
        AgreeAfter(Tail(ts), Tail(us), k - 1, rest, rest');
        FirstAgrees(rest, rest', k - 1 - (|Tail(ts)| - |rest|));
    } else if ts[0] != Keyword(KwTrue) && ts[0] != Keyword(KwFalse) {
      LocalCondition(boolFields, ts, us);
    }
  }

  /** The tokens up to and including the one an error is reported at decide it: whatever follows them, it is the same error there. */
  lemma ErrorIsNotPremature(boolFields: set<string>, ts: seq<Tok>, us: seq<Tok>)
    requires Framed(ts) && Framed(us) && Parse(boolFields, ts).Failed?
    requires var k := |ts| - Parse(boolFields, ts).left; k < |us| && ts[..k + 1] == us[..k + 1]
    ensures Parse(boolFields, us) == Failed(Parse(boolFields, ts).error, |us| - (|ts| - Parse(boolFields, ts).left))
  {
    hide Framed, SuffixOf, ParseOr;
    var k := |ts| - Parse(boolFields, ts).left;
    assert forall i :: 0 <= i < k + 1 ==> ts[i] == ts[..k + 1][i] == us[i];
    assert Agree(ts, us, k + 1);
    LocalOr(boolFields, ts, us);
    match ParseOr(boolFields, ts)
    case Failed(_, _) =>
    case Parsed(n, rest) =>
      AgreeAfter(ts, us, k + 1, rest, ParseOr(boolFields, us).rest);
      FirstAgrees(rest, ParseOr(boolFields, us).rest, 1);
  }

  // ---------------------------------------------------------------- what was read before an error can go on

  /** How many tokens were read before the error. */
  function Before<T>(r: Outcome<T>, ts: seq<Tok>): int
    requires r.Failed?
  {
    |ts| - r.left
  }

  lemma AgreePrepend(a: seq<Tok>, ts: seq<Tok>, us: seq<Tok>, k: int)
    requires Agree(ts, us, k)
    ensures Agree(a + ts, a + us, |a| + k)
  {
    assert forall i :: 0 <= i < k ==> (a + ts)[|a| + i] == ts[i] && (a + us)[|a| + i] == us[i];
    assert forall i :: 0 <= i < |a| ==> (a + ts)[i] == a[i] && (a + us)[i] == a[i];
    forall i | 0 <= i < |a| + k ensures (a + ts)[i] == (a + us)[i] {
      if i >= |a| { assert (a + ts)[|a| + (i - |a|)] == ts[i - |a|]; }
    }
  }

  lemma AgreeMore(ts: seq<Tok>, us: seq<Tok>, more: seq<Tok>, k: int)
    requires Agree(ts, us, k)
    ensures Agree(ts, us + more, k)
  {
    assert forall i :: 0 <= i < |us| ==> (us + more)[i] == us[i];
  }

  lemma AgreeNothing(ts: seq<Tok>, us: seq<Tok>)
    ensures Agree(ts, us, 0)
  {
  }

  lemma AgreeWhole(a: seq<Tok>, rest: seq<Tok>, more: seq<Tok>)
    ensures Agree(a + rest, a + more, |a|)
  {
    AgreeNothing(rest, more);
    AgreePrepend(a, rest, more, 0);
  }

  lemma ViableField(ts: seq<Tok>) returns (f: FieldForm)
    requires Framed(ts) && ParseField(ts).Failed?
    ensures Agree(ts, FieldToks(f), Before(ParseField(ts), ts))
  {
    hide Framed;
    if !ts[0].Ident? {
      f := Plain("");
    } else {
      TailSplit(ts);
      var t1 := Tail(ts);
      TailSplit(t1);
      var t2 := Tail(t1);
      f := Keyed(ts[0].name, if t2[0].Str? then t2[0].s else "");
      if t2[0].Str? { TailSplit(t2); }
    }
  }

  lemma {:induction false} ViableValues(read: seq<Constant>, ts: seq<Tok>) returns (v: Constant, more: seq<Constant>)
    requires Framed(ts) && ParseValues(read, ts).Failed?
    ensures Agree(ts, [ValueTok(v)] + MoreValues(more), Before(ParseValues(read, ts), ts))
    ensures !v.BoolConst? && forall i :: 0 <= i < |more| ==> !more[i].BoolConst?
    decreases |ts|
  {
    hide Framed, SuffixOf, ParseValue, Agree;
    match ParseValue(ts, false)
    case Failed(_, left) =>
      v, more := IntConst(0), [];
      assert left == |ts| by { ValueFailsAtOnce(ts, false); }
      AgreeNothing(ts, [ValueTok(v)] + MoreValues(more));
    case Parsed(value, rest) =>
      SoundValue(ts, false);
      v := value;
      if rest[0].Comma? {
        TailSplit(rest);
        var first, others := ViableValues(read + [value], Tail(rest));
        more := [first] + others;
        assert more[0] == first && more[1..] == others;
        var k := Before(ParseValues(read + [value], Tail(rest)), Tail(rest));
        AgreePrepend([Comma], Tail(rest), [ValueTok(first)] + MoreValues(others), k);
        AgreePrepend([ValueTok(v)], rest, MoreValues(more), k + 1);
      } else {
        more := [];
        AgreeWhole([ValueTok(v)], rest, MoreValues(more));
      }
  }

  lemma ValueFailsAtOnce(ts: seq<Tok>, bools: bool)
    requires Framed(ts) && ParseValue(ts, bools).Failed?
    ensures ParseValue(ts, bools).left == |ts|
  {
  }

  lemma ViableList(field: string, negated: bool, ts: seq<Tok>) returns (values: seq<Constant>)
    requires Framed(ts) && ts[0] == LBracket && ParseIn(field, negated, ts).Failed?
    ensures Agree(ts, ListToks(values), Before(ParseIn(field, negated, ts), ts))
    ensures forall i :: 0 <= i < |values| ==> !values[i].BoolConst?
  {
    hide Framed, SuffixOf, Advances, ParseValues, MoreValues, Agree;
    TailSplit(ts);
    var t1 := Tail(ts);
    var v, more := ViableValues([], t1);
    values := [v] + more;
    assert values[0] == v && values[1..] == more;
    AgreePrepend([LBracket], t1, [ValueTok(v)] + MoreValues(more), Before(ParseValues([], t1), t1));
  }

  lemma ViableIn(f: FieldForm, negated: bool, ts: seq<Tok>) returns (c: Condition)
    requires Framed(ts) && ParseIn(FieldText(f), negated, ts).Failed?
    ensures c.InListForm? || (c.InValuesForm? && forall i :: 0 <= i < |c.values| ==> !c.values[i].BoolConst?)
    ensures c.field == f && c.negated == negated
    ensures Agree([Keyword(KwIn)] + ts, CoreToks(c), Before(ParseIn(FieldText(f), negated, ts), ts) + 1)
  {
    hide Framed, SuffixOf, Advances, ParseValues, FieldText, ListToks, Agree;
    if ts[0].LBracket? {
      var values := ViableList(FieldText(f), negated, ts);
      c := InValuesForm(f, negated, values);
      AgreePrepend([Keyword(KwIn)], ts, ListToks(values), Before(ParseIn(FieldText(f), negated, ts), ts));
    } else {
      c := InListForm(f, negated, "", "");
      AgreeWhole([Keyword(KwIn)], ts, [ListRef("", "")]);
      assert CoreToks(c) == [Keyword(KwIn)] + [ListRef("", "")];
    }
  }

  lemma ViableOperator(boolFields: set<string>, f: FieldForm, negated: bool, ts: seq<Tok>) returns (c: Condition)
    requires Framed(ts) && (negated ==> ts[0] == Keyword(KwIn) || ts[0] == Keyword(KwExists))
    requires ParseOperator(FieldText(f), negated, boolFields, ts).Failed?
    ensures ValidCondition(boolFields, c) && c.field == f && Negated(c) == negated
    ensures Agree(ts, CoreToks(c), Before(ParseOperator(FieldText(f), negated, boolFields, ts), ts))
  {
    hide Framed, SuffixOf, Advances, ParseValue, ParseIn, FieldText, ListToks, Agree;
    var t := ts[0];
    if t == Keyword(KwIn) {
      TailSplit(ts);
      c := ViableIn(f, negated, Tail(ts));
    } else if !EndsCondition(t) && (t.Op? || (t.Keyword? && WordOp(t.word).Some?)) {
      var op, bools := if t.Op? then t.op else WordOp(t.word).value, t.Op?;
      TailSplit(ts);
      ValueFailsAtOnce(Tail(ts), bools);
      c := CompareForm(f, op, IntConst(0));
      AgreeWhole([t], Tail(ts), [Number(0)]);
      assert CoreToks(c) == [t] + [Number(0)];
    } else {
      c := ExistsForm(f, negated);
      AgreeNothing(ts, CoreToks(c));
    }
  }

  lemma ViableCondition(boolFields: set<string>, ts: seq<Tok>) returns (c: Condition)
    requires Framed(ts) && ParseCondition(boolFields, ts).Failed?
    ensures ValidCondition(boolFields, c) && Agree(ts, ConditionToks(c), Before(ParseCondition(boolFields, ts), ts))
  {
    hide Framed, SuffixOf, ParseField, ParseOperator, FieldText, FieldToks, Agree;
    match ParseField(ts)
    case Failed(_, _) =>
      var f := ViableField(ts);
      c := ExistsForm(f, false);
      AgreeMore(ts, FieldToks(f), NotToks(false) + CoreToks(c), Before(ParseField(ts), ts));
    case Parsed(f, rest) =>
      SoundField(ts);
      if rest[0] != Keyword(KwNot) {
        c := ViableOperator(boolFields, f, false, rest);
        var k := Before(ParseOperator(FieldText(f), false, boolFields, rest), rest);
        assert NotToks(false) + CoreToks(c) == CoreToks(c);
        AgreePrepend(FieldToks(f), rest, CoreToks(c), k);
      } else {
        var after := Tail(rest);
        TailSplit(rest);
        if after[0] != Keyword(KwIn) && after[0] != Keyword(KwExists) {
          c := ExistsForm(f, true);
          AgreeWhole([Keyword(KwNot)], after, CoreToks(c));
          AgreePrepend(FieldToks(f), rest, NotToks(true) + CoreToks(c), 1);
        } else {
          c := ViableOperator(boolFields, f, true, after);
          var k := Before(ParseOperator(FieldText(f), true, boolFields, after), after);
          AgreePrepend([Keyword(KwNot)], after, CoreToks(c), k);
          AgreePrepend(FieldToks(f), rest, NotToks(true) + CoreToks(c), k + 1);
        }
      }
  }

  lemma {:induction false} ViableOr(boolFields: set<string>, ts: seq<Tok>) returns (d: OrExpr)
    requires Framed(ts) && ParseOr(boolFields, ts).Failed?
    ensures ValidOr(boolFields, d) && Agree(ts, OrToks(d), Before(ParseOr(boolFields, ts), ts))
    decreases |ts|, 4
  {
    hide Framed, SuffixOf, ParseAnd, ParseOrs, ValidAnd, AndToks, Agree;
    match ParseAnd(boolFields, ts)
    case Failed(_, _) =>
      var a := ViableAnd(boolFields, ts);
      d := OrExpr([a]);
      assert OrToks(d) == AndToks(a) + MoreAnds([]);
      AgreeMore(ts, AndToks(a), MoreAnds([]), Before(ParseAnd(boolFields, ts), ts));
    case Parsed(n, rest) =>
      var first := SoundAnd(boolFields, ts);
      var more := ViableOrs(boolFields, [n], rest);
      d := OrExpr([first] + more);
      assert d.parts[0] == first && d.parts[1..] == more;
      AgreePrepend(AndToks(first), rest, MoreAnds(more), Before(ParseOrs(boolFields, [n], rest), rest));
  }

  lemma {:induction false} ViableOrs(boolFields: set<string>, children: seq<Node>, ts: seq<Tok>) returns (more: seq<AndExpr>)
    requires Framed(ts) && children != [] && ParseOrs(boolFields, children, ts).Failed?
    ensures forall i :: 0 <= i < |more| ==> ValidAnd(boolFields, more[i])
    ensures Agree(ts, MoreAnds(more), Before(ParseOrs(boolFields, children, ts), ts))
    decreases |ts|, 5
  {
    hide Framed, SuffixOf, ParseAnd, ValidAnd, AndToks, MoreAnds, Agree;
    TailSplit(ts);
    var t := Tail(ts);
    match ParseAnd(boolFields, t)
    case Failed(_, _) =>
      var a := ViableAnd(boolFields, t);
      more := [a] + [];
      MoreAndsCons(a, []);
      AgreeMore(t, AndToks(a), MoreAnds([]), Before(ParseAnd(boolFields, t), t));
      AgreePrepend([Keyword(KwOr)], t, AndToks(a) + MoreAnds([]), Before(ParseAnd(boolFields, t), t));
    case Parsed(n, rest) =>
      var next := SoundAnd(boolFields, t);
      var others := ViableOrs(boolFields, children + [n], rest);
      var k := Before(ParseOrs(boolFields, children + [n], rest), rest);
      more := [next] + others;
      MoreAndsCons(next, others);
      AgreePrepend(AndToks(next), rest, MoreAnds(others), k);
      AgreePrepend([Keyword(KwOr)], t, AndToks(next) + MoreAnds(others), |AndToks(next)| + k);
  }

  lemma {:induction false} ViableAnd(boolFields: set<string>, ts: seq<Tok>) returns (d: AndExpr)
    requires Framed(ts) && ParseAnd(boolFields, ts).Failed?
    ensures ValidAnd(boolFields, d) && Agree(ts, AndToks(d), Before(ParseAnd(boolFields, ts), ts))
    decreases |ts|, 2
  {
    hide Framed, SuffixOf, ParseNot, ParseAnds, ValidNot, NotExprToks, Agree;
    match ParseNot(boolFields, ts)
    case Failed(_, _) =>
      var a := ViableNot(boolFields, ts);
      d := AndExpr([a]);
      assert AndToks(d) == NotExprToks(a) + MoreNots([]);
      AgreeMore(ts, NotExprToks(a), MoreNots([]), Before(ParseNot(boolFields, ts), ts));
    case Parsed(n, rest) =>
      var first := SoundNot(boolFields, ts);
      var more := ViableAnds(boolFields, [n], rest);
      d := AndExpr([first] + more);
      assert d.parts[0] == first && d.parts[1..] == more;
      AgreePrepend(NotExprToks(first), rest, MoreNots(more), Before(ParseAnds(boolFields, [n], rest), rest));
  }

  lemma {:induction false} ViableAnds(boolFields: set<string>, children: seq<Node>, ts: seq<Tok>) returns (more: seq<NotExpr>)
    requires Framed(ts) && children != [] && ParseAnds(boolFields, children, ts).Failed?
    ensures forall i :: 0 <= i < |more| ==> ValidNot(boolFields, more[i])
    ensures Agree(ts, MoreNots(more), Before(ParseAnds(boolFields, children, ts), ts))
    decreases |ts|, 3
  {
    hide Framed, SuffixOf, ParseNot, ValidNot, NotExprToks, MoreNots, Agree;
    TailSplit(ts);
    var t := Tail(ts);
    match ParseNot(boolFields, t)
    case Failed(_, _) =>
      var a := ViableNot(boolFields, t);
      more := [a] + [];
      MoreNotsCons(a, []);
      AgreeMore(t, NotExprToks(a), MoreNots([]), Before(ParseNot(boolFields, t), t));
      AgreePrepend([Keyword(KwAnd)], t, NotExprToks(a) + MoreNots([]), Before(ParseNot(boolFields, t), t));
    case Parsed(n, rest) =>
      var next := SoundNot(boolFields, t);
      var others := ViableAnds(boolFields, children + [n], rest);
      var k := Before(ParseAnds(boolFields, children + [n], rest), rest);
      more := [next] + others;
      MoreNotsCons(next, others);
      AgreePrepend(NotExprToks(next), rest, MoreNots(others), k);
      AgreePrepend([Keyword(KwAnd)], t, NotExprToks(next) + MoreNots(others), |NotExprToks(next)| + k);
  }

  lemma {:induction false} ViableNot(boolFields: set<string>, ts: seq<Tok>) returns (d: NotExpr)
    requires Framed(ts) && ParseNot(boolFields, ts).Failed?
    ensures ValidNot(boolFields, d) && Agree(ts, NotExprToks(d), Before(ParseNot(boolFields, ts), ts))
    decreases |ts|, 1
  {
    hide Framed, SuffixOf, ParsePrimary, Agree;
    if ts[0] == Keyword(KwNot) {
      TailSplit(ts);
      var inner := ViableNot(boolFields, Tail(ts));
      d := Negation(inner);
      AgreePrepend([Keyword(KwNot)], Tail(ts), NotExprToks(inner), Before(ParseNot(boolFields, Tail(ts)), Tail(ts)));
    } else {
      d := ViablePrimary(boolFields, ts);
    }
  }

  lemma {:induction false} ViablePrimary(boolFields: set<string>, ts: seq<Tok>) returns (d: NotExpr)
    requires Framed(ts) && ParsePrimary(boolFields, ts).Failed?
    ensures ValidNot(boolFields, d) && Agree(ts, NotExprToks(d), Before(ParsePrimary(boolFields, ts), ts))
    decreases |ts|, 0
  {
    hide Framed, SuffixOf, ParseOr, ParseCondition, ValidOr, ValidCondition, OrToks, ConditionToks, Agree;
    if ts[0].LParen? {
      TailSplit(ts);
      var t := Tail(ts);
      match ParseOr(boolFields, t)
      case Failed(_, _) =>
        var body := ViableOr(boolFields, t);
        d := Parens(body);
        AgreeMore(t, OrToks(body), [RParen], Before(ParseOr(boolFields, t), t));
        AgreePrepend([LParen], t, OrToks(body) + [RParen], Before(ParseOr(boolFields, t), t));
      case Parsed(n, rest) =>
        var body := SoundOr(boolFields, t);
        d := Parens(body);
        AgreeWhole(OrToks(body), rest, [RParen]);
        AgreePrepend([LParen], t, OrToks(body) + [RParen], |OrToks(body)|);
    } else {
      var c := ViableCondition(boolFields, ts);
      d := Leaf(c);
    }
  }

  /** What was read before an error is the beginning of some expression that is accepted. */
  lemma ErrorIsNotLate(boolFields: set<string>, ts: seq<Tok>)
    requires Framed(ts) && Parse(boolFields, ts).Failed?
    ensures exists us :: Framed(us) && Parse(boolFields, us).Parsed? && Agree(ts, us, |ts| - Parse(boolFields, ts).left)
  {
    hide Framed, SuffixOf, ParseOr, Agree, OrToks, ValidOr, OrAst;
    var k := |ts| - Parse(boolFields, ts).left;
    var d: OrExpr;
    match ParseOr(boolFields, ts) {
      case Failed(_, _) =>
        d := ViableOr(boolFields, ts);
      case Parsed(n, rest) =>
        d := SoundOr(boolFields, ts);
        AgreeWhole(OrToks(d), rest, []);
        assert OrToks(d) + [] == OrToks(d);
    }
    AgreeMore(ts, OrToks(d), [Eof], k);
    ParserIsComplete(boolFields, d);
  }

  /** Some accepted expression begins with the first k tokens. */
  ghost predicate Viable(boolFields: set<string>, ts: seq<Tok>, k: int) {
    exists us :: Framed(us) && Parse(boolFields, us).Parsed? && Agree(ts, us, k)
  }

  /** The first `at` tokens begin some accepted expression, and no more of them do. */
  ghost predicate FirstBadToken(boolFields: set<string>, ts: seq<Tok>, at: int) {
    forall k | 0 <= k <= |ts| :: Viable(boolFields, ts, k) <==> k <= at
  }

  /**
   * A syntax error is reported at exactly the first token with which what was read cannot go on: the tokens before it begin
   * some accepted expression, and together with it they begin none.
   */
  lemma ErrorIsAtFirstBadToken(boolFields: set<string>, ts: seq<Tok>)
    requires Framed(ts) && Parse(boolFields, ts).Failed?
    ensures FirstBadToken(boolFields, ts, |ts| - Parse(boolFields, ts).left)
  {
    hide Framed, SuffixOf, Parse;
    var at := |ts| - Parse(boolFields, ts).left;
    ErrorIsNotLate(boolFields, ts);
    forall k | 0 <= k <= |ts| ensures Viable(boolFields, ts, k) <==> k <= at {
      if k <= at {
        var us :| Framed(us) && Parse(boolFields, us).Parsed? && Agree(ts, us, at);
        assert Agree(ts, us, k);
      } else if Viable(boolFields, ts, k) {
        var us :| Framed(us) && Parse(boolFields, us).Parsed? && Agree(ts, us, k);
        assert ts[..at + 1] == us[..at + 1];
        ErrorIsNotPremature(boolFields, ts, us);
        assert false;
      }
    }
  }

  /** The position that parse_expression reports for a syntax error is that of this token in the text. */
  lemma ReportedPosition(boolFields: set<string>, text: string)
    requires ExpressionOf(boolFields, text).Err? && ExpressionOf(boolFields, text).error.BadSyntax?
    ensures Scan(text, 0).Ok?
    ensures var tokens, pos := Scan(text, 0).value, ExpressionOf(boolFields, text).error.error.pos;
      exists at :: 0 <= at < |tokens| && FirstBadToken(boolFields, Kinds(tokens), at) && pos == tokens[at].pos
  {
    hide Scan, Parse, Framed, FirstBadToken, IsSpace;
    var tokens := Scan(text, 0).value;
    EndsOnceOf(text);
    ErrorIsAtFirstBadToken(boolFields, Kinds(tokens));
    var at := |tokens| - Parse(boolFields, Kinds(tokens)).left;
    assert ExpressionOf(boolFields, text).error.error.pos == tokens[at].pos;
  }
}
