/** From expression text to its readings: the evaluated tree, its normal form, and the HAProxy condition emitted for that. */
module Compilation {
  import opened Common
  import opened Expression
  import opened Lexer
  import opened Parser
  import opened Grammar
  import opened GrammarSound
  import opened Printer
  import opened Dnf
  import opened DnfSize
  import opened Translation
  import opened TranslationMeaning

  lemma {:induction false} CanonicalIsInhabited(n: Node)
    requires Canonical(n)
    ensures Inhabited(n)
  {
    match n
    case And(cs) => forall i | 0 <= i < |cs| ensures Inhabited(cs[i]) { CanonicalIsInhabited(cs[i]); }
    case Or(cs) => forall i | 0 <= i < |cs| ensures Inhabited(cs[i]) { CanonicalIsInhabited(cs[i]); }
    case Not(c) => CanonicalIsInhabited(c);
    case _ =>
  }

  lemma ParsedTextIsCanonical(boolFields: set<string>, text: string)
    requires ExpressionOf(boolFields, text).Ok?
    ensures Canonical(ExpressionOf(boolFields, text).value)
  {
    hide Scan, Parse, Canonical;
    EndsOnceOf(text);
    ParsedIsCanonical(boolFields, Kinds(Scan(text, 0).value));
  }

  /**
   * Every text that parses has a normal form of leaves within the size bound, which agrees with the tree in every
   * context, both read leaf by leaf with evaluate_leaf, when no literal stands under an odd number of negations.
   */
  lemma CompiledTextAgrees(boolFields: set<string>, text: string, ctx: Context)
    requires ExpressionOf(boolFields, text).Ok?
    ensures var n := ExpressionOf(boolFields, text).value;
      && Cube(|ToDnfSpec(n)|) <= Pow3(Leaves(n)) && Shaped(ToDnfSpec(n), Leaves(n))
      && (NoOddLiteral(n, false) ==> DnfHolds(ToDnfSpec(n), ctx) == Evaluate(n, ctx))
  {
    hide ExpressionOf, Cube, Pow3, Leaves, Shaped, DnfHolds, Evaluate, NoOddLiteral;
    var n := ExpressionOf(boolFields, text).value;
    ParsedTextIsCanonical(boolFields, text);
    CanonicalIsInhabited(n);
    SizeBound(n, false);
    GroupsAreShaped(n, false);
    if NoOddLiteral(n, false) {
      DnfPreservesMeaning(n, ctx);
    }
  }

  /** The exception is reachable from text: a written "not true" evaluates to false while its normal form holds. */
  lemma MisreadTextExists(boolFields: set<string>, ctx: Context)
    ensures var text := Print(Not(Literal(true, false))); var parsed := ExpressionOf(boolFields, text);
      parsed.Ok? && !Evaluate(parsed.value, ctx) && DnfHolds(ToDnfSpec(parsed.value), ctx)
  {
    hide ExpressionOf, Print;
    ParseExpressionUndoesPrint(boolFields, Not(Literal(true, false)));
    NotTrueIsMisread(ctx);
  }

  /** The translation to HAProxy refuses every text with a literal in it. */
  lemma LiteralTextIsRefused(boolFields: set<string>, text: string, env: Environment)
    requires ExpressionOf(boolFields, text).Ok? && HasLiteral(ExpressionOf(boolFields, text).value)
    ensures TranslateSpec(env, ExpressionOf(boolFields, text).value).Err?
  {
    hide ExpressionOf, TranslateSpec;
    ParsedTextIsCanonical(boolFields, text);
    CanonicalIsInhabited(ExpressionOf(boolFields, text).value);
    LiteralsAreRefused(env, ExpressionOf(boolFields, text).value);
  }

  /** An accepted text without a dropped negation fires as it is evaluated, where samples and context agree on the bare leaves. */
  lemma AcceptedTextFiresAsEvaluated(boolFields: set<string>, text: string, env: Environment, samples: Samples, ctx: Context)
    requires ExpressionOf(boolFields, text).Ok?
    requires var n := ExpressionOf(boolFields, text).value;
      TranslateSpec(env, n).Ok? && NoDropped(env, n, false) && AgreeOn(env, n, samples, ctx)
    ensures var n := ExpressionOf(boolFields, text).value;
      TranslateSpec(env, n).Ok? && Fires(TranslateSpec(env, n).value.0, samples) == Evaluate(n, ctx)
  {
    hide ExpressionOf, TranslateSpec, NoDropped, AgreeOn, Evaluate, Translation.Fires;
    ParsedTextIsCanonical(boolFields, text);
    CanonicalIsInhabited(ExpressionOf(boolFields, text).value);
    FiresAsEvaluated(env, ExpressionOf(boolFields, text).value, samples, ctx);
  }

  /** A written `not (f != s)` on a static field is accepted and fires as `f != s` reads, whatever the samples. */
  lemma NotUnequalTextIsMisread(boolFields: set<string>, field: string, s: string, env: Environment, samples: Samples)
    requires Writable(Compare(field, Ne, StrConst(s), false)) && Drops(env, Compare(field, Ne, StrConst(s), false))
    ensures var unequal := Compare(field, Ne, StrConst(s), false);
      && ExpressionOf(boolFields, Print(Not(unequal))) == Ok(Not(unequal))
      && TranslateSpec(env, Not(unequal)).Ok?
      && Fires(TranslateSpec(env, Not(unequal)).value.0, samples) == Says(env, unequal, samples)
  {
    hide ExpressionOf, Print;
    var unequal := Compare(field, Ne, StrConst(s), false);
    ParseExpressionUndoesPrint(boolFields, Not(unequal));
    OneTermTranslates(env, unequal);
    DroppedNegationIsMisread(env, unequal, samples);
  }

  lemma OneTermTranslates(env: Environment, n: Node)
    requires n.Compare? && TranslateLeaf(env, Toggle(n)).Ok? && env.resolve(n.field).Some?
    ensures TranslateSpec(env, Not(n)).Ok?
  {
    var g: Group := [Toggle(n)];
    var groups: Groups := [g];
    assert NegDnfSpec(n) == [g] && ToDnfSpec(Not(n)) == groups;
    assert DeterminePhase(env, n).Ok? && DeterminePhase(env, Not(n)).Ok?;
    assert g[..0] == [] && groups[..0] == [];
    assert TranslateGroup(env, g[..0]) == Ok([]) && TranslateGroup(env, g).Ok?;
    assert TranslateGroups(env, groups[..0]) == Ok([]) && TranslateGroups(env, groups).Ok?;
  }
}
