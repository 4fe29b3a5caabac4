/** How the fragments of one field relate to each other and to the evaluator's operators, for opaque tests. */
module TranslatedLeaves {
  import opened Common
  import opened Expression
  import opened DnfSize
  import opened OperatorLaws
  import opened Translation
  import opened TranslationMeaning
  import Lexer

  /** `field op value`. */
  function Comparison(field: string, op: CompareOp, value: Constant): Node {
    Compare(field, op, value, false)
  }

  /** A field of the static tables that is translated by the general branches. */
  predicate Static(env: Environment, field: string) {
    && env.resolve(field).Some? && (field == "" || env.risk(field) == NoRisk)
    && field != SCHEME_FIELD && env.resolve(field).value.fetch != QUERY_FETCH
  }

  /** A field of a risk ruleset that exists. */
  predicate OfRuleset(env: Environment, field: string) {
    field != "" && env.risk(field).RiskFetch?
  }

  // ---------------------------------------------------------------- what is accepted

  /** The comparisons that are translated are those whose operator applies to the constant. */
  lemma OperatorAcceptedExactlyWhen(env: Environment, field: string, op: CompareOp, value: Constant)
    requires Static(env, field) || OfRuleset(env, field)
    ensures TranslateLeaf(env, Comparison(field, op, value)).Ok? <==> Applies(op, value)
  {
  }

  /** So the translation refuses exactly the comparisons that the evaluator finds false in every context. */
  lemma RefusedExactlyWhenNeverTrue(env: Environment, field: string, op: CompareOp, value: Constant)
    requires Static(env, field) || OfRuleset(env, field)
    requires BracketParts(field).None?
    ensures TranslateLeaf(env, Comparison(field, op, value)).Err? <==> forall ctx :: !Compares(field, op, value, ctx)
  {
    hide TranslateLeaf, Compares, BracketParts;
    OperatorAcceptedExactlyWhen(env, field, op, value);
    AppliesExactlyWhenSatisfiable(field, op, value);
  }

  /** A list of literals is translated when it is not empty and holds texts only, or no text. */
  lemma LiteralsAcceptedExactlyWhen(env: Environment, field: string, values: seq<Constant>, negated: bool)
    requires Static(env, field)
    ensures TranslateLeaf(env, InLiterals(field, values, negated)).Ok?
       <==> values != [] && ((forall v :: v in values ==> v.StrConst?) || (forall v :: v in values ==> !v.StrConst?))
  {
    assert AllStrings(values) <==> forall v :: v in values ==> v.StrConst?;
    assert AllInts(values) <==> forall v :: v in values ==> !v.StrConst?;
  }

  /** A list reference is translated when its type is known and the list exists, and for pattern lists when the field is a text. */
  lemma ListAcceptedExactlyWhen(env: Environment, field: string, listType: string, listName: string, negated: bool)
    requires Static(env, field)
    ensures TranslateLeaf(env, InList(field, listType, listName, negated)).Ok?
       <==> (listType == "network" || listType == "asn" || listType == "geo" || listType == "ja4"
             || (listType == "pattern" && env.resolve(field).value.isString))
            && env.listExists(listType, listName)
  {
  }

  // ---------------------------------------------------------------- how fragments relate

  /** `!=` and `!~` are emitted as the complements of `=` and `~`. */
  lemma NegativeOperatorsComplement(env: Environment, field: string, value: Constant, samples: Samples)
    requires (Static(env, field) || OfRuleset(env, field)) && !value.BoolConst?
    ensures Emits(env, Comparison(field, Ne, value), samples) != Emits(env, Comparison(field, Eq, value), samples)
    ensures value.StrConst? ==> Emits(env, Comparison(field, NotMatch, value), samples) != Emits(env, Comparison(field, Match, value), samples)
  {
  }

  /** `f = true` is emitted like the bare field, `f = false` as its complement. */
  lemma BooleanComparisons(env: Environment, field: string, samples: Samples)
    requires Static(env, field) || OfRuleset(env, field)
    ensures Emits(env, Comparison(field, Eq, BoolConst(true)), samples) == Emits(env, BoolField(field, false), samples)
    ensures Emits(env, Comparison(field, Eq, BoolConst(false)), samples) != Emits(env, BoolField(field, false), samples)
  {
  }

  /** Of the schemes http and https exactly one is emitted as true; no other scheme and no other operator is accepted. */
  lemma SchemesExclude(env: Environment, op: CompareOp, value: Constant, samples: Samples)
    requires env.resolve(SCHEME_FIELD).Some? && env.risk(SCHEME_FIELD) == NoRisk
    ensures Emits(env, Comparison(SCHEME_FIELD, Eq, StrConst("https")), samples) != Emits(env, Comparison(SCHEME_FIELD, Eq, StrConst("http")), samples)
    ensures samples(IsTls) ==> Emits(env, Comparison(SCHEME_FIELD, Eq, StrConst("https")), samples)
    ensures TranslateLeaf(env, Comparison(SCHEME_FIELD, op, value)).Ok?
       <==> op == Eq && value.StrConst? && (Lexer.Lower(value.s) == "https" || Lexer.Lower(value.s) == "http")
  {
    assert Lexer.Lower("https") == "https" && Lexer.Lower("http") == "http";
  }

  function FetchOf(env: Environment, field: string): string
    requires Static(env, field) || OfRuleset(env, field)
  {
    if OfRuleset(env, field) then env.risk(field).fetch else env.resolve(field).value.fetch
  }

  lemma FragmentOf(env: Environment, field: string, op: CompareOp, value: Constant)
    requires Static(env, field) || OfRuleset(env, field)
    ensures TranslateLeaf(env, Comparison(field, op, value)) == CompareFragment(FetchOf(env, field), field, op, value)
  {
  }

  lemma FragmentsTellApart(fetch: string, field: string, op1: CompareOp, v1: Constant, op2: CompareOp, v2: Constant)
    requires CompareFragment(fetch, field, op1, v1).Ok? && CompareFragment(fetch, field, op2, v2).Ok?
    requires CompareFragment(fetch, field, op1, v1).value.test == CompareFragment(fetch, field, op2, v2).value.test
    ensures v1 == v2 || (v1.BoolConst? && v2.BoolConst?)
    ensures op1 == op2 || {op1, op2} == {Eq, Ne} || {op1, op2} == {Match, NotMatch}
  {
  }

  /** Comparisons of one field share a test only if they have the same constant, and operators that are equal or complements. */
  lemma TestsTellApart(env: Environment, field: string, op1: CompareOp, v1: Constant, op2: CompareOp, v2: Constant)
    requires Static(env, field) || OfRuleset(env, field)
    requires TranslateLeaf(env, Comparison(field, op1, v1)).Ok? && TranslateLeaf(env, Comparison(field, op2, v2)).Ok?
    requires TranslateLeaf(env, Comparison(field, op1, v1)).value.test == TranslateLeaf(env, Comparison(field, op2, v2)).value.test
    ensures v1 == v2 || (v1.BoolConst? && v2.BoolConst?)
    ensures op1 == op2 || {op1, op2} == {Eq, Ne} || {op1, op2} == {Match, NotMatch}
  {
    hide TranslateLeaf, CompareFragment;
    FragmentOf(env, field, op1, v1);
    FragmentOf(env, field, op2, v2);
    FragmentsTellApart(FetchOf(env, field), field, op1, v1, op2, v2);
  }

  /** Query parameters are compared for equality with a text only, each key and text by a test of its own. */
  lemma QueryTests(env: Environment, f: string, g: string, op: CompareOp, v: Constant, w: Constant)
    requires f != "" && g != "" && env.risk(f) == NoRisk && env.risk(g) == NoRisk && f != SCHEME_FIELD && g != SCHEME_FIELD
    requires env.resolve(f).Some? && env.resolve(f).value.fetch == QUERY_FETCH && env.resolve(f).value.queryKey.Some?
    requires env.resolve(g).Some? && env.resolve(g).value.fetch == QUERY_FETCH && env.resolve(g).value.queryKey.Some?
    ensures TranslateLeaf(env, Comparison(f, op, v)).Ok? <==> op == Eq && v.StrConst?
    ensures v.StrConst? && w.StrConst?
      && TranslateLeaf(env, Comparison(f, Eq, v)).value.test == TranslateLeaf(env, Comparison(g, Eq, w)).value.test
      ==> env.resolve(f).value.queryKey == env.resolve(g).value.queryKey && v == w
  {
  }

  /** Where a field has a value, samples that agree with the evaluator on `=` and `~` agree with it on `!=` and `!~` as well. */
  lemma AgreementExtends(env: Environment, field: string, op: CompareOp, value: Constant, samples: Samples, ctx: Context)
    requires (Static(env, field) || OfRuleset(env, field)) && (op == Ne || op == NotMatch) && Applies(op, value)
    requires Resolve(field, ctx) != NoneValue && (value.IntConst? ==> ctx.runtime.toInt(Resolve(field, ctx)).Some?)
    requires AgreeOn(env, Comparison(field, if op == Ne then Eq else Match, value), samples, ctx)
    ensures AgreeOn(env, Comparison(field, op, value), samples, ctx)
  {
    hide TranslateLeaf, Resolve;
    var positive := Comparison(field, if op == Ne then Eq else Match, value);
    assert Bare(positive) == positive && Bare(Comparison(field, op, value)) == Comparison(field, op, value);
    NegativeOperatorsComplement(env, field, value, samples);
  }

  // ---------------------------------------------------------------- tests that read the context

  /** Leaves that are emitted without a complement: not negated, and with no operator or constant that stands for one. */
  predicate IsPositive(n: Node) {
    && IsLeaf(n) && !n.negated
    && (n.Compare? ==> n.op != Ne && n.op != NotMatch && n.value != BoolConst(false) && n.field != SCHEME_FIELD)
  }

  /** Such a leaf is emitted as its test, which holds or not as it is. */
  lemma PositiveLeavesAreTheirTests(env: Environment, n: Node, samples: Samples)
    requires IsPositive(n) && TranslateLeaf(env, n).Ok?
    ensures Emits(env, n, samples) <==> samples(TranslateLeaf(env, n).value.test)
  {
  }

  /** The tests on the field's fetch hold as the evaluator's conditions on the field do, positive operators only. */
  ghost predicate ReadsField(env: Environment, field: string, samples: Samples, ctx: Context)
    requires Static(env, field) || OfRuleset(env, field)
  {
    var fetch := FetchOf(env, field);
    && (forall op, s :: op in {Eq, Match, Contains, StartsWith, EndsWith} ==> samples(StringTest(fetch, op, s)) == Compares(field, op, StrConst(s), ctx))
    && (forall op, i :: op in {Eq, Gt, Lt, Ge, Le} ==> samples(IntTest(fetch, op, i)) == Compares(field, op, IntConst(i), ctx))
    && samples(IsTrue(fetch, field)) == Evaluate(BoolField(field, false), ctx)
    && samples(IsFound(fetch)) == Evaluate(Exists(field, false), ctx)
    && (forall values :: samples(OneOf(fetch, values)) == Evaluate(InLiterals(field, values, false), ctx))
    && (forall listType, listName ::
          samples(InFile(if listType == "ja4" then env.ja4Fetch else fetch, listType, listName)) == Evaluate(InList(field, listType, listName, false), ctx))
  }

  /** A leaf on a field with a value, which is an integer where it is compared with one, and whose tests read the field. */
  ghost predicate ReadsLeaf(env: Environment, m: Node, samples: Samples, ctx: Context)
    requires IsLeaf(m)
  {
    && !m.Literal? && (Static(env, m.field) || (OfRuleset(env, m.field) && HasRiskBranch(m)))
    && Resolve(m.field, ctx) != NoneValue && (m.Compare? && m.value.IntConst? ==> ctx.runtime.toInt(Resolve(m.field, ctx)).Some?)
    && ReadsField(env, m.field, samples, ctx)
  }

  lemma ComparisonAgrees(env: Environment, field: string, op: CompareOp, value: Constant, samples: Samples, ctx: Context)
    requires var m := Comparison(field, op, value); ReadsLeaf(env, m, samples, ctx) && TranslateLeaf(env, m).Ok?
    requires op != Ne && op != NotMatch
    ensures AgreeOn(env, Comparison(field, op, value), samples, ctx)
  {
    hide Resolve, BracketParts;
    var m := Comparison(field, op, value);
    assert Bare(m) == m;
    FragmentOf(env, field, op, value);
    if value.BoolConst? {
      BooleanLaws(field, ctx);
    }
  }

  lemma OtherLeafAgrees(env: Environment, m: Node, samples: Samples, ctx: Context)
    requires IsLeaf(m) && !m.Compare? && !m.negated && ReadsLeaf(env, m, samples, ctx) && TranslateLeaf(env, m).Ok?
    ensures AgreeOn(env, m, samples, ctx)
  {
    hide Resolve, EvaluateLeaf;
    assert Bare(m) == m;
    assert Evaluate(m, ctx) == EvaluateLeaf(m, ctx);
  }

  /** A translated leaf whose tests read its field agrees with the evaluator. */
  lemma LeafAgrees(env: Environment, m: Node, samples: Samples, ctx: Context)
    requires IsLeaf(m) && ReadsLeaf(env, m, samples, ctx) && TranslateLeaf(env, m).Ok?
    ensures AgreeOn(env, m, samples, ctx)
  {
    hide TranslateLeaf, ReadsField, Resolve, EvaluateLeaf, Emits;
    var bare := Bare(m);
    LeafReading(env, m, samples);
    assert Bare(bare) == bare && ReadsLeaf(env, bare, samples, ctx);
    assert AgreeOn(env, m, samples, ctx) == AgreeOn(env, bare, samples, ctx);
    if m.Compare? {
      assert bare == Comparison(m.field, m.op, m.value);
      if m.op == Ne || m.op == NotMatch {
        var positive := if m.op == Ne then Eq else Match;
        OperatorAcceptedExactlyWhen(env, m.field, m.op, m.value);
        OperatorAcceptedExactlyWhen(env, m.field, positive, m.value);
        ComparisonAgrees(env, m.field, positive, m.value, samples, ctx);
        AgreementExtends(env, m.field, m.op, m.value, samples, ctx);
      } else {
        ComparisonAgrees(env, m.field, m.op, m.value, samples, ctx);
      }
    } else {
      OtherLeafAgrees(env, bare, samples, ctx);
    }
  }

  /** Every leaf of the tree is read. */
  ghost predicate ReadsTree(env: Environment, n: Node, samples: Samples, ctx: Context) {
    match n
    case And(cs) => forall i | 0 <= i < |cs| :: ReadsTree(env, cs[i], samples, ctx)
    case Or(cs) => forall i | 0 <= i < |cs| :: ReadsTree(env, cs[i], samples, ctx)
    case Not(c) => ReadsTree(env, c, samples, ctx)
    case _ => ReadsLeaf(env, n, samples, ctx)
  }

  lemma {:induction false} TreeAgrees(env: Environment, n: Node, samples: Samples, ctx: Context)
    requires ReadsTree(env, n, samples, ctx) && LeavesTranslate(env, n)
    ensures AgreeOn(env, n, samples, ctx)
  {
    hide ReadsLeaf, TranslateLeaf, Emits, EvaluateLeaf;
    if n.And? || n.Or? {
      forall i | 0 <= i < |n.children| ensures AgreeOn(env, n.children[i], samples, ctx) {
        TreeAgrees(env, n.children[i], samples, ctx);
      }
    } else if n.Not? {
      TreeAgrees(env, n.child, samples, ctx);
    } else {
      LeafAgrees(env, n, samples, ctx);
    }
  }

  /**
   * The emitted condition of an accepted tree fires exactly when the evaluator says true, if every field has a value, the tests
   * read the fields, and no `!=` or `!~` comparison of a static field is oddly negated.
   */
  lemma FiresAsRead(env: Environment, n: Node, samples: Samples, ctx: Context)
    requires Inhabited(n) && TranslateSpec(env, n).Ok? && NoDropped(env, n, false) && ReadsTree(env, n, samples, ctx)
    ensures Fires(TranslateSpec(env, n).value.0, samples) <==> Evaluate(n, ctx)
  {
    hide TranslateSpec, TranslateGroups, NoDropped, ReadsTree, LeavesTranslate, AgreeOn, Fires, Evaluate;
    AcceptedTranslates(env, n);
    TreeAgrees(env, n, samples, ctx);
    FiresAsEvaluated(env, n, samples, ctx);
  }
}
