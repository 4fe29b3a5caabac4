/** When the HAProxy condition of a tree means what the evaluator says of it. */
module TranslationMeaning {
  import opened Common
  import opened Expression
  import opened Dnf
  import opened DnfSize
  import opened Translation

  // ---------------------------------------------------------------- readings

  predicate Emits(env: Environment, t: Node, samples: Samples) {
    IsLeaf(t) && TranslateLeaf(env, t).Ok? && FragmentHolds(TranslateLeaf(env, t).value, samples)
  }

  function Emitted(env: Environment, samples: Samples): Valuation {
    (t: Node) => Emits(env, t, samples)
  }

  /** The leaf without its "negated". */
  function Bare(n: Node): (r: Node)
    requires IsLeaf(n)
    ensures IsLeaf(r) && !r.negated
  {
    n.(negated := false)
  }

  /** What the tree says of the samples: a negated leaf is the complement of what its bare form is translated to. */
  predicate Says(env: Environment, n: Node, samples: Samples) {
    match n
    case And(cs) => forall i | 0 <= i < |cs| :: Says(env, cs[i], samples)
    case Or(cs) => exists i | 0 <= i < |cs| :: Says(env, cs[i], samples)
    case Not(c) => !Says(env, c, samples)
    case _ => Emits(env, Bare(n), samples) != n.negated
  }

  predicate LeavesTranslate(env: Environment, n: Node) {
    match n
    case And(cs) => forall i | 0 <= i < |cs| :: LeavesTranslate(env, cs[i])
    case Or(cs) => forall i | 0 <= i < |cs| :: LeavesTranslate(env, cs[i])
    case Not(c) => LeavesTranslate(env, c)
    case _ => TranslateLeaf(env, n).Ok?
  }

  /** A comparison of a static field whose negation the translation leaves out: `!=` and `!~`. */
  predicate Drops(env: Environment, n: Node)
    requires IsLeaf(n)
  {
    && n.Compare? && (n.field == "" || env.risk(n.field) == NoRisk)
    && env.resolve(n.field).Some? && DropsNegation(n.field, env.resolve(n.field).value, n.op, n.value)
  }

  /** No such comparison is negated, by the `not`s above it (`odd` counts them) or in place. */
  predicate NoDropped(env: Environment, n: Node, odd: bool) {
    match n
    case And(cs) => forall i | 0 <= i < |cs| :: NoDropped(env, cs[i], odd)
    case Or(cs) => forall i | 0 <= i < |cs| :: NoDropped(env, cs[i], odd)
    case Not(c) => NoDropped(env, c, !odd)
    case _ => Drops(env, n) ==> n.negated == odd
  }

  // ---------------------------------------------------------------- leaves

  /** "negated" complements what a leaf is translated to, unless it is dropped; it never decides whether there is a translation. */
  lemma LeafReading(env: Environment, n: Node, samples: Samples)
    requires IsLeaf(n)
    ensures TranslateLeaf(env, n).Ok? <==> TranslateLeaf(env, Bare(n)).Ok?
    ensures TranslateLeaf(env, n).Ok? ==> Emits(env, n, samples) == (Emits(env, Bare(n), samples) != (n.negated && !Drops(env, n)))
  {
  }

  lemma TermReading(env: Environment, n: Node, odd: bool, samples: Samples)
    requires IsLeaf(n) && TranslateLeaf(env, n).Ok?
    ensures (Pushed(n, odd, Emitted(env, samples)) == (Says(env, n, samples) != odd)) <==> (Drops(env, n) ==> n.negated == odd)
  {
    hide TranslateLeaf, FragmentHolds;
    var t := if odd then Toggle(n) else n;
    assert Bare(t) == Bare(n) && Drops(env, t) == Drops(env, n);
    LeafReading(env, n, samples);
    LeafReading(env, t, samples);
  }

  // ---------------------------------------------------------------- trees

  lemma {:induction false} PushedReading(env: Environment, n: Node, odd: bool, samples: Samples)
    requires LeavesTranslate(env, n) && NoDropped(env, n, odd)
    ensures Pushed(n, odd, Emitted(env, samples)) == (Says(env, n, samples) != odd)
  {
    hide Emits, Drops;
    match n
    case And(cs) =>
      forall i | 0 <= i < |cs| ensures Pushed(cs[i], odd, Emitted(env, samples)) == (Says(env, cs[i], samples) != odd) {
        PushedReading(env, cs[i], odd, samples);
      }
    case Or(cs) =>
      forall i | 0 <= i < |cs| ensures Pushed(cs[i], odd, Emitted(env, samples)) == (Says(env, cs[i], samples) != odd) {
        PushedReading(env, cs[i], odd, samples);
      }
    case Not(c) => PushedReading(env, c, !odd, samples);
    case _ => TermReading(env, n, odd, samples);
  }

  /** The emitted form of m, or of its negation, means what m says of the samples. */
  ghost predicate Translated(env: Environment, m: Node, negate: bool) {
    forall samples :: FormHolds(Form(m, negate), Emitted(env, samples)) == (Says(env, m, samples) != negate)
  }

  lemma {:induction false} PartsKeep(env: Environment, n: Node, negate: bool, m: Node, mNegate: bool)
    requires At(n, negate, m, mNegate) && LeavesTranslate(env, n)
    ensures LeavesTranslate(env, m) && (NoDropped(env, n, negate) ==> NoDropped(env, m, mNegate))
  {
    if !(m == n && mNegate == negate) {
      match n
      case And(cs) =>
        var i :| 0 <= i < |cs| && At(cs[i], negate, m, mNegate);
        PartsKeep(env, cs[i], negate, m, mNegate);
      case Or(cs) =>
        var i :| 0 <= i < |cs| && At(cs[i], negate, m, mNegate);
        PartsKeep(env, cs[i], negate, m, mNegate);
      case Not(c) => PartsKeep(env, c, !negate, m, mNegate);
    }
  }

  lemma {:induction false} FindDropped(env: Environment, n: Node, negate: bool) returns (m: Node, mNegate: bool)
    requires !NoDropped(env, n, negate)
    ensures At(n, negate, m, mNegate) && IsLeaf(m) && Drops(env, m) && m.negated != mNegate
  {
    match n
    case And(cs) =>
      var i :| 0 <= i < |cs| && !NoDropped(env, cs[i], negate);
      m, mNegate := FindDropped(env, cs[i], negate);
    case Or(cs) =>
      var i :| 0 <= i < |cs| && !NoDropped(env, cs[i], negate);
      m, mNegate := FindDropped(env, cs[i], negate);
    case Not(c) => m, mNegate := FindDropped(env, c, !negate);
    case _ => m, mNegate := n, negate;
  }

  // ---------------------------------------------------------------- accepted trees

  predicate Mentions(groups: Groups, t: Node) {
    exists i | 0 <= i < |groups| :: t in groups[i]
  }

  lemma {:induction false} CrossMentions(a: Groups, b: Groups, t: Node)
    requires a != [] && b != [] && (Mentions(a, t) || Mentions(b, t))
    ensures Mentions(Cross(a, b), t) && Cross(a, b) != []
  {
    var n := |a| - 1;
    var init, p := Cross(a[..n], b), Prefixed(a[n], b);
    assert Cross(a, b) == init + p && p[0] == a[n] + b[0];
    assert Cross(a, b)[|init|] == p[0];
    if Mentions(b, t) {
      var j :| 0 <= j < |b| && t in b[j];
      assert p[j] == a[n] + b[j] && Cross(a, b)[|init| + j] == p[j];
    } else if t !in a[n] {
      var i :| 0 <= i < |a| && t in a[i];
      assert a[..n][i] == a[i];
      CrossMentions(a[..n], b, t);
      var k :| 0 <= k < |init| && t in init[k];
      assert Cross(a, b)[k] == init[k];
    } else {
      assert t in p[0];
    }
  }

  /** Every leaf of an inhabited tree shows up in its form, toggled under an odd number of `not`s. */
  lemma {:induction false} FormMentionsLeaves(n: Node, negate: bool, m: Node, mNegate: bool)
    requires Inhabited(n) && At(n, negate, m, mNegate) && IsLeaf(m)
    ensures Mentions(Form(n, negate), if mNegate then Toggle(m) else m)
    decreases n, 1
  {
    hide Mentions, Union, Product;
    var t := if mNegate then Toggle(m) else m;
    match n
    case And(cs) =>
      assert Form(n, negate) == if negate then Union(cs, negate) else Product(cs, negate);
      var i :| 0 <= i < |cs| && At(cs[i], negate, m, mNegate);
      FormMentionsLeaves(cs[i], negate, m, mNegate);
      if negate { UnionMentions(cs, negate, i, t); } else { ProductMentions(cs, negate, i, t); }
    case Or(cs) =>
      assert Form(n, negate) == if negate then Product(cs, negate) else Union(cs, negate);
      var i :| 0 <= i < |cs| && At(cs[i], negate, m, mNegate);
      FormMentionsLeaves(cs[i], negate, m, mNegate);
      if negate { ProductMentions(cs, negate, i, t); } else { UnionMentions(cs, negate, i, t); }
    case Not(c) => FormMentionsLeaves(c, !negate, m, mNegate);
    case _ =>
      MentionsItself(t);
      assert Form(n, negate) == [[t]];
  }

  lemma MentionsItself(t: Node)
    ensures Mentions([[t]], t)
  {
    assert t in [[t]][0];
  }

  lemma {:induction false} FormIsInhabited(n: Node, negate: bool)
    requires Inhabited(n)
    ensures Form(n, negate) != []
    decreases n, 1
  {
    match n
    case And(cs) => FormsAreInhabited(cs, negate);
    case Or(cs) => FormsAreInhabited(cs, negate);
    case Not(c) => FormIsInhabited(c, !negate);
    case _ =>
  }

  lemma {:induction false} FormsAreInhabited(cs: seq<Node>, negate: bool)
    requires forall i :: 0 <= i < |cs| ==> Inhabited(cs[i])
    ensures Product(cs, negate) != [] && (cs != [] ==> Union(cs, negate) != [])
    decreases cs, 0
  {
    if cs != [] {
      var n := |cs| - 1;
      FormsAreInhabited(cs[..n], negate);
      FormIsInhabited(cs[n], negate);
      var a, b := Product(cs[..n], negate), Form(cs[n], negate);
      assert Cross(a, b) == Cross(a[..|a| - 1], b) + Prefixed(a[|a| - 1], b);
    }
  }

  lemma {:induction false} UnionMentions(cs: seq<Node>, negate: bool, i: nat, t: Node)
    requires i < |cs| && Mentions(Form(cs[i], negate), t)
    ensures Mentions(Union(cs, negate), t)
  {
    var n := |cs| - 1;
    var init, last := Union(cs[..n], negate), Form(cs[n], negate);
    if i < n {
      UnionMentions(cs[..n], negate, i, t);
      var k :| 0 <= k < |init| && t in init[k];
      assert (init + last)[k] == init[k];
    } else {
      var k :| 0 <= k < |last| && t in last[k];
      assert (init + last)[|init| + k] == last[k];
    }
  }

  lemma {:induction false} ProductMentions(cs: seq<Node>, negate: bool, i: nat, t: Node)
    requires i < |cs| && Mentions(Form(cs[i], negate), t) && forall j :: 0 <= j < |cs| ==> Inhabited(cs[j])
    ensures Mentions(Product(cs, negate), t)
  {
    hide Mentions, Inhabited, Cross, Form;
    var n := |cs| - 1;
    FormsAreInhabited(cs[..n], negate);
    FormIsInhabited(cs[n], negate);
    if i < n { ProductMentions(cs[..n], negate, i, t); }
    CrossMentions(Product(cs[..n], negate), Form(cs[n], negate), t);
  }

  lemma {:induction false} GroupTranslates(env: Environment, g: Group, samples: Samples)
    requires TranslateGroup(env, g).Ok?
    ensures forall i :: 0 <= i < |g| ==> IsLeaf(g[i]) && TranslateLeaf(env, g[i]).Ok?
    ensures AllHold(TranslateGroup(env, g).value, samples) == GroupHolds(g, Emitted(env, samples))
  {
    hide TranslateLeaf, FragmentHolds;
    if g != [] {
      var n := |g| - 1;
      GroupTranslates(env, g[..n], samples);
      var fs, all := TranslateGroup(env, g[..n]).value, TranslateGroup(env, g).value;
      assert all[..|fs|] == fs && all[|fs|] == TranslateLeaf(env, g[n]).value;
      assert forall i :: 0 <= i < |fs| ==> all[i] == fs[i];
      assert forall i :: 0 <= i < n ==> g[..n][i] == g[i];
    }
  }

  lemma {:induction false} GroupsTranslate(env: Environment, groups: Groups, samples: Samples)
    requires TranslateGroups(env, groups).Ok?
    ensures forall i :: 0 <= i < |groups| ==> TranslateGroup(env, groups[i]).Ok?
    ensures Fires(TranslateGroups(env, groups).value, samples) == FormHolds(groups, Emitted(env, samples))
  {
    hide TranslateGroup, AllHold, GroupHolds;
    if groups != [] {
      var n := |groups| - 1;
      var init := groups[..n];
      GroupsTranslate(env, init, samples);
      GroupTranslates(env, groups[n], samples);
      SnocHolds(init, groups[n], Emitted(env, samples));
      assert groups == init + [groups[n]];
      var cs, all := TranslateGroups(env, init).value, TranslateGroups(env, groups).value;
      assert all == cs + [TranslateGroup(env, groups[n]).value];
      assert all[|cs|] == TranslateGroup(env, groups[n]).value && forall i :: 0 <= i < |cs| ==> all[i] == cs[i];
      assert forall i :: 0 <= i < n ==> groups[i] == init[i];
    }
  }

  /** An accepted tree has no leaf without a translation. */
  lemma {:induction false} AcceptedLeavesTranslate(env: Environment, n: Node, negate: bool, m: Node, mNegate: bool)
    requires Inhabited(n) && TranslateGroups(env, Form(n, negate)).Ok? && At(n, negate, m, mNegate)
    ensures LeavesTranslate(env, m)
    decreases m
  {
    match m
    case And(cs) =>
      forall i | 0 <= i < |cs| ensures LeavesTranslate(env, cs[i]) {
        PartOfPart(n, negate, m, mNegate, cs[i], mNegate);
        AcceptedLeavesTranslate(env, n, negate, cs[i], mNegate);
      }
    case Or(cs) =>
      forall i | 0 <= i < |cs| ensures LeavesTranslate(env, cs[i]) {
        PartOfPart(n, negate, m, mNegate, cs[i], mNegate);
        AcceptedLeavesTranslate(env, n, negate, cs[i], mNegate);
      }
    case Not(c) =>
      PartOfPart(n, negate, m, mNegate, c, !mNegate);
      AcceptedLeavesTranslate(env, n, negate, c, !mNegate);
    case _ => AcceptedLeaf(env, n, negate, m, mNegate);
  }

  lemma AcceptedLeaf(env: Environment, n: Node, negate: bool, m: Node, mNegate: bool)
    requires Inhabited(n) && TranslateGroups(env, Form(n, negate)).Ok? && At(n, negate, m, mNegate) && IsLeaf(m)
    ensures TranslateLeaf(env, m).Ok?
  {
    hide TranslateLeaf, At, Form, Inhabited, TranslateGroups;
    var samples: Samples := _ => true;
    var t := if mNegate then Toggle(m) else m;
    FormMentionsLeaves(n, negate, m, mNegate);
    GroupsTranslate(env, Form(n, negate), samples);
    var i :| 0 <= i < |Form(n, negate)| && t in Form(n, negate)[i];
    GroupTranslates(env, Form(n, negate)[i], samples);
    LeafReading(env, t, samples);
    LeafReading(env, m, samples);
    assert Bare(t) == Bare(m);
  }

  lemma {:induction false} PartOfPart(n: Node, negate: bool, m: Node, mNegate: bool, part: Node, partNegate: bool)
    requires At(n, negate, m, mNegate)
    requires if m.Not? then part == m.child && partNegate == !mNegate
             else (m.And? || m.Or?) && part in m.children && partNegate == mNegate
    ensures At(n, negate, part, partNegate)
  {
    if m == n && mNegate == negate {
      assert At(part, partNegate, part, partNegate);
    } else {
      match n
      case And(cs) =>
        var i :| 0 <= i < |cs| && At(cs[i], negate, m, mNegate);
        PartOfPart(cs[i], negate, m, mNegate, part, partNegate);
      case Or(cs) =>
        var i :| 0 <= i < |cs| && At(cs[i], negate, m, mNegate);
        PartOfPart(cs[i], negate, m, mNegate, part, partNegate);
      case Not(c) => PartOfPart(c, !negate, m, mNegate, part, partNegate);
    }
  }

  // ---------------------------------------------------------------- results

  predicate HasLiteral(n: Node) {
    match n
    case And(cs) => exists i | 0 <= i < |cs| :: HasLiteral(cs[i])
    case Or(cs) => exists i | 0 <= i < |cs| :: HasLiteral(cs[i])
    case Not(c) => HasLiteral(c)
    case _ => n.Literal?
  }

  lemma {:induction false} LiteralDoesNotTranslate(env: Environment, n: Node)
    requires HasLiteral(n)
    ensures !LeavesTranslate(env, n)
  {
    match n
    case And(cs) =>
      var i :| 0 <= i < |cs| && HasLiteral(cs[i]);
      LiteralDoesNotTranslate(env, cs[i]);
    case Or(cs) =>
      var i :| 0 <= i < |cs| && HasLiteral(cs[i]);
      LiteralDoesNotTranslate(env, cs[i]);
    case Not(c) => LiteralDoesNotTranslate(env, c);
    case _ =>
  }

  lemma AcceptedTranslates(env: Environment, n: Node)
    requires Inhabited(n) && TranslateSpec(env, n).Ok?
    ensures LeavesTranslate(env, n) && TranslateGroups(env, Form(n, false)) == Ok(TranslateSpec(env, n).value.0)
  {
    hide LeavesTranslate, TranslateGroups;
    assert At(n, false, n, false);
    AcceptedLeavesTranslate(env, n, false, n, false);
  }

  /** A tree with `true` or `false` anywhere in it is refused, whatever the field tables are. */
  lemma LiteralsAreRefused(env: Environment, n: Node)
    requires Inhabited(n) && HasLiteral(n)
    ensures TranslateSpec(env, n).Err?
  {
    hide TranslateSpec, Inhabited;
    if TranslateSpec(env, n).Ok? {
      AcceptedTranslates(env, n);
      LiteralDoesNotTranslate(env, n);
      assert false;
    }
  }

  /**
   * On an accepted tree the emitted form of every subtree, taken with its polarity, means what the subtree says of all samples
   * exactly when no `!=` or `!~` comparison of a static field stands under an odd number of negations.
   */
  lemma TranslationAgreesExactlyWhen(env: Environment, n: Node)
    requires Inhabited(n) && TranslateSpec(env, n).Ok?
    ensures (forall m, mNegate :: At(n, false, m, mNegate) ==> Translated(env, m, mNegate)) <==> NoDropped(env, n, false)
  {
    hide TranslateSpec, Inhabited, At, Form, Pushed, Says, NoDropped, FormHolds, Drops, Emits, TranslateGroups;
    AcceptedTranslates(env, n);
    if NoDropped(env, n, false) {
      forall m, mNegate | At(n, false, m, mNegate) ensures Translated(env, m, mNegate) {
        PartsKeep(env, n, false, m, mNegate);
        forall samples ensures FormHolds(Form(m, mNegate), Emitted(env, samples)) == (Says(env, m, samples) != mNegate) {
          FormIsPushed(m, mNegate, Emitted(env, samples));
          PushedReading(env, m, mNegate, samples);
        }
      }
    } else {
      var m, mNegate := FindDropped(env, n, false);
      PartsKeep(env, n, false, m, mNegate);
      var samples: Samples := _ => true;
      FormIsPushed(m, mNegate, Emitted(env, samples));
      TermReading(env, m, mNegate, samples);
      assert !Translated(env, m, mNegate);
    }
  }

  /** The samples say of every bare leaf what the evaluator says of it in the context. */
  predicate AgreeOn(env: Environment, n: Node, samples: Samples, ctx: Context) {
    match n
    case And(cs) => forall i | 0 <= i < |cs| :: AgreeOn(env, cs[i], samples, ctx)
    case Or(cs) => forall i | 0 <= i < |cs| :: AgreeOn(env, cs[i], samples, ctx)
    case Not(c) => AgreeOn(env, c, samples, ctx)
    case _ => Emits(env, Bare(n), samples) == EvaluateLeaf(Bare(n), ctx)
  }

  lemma {:induction false} ReadsAsEvaluated(env: Environment, n: Node, samples: Samples, ctx: Context)
    requires AgreeOn(env, n, samples, ctx) && LeavesTranslate(env, n)
    ensures Says(env, n, samples) == Evaluate(n, ctx)
  {
    hide Emits;
    if n.And? || n.Or? {
      forall i | 0 <= i < |n.children| ensures Says(env, n.children[i], samples) == Evaluate(n.children[i], ctx) {
        ReadsAsEvaluated(env, n.children[i], samples, ctx);
      }
    } else if n.Not? {
      ReadsAsEvaluated(env, n.child, samples, ctx);
    } else {
      BareComplements(n, ctx);
    }
  }

  lemma BareComplements(n: Node, ctx: Context)
    requires IsLeaf(n) && !n.Literal?
    ensures EvaluateLeaf(n, ctx) == (EvaluateLeaf(Bare(n), ctx) != n.negated)
  {
    ToggleComplements(Bare(n), ctx);
    assert n == if n.negated then Toggle(Bare(n)) else Bare(n);
  }

  /** An accepted tree without a dropped negation fires exactly when the evaluator says true, if both agree on the bare leaves. */
  lemma FiresAsEvaluated(env: Environment, n: Node, samples: Samples, ctx: Context)
    requires Inhabited(n) && TranslateSpec(env, n).Ok? && NoDropped(env, n, false) && AgreeOn(env, n, samples, ctx)
    ensures Fires(TranslateSpec(env, n).value.0, samples) == Evaluate(n, ctx)
  {
    hide TranslateSpec, TranslateGroups, LeavesTranslate, NoDropped, Pushed, AgreeOn, FormHolds, Form;
    AcceptedTranslates(env, n);
    GroupsTranslate(env, Form(n, false), samples);
    FormIsPushed(n, false, Emitted(env, samples));
    PushedReading(env, n, false, samples);
    ReadsAsEvaluated(env, n, samples, ctx);
  }

  /** A negated `!=` or `!~` comparison of a static field is emitted as if it were not negated. */
  lemma DroppedNegationIsMisread(env: Environment, m: Node, samples: Samples)
    requires IsLeaf(m) && !m.negated && Drops(env, m) && TranslateSpec(env, Not(m)).Ok?
    ensures Fires(TranslateSpec(env, Not(m)).value.0, samples) == Says(env, m, samples)
  {
    AcceptedTranslates(env, Not(m));
    GroupsTranslate(env, Form(Not(m), false), samples);
    FormIsPushed(Not(m), false, Emitted(env, samples));
    TermReading(env, m, true, samples);
  }

  /** On a field that is absent, `=` and `!=` are both false to the evaluator, which no samples can imitate. */
  lemma AbsentFieldsCannotAgree(env: Environment, field: string, s: string, samples: Samples, ctx: Context)
    requires Resolve(field, ctx) == NoneValue && Drops(env, Compare(field, Ne, StrConst(s), false))
    ensures !AgreeOn(env, Or([Compare(field, Eq, StrConst(s), false), Compare(field, Ne, StrConst(s), false)]), samples, ctx)
  {
    var a, b := Compare(field, Eq, StrConst(s), false), Compare(field, Ne, StrConst(s), false);
    assert Bare(a) == a && Bare(b) == b;
    assert Or([a, b]).children[0] == a && Or([a, b]).children[1] == b;
    assert Emits(env, a, samples) != Emits(env, b, samples);
  }
}
