/** Disjunctive normal form, as to_dnf and _negate_to_dnf of shared/expression_core.py compute it. */
module Dnf {
  import opened Common
  import opened Expression

  /** An AND-group of terms, and an OR-list of groups. */
  type Group = seq<Node>
  type Groups = seq<Group>

  // ---------------------------------------------------------------- specification

  /** The leaf with its "negated" key toggled. */
  function Toggle(n: Node): (r: Node)
    requires IsLeaf(n)
    ensures IsLeaf(r)
  {
    n.(negated := !n.negated)
  }

  /** `prefix` joined with each group in turn. */
  function Prefixed(prefix: Group, groups: Groups): (r: Groups)
    ensures |r| == |groups|
    ensures forall j :: 0 <= j < |groups| ==> r[j] == prefix + groups[j]
  {
    if groups == [] then []
    else Prefixed(prefix, groups[..|groups| - 1]) + [prefix + groups[|groups| - 1]]
  }

  /** Every group of `a` joined with every group of `b`. */
  function Cross(a: Groups, b: Groups): Groups {
    if a == [] then [] else Cross(a[..|a| - 1], b) + Prefixed(a[|a| - 1], b)
  }

  function ToDnfSpec(n: Node): Groups
    decreases n, 1
  {
    match n
    case Or(cs) => Union(cs, false)
    case And(cs) => Product(cs, false)
    case Not(c) => NegDnfSpec(c)
    case _ => [[n]]
  }

  function NegDnfSpec(n: Node): Groups
    decreases n, 1
  {
    match n
    case Or(cs) => Product(cs, true)
    case And(cs) => Union(cs, true)
    case Not(c) => ToDnfSpec(c)
    case _ => [[Toggle(n)]]
  }

  /** The form of `n`, or of its negation. */
  function Form(n: Node, negate: bool): Groups
    decreases n, 2
  {
    if negate then NegDnfSpec(n) else ToDnfSpec(n)
  }

  function Union(cs: seq<Node>, negate: bool): Groups
    decreases cs, 0
  {
    if cs == [] then [] else Union(cs[..|cs| - 1], negate) + Form(cs[|cs| - 1], negate)
  }

  function Product(cs: seq<Node>, negate: bool): Groups
    decreases cs, 0
  {
    if cs == [] then [[]] else Cross(Product(cs[..|cs| - 1], negate), Form(cs[|cs| - 1], negate))
  }

  // ---------------------------------------------------------------- the program

  /** One round of the product loop: every group so far with every group of the next child. */
  method CrossLoop(result: Groups, childGroups: Groups) returns (newResult: Groups)
    ensures newResult == Cross(result, childGroups)
  {
    newResult := [];
    for i := 0 to |result|
      invariant newResult == Cross(result[..i], childGroups)
    {
      var existing := result[i];
      for j := 0 to |childGroups|
        invariant newResult == Cross(result[..i], childGroups) + Prefixed(existing, childGroups[..j])
      {
        newResult := newResult + [existing + childGroups[j]];
        assert childGroups[..j + 1][..j] == childGroups[..j];
      }
      assert childGroups[..|childGroups|] == childGroups;
      assert result[..i + 1][..i] == result[..i];
    }
    assert result[..|result|] == result;
  }

  method ProductLoop(cs: seq<Node>, negate: bool) returns (result: Groups)
    ensures result == Product(cs, negate)
    decreases cs, 0
  {
    var groups: seq<Groups> := [];
    for i := 0 to |cs|
      invariant |groups| == i && forall k :: 0 <= k < i ==> groups[k] == Form(cs[k], negate)
    {
      var g: Groups;
      if negate { g := NegateToDnf(cs[i]); } else { g := ToDnf(cs[i]); }
      groups := groups + [g];
    }
    result := [[]];
    for i := 0 to |groups|
      invariant result == Product(cs[..i], negate)
    {
      result := CrossLoop(result, groups[i]);
      assert cs[..i + 1][..i] == cs[..i];
    }
    assert cs[..|cs|] == cs;
  }

  method UnionLoop(cs: seq<Node>, negate: bool) returns (result: Groups)
    ensures result == Union(cs, negate)
    decreases cs, 0
  {
    result := [];
    for i := 0 to |cs|
      invariant result == Union(cs[..i], negate)
    {
      var g: Groups;
      if negate { g := NegateToDnf(cs[i]); } else { g := ToDnf(cs[i]); }
      result := result + g;
      assert cs[..i + 1][..i] == cs[..i];
    }
    assert cs[..|cs|] == cs;
  }

  method ToDnf(n: Node) returns (result: Groups)
    ensures result == ToDnfSpec(n)
    decreases n, 1
  {
    match n
    case Or(cs) => result := UnionLoop(cs, false);
    case And(cs) => result := ProductLoop(cs, false);
    case Not(c) => result := NegateToDnf(c);
    case _ => result := [[n]];
  }

  method NegateToDnf(n: Node) returns (result: Groups)
    ensures result == NegDnfSpec(n)
    decreases n, 1
  {
    match n
    case Or(cs) => result := ProductLoop(cs, true);
    case And(cs) => result := UnionLoop(cs, true);
    case Not(c) => result := ToDnf(c);
    case _ => result := [[Toggle(n)]];
  }

  // ---------------------------------------------------------------- meaning

  /** Which terms hold. */
  type Valuation = Node -> bool

  predicate GroupHolds(g: Group, v: Valuation) {
    forall i | 0 <= i < |g| :: v(g[i])
  }

  /** Some group has all its terms true. */
  predicate FormHolds(groups: Groups, v: Valuation) {
    exists i | 0 <= i < |groups| :: GroupHolds(groups[i], v)
  }

  /** The tree, or its negation, with the negations pushed to the leaves, where they toggle "negated". */
  predicate Pushed(n: Node, negate: bool, v: Valuation) {
    match n
    case And(cs) =>
      if negate then exists i | 0 <= i < |cs| :: Pushed(cs[i], negate, v) else forall i | 0 <= i < |cs| :: Pushed(cs[i], negate, v)
    case Or(cs) =>
      if negate then forall i | 0 <= i < |cs| :: Pushed(cs[i], negate, v) else exists i | 0 <= i < |cs| :: Pushed(cs[i], negate, v)
    case Not(c) => Pushed(c, !negate, v)
    case _ => v(if negate then Toggle(n) else n)
  }

  lemma AppendHolds(a: Groups, b: Groups, v: Valuation)
    ensures FormHolds(a + b, v) == (FormHolds(a, v) || FormHolds(b, v))
  {
    var ab := a + b;
    assert forall i :: 0 <= i < |a| ==> ab[i] == a[i];
    assert forall i :: 0 <= i < |b| ==> ab[|a| + i] == b[i];
    assert forall i :: |a| <= i < |ab| ==> ab[i] == b[i - |a|];
  }

  lemma JoinHolds(g: Group, h: Group, v: Valuation)
    ensures GroupHolds(g + h, v) == (GroupHolds(g, v) && GroupHolds(h, v))
  {
    var gh := g + h;
    assert forall i :: 0 <= i < |g| ==> gh[i] == g[i];
    assert forall i :: 0 <= i < |h| ==> gh[|g| + i] == h[i];
    assert forall i :: |g| <= i < |gh| ==> gh[i] == h[i - |g|];
  }

  lemma PrefixedHolds(g: Group, b: Groups, v: Valuation)
    ensures FormHolds(Prefixed(g, b), v) == (GroupHolds(g, v) && FormHolds(b, v))
  {
    var p := Prefixed(g, b);
    forall j | 0 <= j < |b|
      ensures GroupHolds(p[j], v) == (GroupHolds(g, v) && GroupHolds(b[j], v))
    {
      JoinHolds(g, b[j], v);
    }
  }

  lemma SnocHolds(init: Groups, last: Group, v: Valuation)
    ensures FormHolds(init + [last], v) == (FormHolds(init, v) || GroupHolds(last, v))
  {
    AppendHolds(init, [last], v);
    assert [last][0] == last;
  }

  /** The product of two forms means their conjunction. */
  lemma {:induction false} CrossHolds(a: Groups, b: Groups, v: Valuation)
    ensures FormHolds(Cross(a, b), v) == (FormHolds(a, v) && FormHolds(b, v))
  {
    if a == [] {
      assert Cross(a, b) == [];
    } else {
      var init, last := a[..|a| - 1], a[|a| - 1];
      CrossHolds(init, b, v);
      PrefixedHolds(last, b, v);
      AppendHolds(Cross(init, b), Prefixed(last, b), v);
      SnocHolds(init, last, v);
      assert a == init + [last];
      assert Cross(a, b) == Cross(init, b) + Prefixed(last, b);
    }
  }

  predicate AnyPushed(cs: seq<Node>, negate: bool, v: Valuation) {
    exists i | 0 <= i < |cs| :: Pushed(cs[i], negate, v)
  }

  predicate AllPushed(cs: seq<Node>, negate: bool, v: Valuation) {
    forall i | 0 <= i < |cs| :: Pushed(cs[i], negate, v)
  }

  /** Whatever the terms mean, the form means the tree, or its negation, with the negations pushed to the leaves. */
  lemma {:induction false} FormIsPushed(n: Node, negate: bool, v: Valuation)
    ensures FormHolds(Form(n, negate), v) == Pushed(n, negate, v)
    decreases n, 1
  {
    match n
    case And(cs) => if negate { UnionMeaning(cs, negate, v); } else { ProductMeaning(cs, negate, v); }
    case Or(cs) => if negate { ProductMeaning(cs, negate, v); } else { UnionMeaning(cs, negate, v); }
    case Not(c) => FormIsPushed(c, !negate, v);
    case _ => SingletonHolds(if negate then Toggle(n) else n, v);
  }

  lemma SingletonHolds(t: Node, v: Valuation)
    ensures FormHolds([[t]], v) == v(t)
  {
    assert [[t]][0] == [t] && [t][0] == t;
  }

  lemma AnyPushedSplit(cs: seq<Node>, negate: bool, v: Valuation)
    requires cs != []
    ensures AnyPushed(cs, negate, v) == (AnyPushed(cs[..|cs| - 1], negate, v) || Pushed(cs[|cs| - 1], negate, v))
  {
    var init := cs[..|cs| - 1];
    assert forall i :: 0 <= i < |init| ==> init[i] == cs[i];
  }

  lemma {:induction false} UnionMeaning(cs: seq<Node>, negate: bool, v: Valuation)
    ensures FormHolds(Union(cs, negate), v) == AnyPushed(cs, negate, v)
    decreases cs, 0
  {
    if cs != [] {
      var init, last := cs[..|cs| - 1], cs[|cs| - 1];
      UnionMeaning(init, negate, v);
      FormIsPushed(last, negate, v);
      AppendHolds(Union(init, negate), Form(last, negate), v);
      AnyPushedSplit(cs, negate, v);
    }
  }

  lemma AllPushedSplit(cs: seq<Node>, negate: bool, v: Valuation)
    requires cs != []
    ensures AllPushed(cs, negate, v) == (AllPushed(cs[..|cs| - 1], negate, v) && Pushed(cs[|cs| - 1], negate, v))
  {
  }

  lemma {:induction false} ProductMeaning(cs: seq<Node>, negate: bool, v: Valuation)
    ensures FormHolds(Product(cs, negate), v) == AllPushed(cs, negate, v)
    decreases cs, 0
  {
    if cs == [] {
      assert Product(cs, negate)[0] == [] && GroupHolds([], v);
    } else {
      var init, last := cs[..|cs| - 1], cs[|cs| - 1];
      ProductMeaning(init, negate, v);
      FormIsPushed(last, negate, v);
      CrossHolds(Product(init, negate), Form(last, negate), v);
      AllPushedSplit(cs, negate, v);
    }
  }

  // ---------------------------------------------------------------- the evaluator's reading

  predicate TermHolds(t: Node, ctx: Context) {
    IsLeaf(t) && EvaluateLeaf(t, ctx)
  }

  function Terms(ctx: Context): Valuation {
    (t: Node) => TermHolds(t, ctx)
  }

  /** The form holds when its terms are read with evaluate_leaf. */
  predicate DnfHolds(groups: Groups, ctx: Context) {
    FormHolds(groups, Terms(ctx))
  }

  /** The tree with every literal under an odd number of `not`s (`odd` counts those above it) replaced by the opposite one. */
  function FlipOdd(n: Node, odd: bool): Node {
    match n
    case And(cs) => And(seq(|cs|, i requires 0 <= i < |cs| => FlipOdd(cs[i], odd)))
    case Or(cs) => Or(seq(|cs|, i requires 0 <= i < |cs| => FlipOdd(cs[i], odd)))
    case Not(c) => Not(FlipOdd(c, !odd))
    case Literal(truth, negated) => if odd then Literal(!truth, negated) else n
    case _ => n
  }

  predicate NoOddLiteral(n: Node, odd: bool) {
    match n
    case And(cs) => forall i | 0 <= i < |cs| :: NoOddLiteral(cs[i], odd)
    case Or(cs) => forall i | 0 <= i < |cs| :: NoOddLiteral(cs[i], odd)
    case Not(c) => NoOddLiteral(c, !odd)
    case Literal(_, _) => !odd
    case _ => true
  }

  /** Toggling "negated" complements a leaf exactly when the leaf is not a literal. */
  lemma ToggleComplements(n: Node, ctx: Context)
    requires IsLeaf(n)
    ensures EvaluateLeaf(Toggle(n), ctx) == !EvaluateLeaf(n, ctx) <==> !n.Literal?
  {
  }

  /** The tree, or its negation, with the odd literals flipped. */
  predicate FlippedHolds(n: Node, negate: bool, ctx: Context) {
    Evaluate(FlipOdd(n, negate), ctx) != negate
  }

  lemma {:induction false} PushedIsFlipped(n: Node, negate: bool, ctx: Context)
    ensures Pushed(n, negate, Terms(ctx)) == FlippedHolds(n, negate, ctx)
  {
    match n
    case And(cs) =>
      var flipped := FlipOdd(n, negate);
      forall i | 0 <= i < |cs| ensures Pushed(cs[i], negate, Terms(ctx)) == (Evaluate(flipped.children[i], ctx) != negate) {
        PushedIsFlipped(cs[i], negate, ctx);
      }
    case Or(cs) =>
      var flipped := FlipOdd(n, negate);
      forall i | 0 <= i < |cs| ensures Pushed(cs[i], negate, Terms(ctx)) == (Evaluate(flipped.children[i], ctx) != negate) {
        PushedIsFlipped(cs[i], negate, ctx);
      }
    case Not(c) => PushedIsFlipped(c, !negate, ctx);
    case _ => ToggleComplements(n, ctx);
  }

  /** What the normal forms mean on every input: the tree, or its negation, with the odd literals flipped. */
  lemma FormMeaning(n: Node, negate: bool, ctx: Context)
    ensures DnfHolds(Form(n, negate), ctx) == FlippedHolds(n, negate, ctx)
  {
    FormIsPushed(n, negate, Terms(ctx));
    PushedIsFlipped(n, negate, ctx);
  }

  /** Flipping changes nothing exactly when no literal stands under an odd number of `not`s. */
  lemma {:induction false} FlipOddIdentity(n: Node, odd: bool)
    ensures FlipOdd(n, odd) == n <==> NoOddLiteral(n, odd)
  {
    match n
    case And(cs) =>
      forall i | 0 <= i < |cs| ensures FlipOdd(cs[i], odd) == cs[i] <==> NoOddLiteral(cs[i], odd) {
        FlipOddIdentity(cs[i], odd);
      }
      assert FlipOdd(n, odd) == n ==> forall i :: 0 <= i < |cs| ==> FlipOdd(n, odd).children[i] == cs[i];
    case Or(cs) =>
      forall i | 0 <= i < |cs| ensures FlipOdd(cs[i], odd) == cs[i] <==> NoOddLiteral(cs[i], odd) {
        FlipOddIdentity(cs[i], odd);
      }
      assert FlipOdd(n, odd) == n ==> forall i :: 0 <= i < |cs| ==> FlipOdd(n, odd).children[i] == cs[i];
    case Not(c) => FlipOddIdentity(c, !odd);
    case _ =>
  }

  /** to_dnf means what evaluate means, on every tree without a literal under an odd number of `not`s. */
  lemma DnfPreservesMeaning(n: Node, ctx: Context)
    requires NoOddLiteral(n, false)
    ensures DnfHolds(ToDnfSpec(n), ctx) == Evaluate(n, ctx)
  {
    FormMeaning(n, false, ctx);
    FlipOddIdentity(n, false);
  }

  /** m occurs in n; `negate` and `mNegate` tell whether they stand under an odd number of `not`s. */
  predicate At(n: Node, negate: bool, m: Node, mNegate: bool) {
    || (m == n && mNegate == negate)
    || match n
       case And(cs) => exists i | 0 <= i < |cs| :: At(cs[i], negate, m, mNegate)
       case Or(cs) => exists i | 0 <= i < |cs| :: At(cs[i], negate, m, mNegate)
       case Not(c) => At(c, !negate, m, mNegate)
       case _ => false
  }

  /** The form of m, or of its negation, means what the evaluator says of m. */
  ghost predicate Faithful(m: Node, negate: bool) {
    forall ctx :: DnfHolds(Form(m, negate), ctx) == (Evaluate(m, ctx) != negate)
  }

  lemma {:induction false} PartsHaveNoOddLiteral(n: Node, negate: bool, m: Node, mNegate: bool)
    requires At(n, negate, m, mNegate) && NoOddLiteral(n, negate)
    ensures NoOddLiteral(m, mNegate)
  {
    if !(m == n && mNegate == negate) {
      match n
      case And(cs) =>
        var i :| 0 <= i < |cs| && At(cs[i], negate, m, mNegate);
        PartsHaveNoOddLiteral(cs[i], negate, m, mNegate);
      case Or(cs) =>
        var i :| 0 <= i < |cs| && At(cs[i], negate, m, mNegate);
        PartsHaveNoOddLiteral(cs[i], negate, m, mNegate);
      case Not(c) => PartsHaveNoOddLiteral(c, !negate, m, mNegate);
    }
  }

  lemma {:induction false} FindOddLiteral(n: Node, negate: bool) returns (m: Node)
    requires !NoOddLiteral(n, negate)
    ensures At(n, negate, m, true) && m.Literal?
  {
    match n
    case And(cs) =>
      var i :| 0 <= i < |cs| && !NoOddLiteral(cs[i], negate);
      m := FindOddLiteral(cs[i], negate);
    case Or(cs) =>
      var i :| 0 <= i < |cs| && !NoOddLiteral(cs[i], negate);
      m := FindOddLiteral(cs[i], negate);
    case Not(c) => m := FindOddLiteral(c, !negate);
    case _ => m := n;
  }

  lemma NegatedLiteralIsMisread(m: Node, ctx: Context)
    requires m.Literal?
    ensures DnfHolds(Form(m, true), ctx) == Evaluate(m, ctx)
  {
    SingletonHolds(Toggle(m), Terms(ctx));
  }

  /**
   * The form of every subtree, taken with its polarity, means what the evaluator says in every context
   * exactly when no literal stands under an odd number of `not`s.
   */
  lemma DnfAgreesExactlyWhen(n: Node)
    ensures (forall m, mNegate :: At(n, false, m, mNegate) ==> Faithful(m, mNegate)) <==> NoOddLiteral(n, false)
  {
    hide Evaluate, DnfHolds, Form, At, NoOddLiteral;
    if NoOddLiteral(n, false) {
      forall m, mNegate | At(n, false, m, mNegate) ensures Faithful(m, mNegate) {
        PartsHaveNoOddLiteral(n, false, m, mNegate);
        FlipOddIdentity(m, mNegate);
        forall ctx ensures DnfHolds(Form(m, mNegate), ctx) == (Evaluate(m, ctx) != mNegate) {
          FormMeaning(m, mNegate, ctx);
        }
      }
    } else {
      var m := FindOddLiteral(n, false);
      var ctx := Context(map[], None, Runtime((_, _) => false, _ => None, _ => ""));
      NegatedLiteralIsMisread(m, ctx);
      assert !Faithful(m, true);
    }
  }

  /** `not true` evaluates to false, but its normal form holds in every context. */
  lemma NotTrueIsMisread(ctx: Context)
    ensures !Evaluate(Not(Literal(true, false)), ctx)
    ensures DnfHolds(ToDnfSpec(Not(Literal(true, false))), ctx)
  {
    SingletonHolds(Literal(true, true), Terms(ctx));
  }
}
