/** The phase of a translated expression: what its leaves' fields say, in the order in which they are written. */
module TranslationPhase {
  import opened Common
  import opened Expression
  import opened Dnf
  import opened DnfSize
  import opened Translation
  import opened TranslationMeaning

  // ---------------------------------------------------------------- fields in order

  /** The field that is looked up for a leaf; a literal has none, which is looked up as the empty name. */
  function FieldOf(m: Node): string
    requires IsLeaf(m)
  {
    if m.Literal? then "" else m.field
  }

  /** The fields of the leaves from left to right. */
  function LeafFields(n: Node): seq<string>
    decreases n, 1
  {
    match n
    case And(cs) => LeafFieldsOf(cs)
    case Or(cs) => LeafFieldsOf(cs)
    case Not(c) => LeafFields(c)
    case _ => [FieldOf(n)]
  }

  function LeafFieldsOf(cs: seq<Node>): seq<string>
    decreases cs, 0
  {
    if cs == [] then [] else LeafFields(cs[0]) + LeafFieldsOf(cs[1..])
  }

  /** The field is known, and belongs to the phase. */
  predicate InPhase(env: Environment, field: string, phase: Phase) {
    env.resolve(field).Some? && env.resolve(field).value.phase == phase
  }

  predicate AllRequest(env: Environment, fields: seq<string>) {
    forall i | 0 <= i < |fields| :: InPhase(env, fields[i], RequestPhase)
  }

  /** The first field that is not of the request phase is of the response phase. */
  predicate ResponseFirst(env: Environment, fields: seq<string>) {
    exists i | 0 <= i < |fields| :: InPhase(env, fields[i], ResponsePhase) && AllRequest(env, fields[..i])
  }

  lemma RequestSplits(env: Environment, a: seq<string>, b: seq<string>)
    ensures AllRequest(env, a + b) <==> AllRequest(env, a) && AllRequest(env, b)
  {
    var all := a + b;
    assert forall i :: 0 <= i < |a| ==> all[i] == a[i];
    assert forall i :: 0 <= i < |b| ==> all[|a| + i] == b[i];
    if AllRequest(env, all) {
      forall i | 0 <= i < |b| ensures InPhase(env, b[i], RequestPhase) { assert InPhase(env, all[|a| + i], RequestPhase); }
      forall i | 0 <= i < |a| ensures InPhase(env, a[i], RequestPhase) { assert InPhase(env, all[i], RequestPhase); }
    }
  }

  lemma ResponseSplits(env: Environment, a: seq<string>, b: seq<string>)
    ensures ResponseFirst(env, a + b) <==> ResponseFirst(env, a) || (AllRequest(env, a) && ResponseFirst(env, b))
  {
    hide AllRequest, InPhase;
    var all := a + b;
    if i :| 0 <= i < |a| && InPhase(env, a[i], ResponsePhase) && AllRequest(env, a[..i]) {
      assert all[..i] == a[..i] && InPhase(env, all[i], ResponsePhase);
    }
    if i :| AllRequest(env, a) && 0 <= i < |b| && InPhase(env, b[i], ResponsePhase) && AllRequest(env, b[..i]) {
      RequestSplits(env, a, b[..i]);
      assert all[..|a| + i] == a + b[..i] && InPhase(env, all[|a| + i], ResponsePhase);
    }
    if i :| 0 <= i < |all| && InPhase(env, all[i], ResponsePhase) && AllRequest(env, all[..i]) {
      if i < |a| {
        assert all[..i] == a[..i] && InPhase(env, a[i], ResponsePhase);
      } else {
        RequestSplits(env, a, b[..i - |a|]);
        assert all[..i] == a + b[..i - |a|] && InPhase(env, b[i - |a|], ResponsePhase);
      }
    }
  }

  /**
   * The phase is that of the first field from the left that is not a request field: a response field makes it the response
   * phase, an unknown one is refused, and without either it is the request phase.
   */
  lemma {:induction false} PhaseIsDecidedInOrder(env: Environment, n: Node)
    ensures DeterminePhase(env, n) == Ok(RequestPhase) <==> AllRequest(env, LeafFields(n))
    ensures DeterminePhase(env, n) == Ok(ResponsePhase) <==> ResponseFirst(env, LeafFields(n))
    decreases n, 1
  {
    match n
    case And(cs) => PhasesAreDecidedInOrder(env, cs);
    case Or(cs) => PhasesAreDecidedInOrder(env, cs);
    case Not(c) => PhaseIsDecidedInOrder(env, c);
    case _ => OneField(env, FieldOf(n));
  }

  lemma OneField(env: Environment, field: string)
    ensures PhaseOfField(env, field) == Ok(RequestPhase) <==> AllRequest(env, [field])
    ensures PhaseOfField(env, field) == Ok(ResponsePhase) <==> ResponseFirst(env, [field])
  {
    assert [field][0] == field && [field][..0] == [];
    assert InPhase(env, field, ResponsePhase) ==> AllRequest(env, [field][..0]);
  }

  lemma {:induction false} PhasesAreDecidedInOrder(env: Environment, cs: seq<Node>)
    ensures PhaseOfAny(env, cs) == Ok(RequestPhase) <==> AllRequest(env, LeafFieldsOf(cs))
    ensures PhaseOfAny(env, cs) == Ok(ResponsePhase) <==> ResponseFirst(env, LeafFieldsOf(cs))
    decreases cs, 0
  {
    hide AllRequest, ResponseFirst;
    if cs == [] {
      NoFields(env);
    } else {
      PhaseIsDecidedInOrder(env, cs[0]);
      PhasesAreDecidedInOrder(env, cs[1..]);
      RequestSplits(env, LeafFields(cs[0]), LeafFieldsOf(cs[1..]));
      ResponseSplits(env, LeafFields(cs[0]), LeafFieldsOf(cs[1..]));
      NotBoth(env, LeafFields(cs[0]));
    }
  }

  lemma NoFields(env: Environment)
    ensures AllRequest(env, []) && !ResponseFirst(env, [])
  {
  }

  lemma NotBoth(env: Environment, fields: seq<string>)
    ensures !(AllRequest(env, fields) && ResponseFirst(env, fields))
  {
  }

  // ---------------------------------------------------------------- fields of the leaves

  lemma {:induction false} LeafFieldIsListed(n: Node, negate: bool, m: Node, mNegate: bool)
    requires At(n, negate, m, mNegate) && IsLeaf(m)
    ensures FieldOf(m) in LeafFields(n)
  {
    match n
    case And(cs) =>
      var i :| 0 <= i < |cs| && At(cs[i], negate, m, mNegate);
      LeafFieldIsListed(cs[i], negate, m, mNegate);
      FieldIsOfSomeChild(cs, FieldOf(m));
    case Or(cs) =>
      var i :| 0 <= i < |cs| && At(cs[i], negate, m, mNegate);
      LeafFieldIsListed(cs[i], negate, m, mNegate);
      FieldIsOfSomeChild(cs, FieldOf(m));
    case Not(c) => LeafFieldIsListed(c, !negate, m, mNegate);
    case _ =>
  }

  lemma {:induction false} ListedFieldHasLeaf(n: Node, negate: bool, field: string) returns (m: Node, mNegate: bool)
    requires field in LeafFields(n)
    ensures At(n, negate, m, mNegate) && IsLeaf(m) && FieldOf(m) == field
  {
    match n
    case And(cs) =>
      FieldIsOfSomeChild(cs, field);
      var i :| 0 <= i < |cs| && field in LeafFields(cs[i]);
      m, mNegate := ListedFieldHasLeaf(cs[i], negate, field);
    case Or(cs) =>
      FieldIsOfSomeChild(cs, field);
      var i :| 0 <= i < |cs| && field in LeafFields(cs[i]);
      m, mNegate := ListedFieldHasLeaf(cs[i], negate, field);
    case Not(c) => m, mNegate := ListedFieldHasLeaf(c, !negate, field);
    case _ => m, mNegate := n, negate;
  }

  lemma {:induction false} FieldIsOfSomeChild(cs: seq<Node>, field: string)
    ensures field in LeafFieldsOf(cs) <==> exists i :: 0 <= i < |cs| && field in LeafFields(cs[i])
    decreases cs, 0
  {
    hide LeafFields;
    if cs != [] {
      FieldIsOfSomeChild(cs[1..], field);
      if i :| 0 <= i < |cs[1..]| && field in LeafFields(cs[1..][i]) { assert field in LeafFields(cs[i + 1]); }
      if i :| 0 < i < |cs| && field in LeafFields(cs[i]) { assert field in LeafFields(cs[1..][i - 1]); }
    }
  }

  /** Some leaf is on a field of the phase. */
  ghost predicate SomeLeafIn(env: Environment, n: Node, phase: Phase) {
    exists m, mNegate :: At(n, false, m, mNegate) && IsLeaf(m) && !m.Literal? && InPhase(env, m.field, phase)
  }

  /** Every leaf is on a field of the request phase. */
  ghost predicate AllLeavesInRequest(env: Environment, n: Node) {
    forall m, mNegate :: At(n, false, m, mNegate) && IsLeaf(m) ==> !m.Literal? && InPhase(env, m.field, RequestPhase)
  }

  lemma {:induction false} PartHasLiteral(n: Node, negate: bool, m: Node, mNegate: bool)
    requires At(n, negate, m, mNegate) && m.Literal?
    ensures HasLiteral(n)
  {
    match n
    case And(cs) =>
      var i :| 0 <= i < |cs| && At(cs[i], negate, m, mNegate);
      PartHasLiteral(cs[i], negate, m, mNegate);
    case Or(cs) =>
      var i :| 0 <= i < |cs| && At(cs[i], negate, m, mNegate);
      PartHasLiteral(cs[i], negate, m, mNegate);
    case Not(c) => PartHasLiteral(c, !negate, m, mNegate);
    case _ =>
  }

  /**
   * An accepted tree is of the response phase exactly when some leaf is on a response field, and of the request phase exactly
   * when all leaves are on request fields.
   */
  lemma AcceptedPhaseExactlyWhen(env: Environment, n: Node)
    requires Inhabited(n) && TranslateSpec(env, n).Ok?
    ensures TranslateSpec(env, n).value.1 == ResponsePhase <==> SomeLeafIn(env, n, ResponsePhase)
    ensures TranslateSpec(env, n).value.1 == RequestPhase <==> AllLeavesInRequest(env, n)
  {
    hide TranslateGroups, ToDnfSpec, Inhabited, LeafFields, At, DeterminePhase, InPhase;
    PhaseIsDecidedInOrder(env, n);
    var fields := LeafFields(n);
    forall m, mNegate | At(n, false, m, mNegate) && IsLeaf(m) ensures !m.Literal? && m.field in fields {
      if m.Literal? {
        PartHasLiteral(n, false, m, mNegate);
        LiteralsAreRefused(env, n);
        assert false;
      } else {
        LeafFieldIsListed(n, false, m, mNegate);
      }
    }
    forall i | 0 <= i < |fields|
      ensures exists m, mNegate :: At(n, false, m, mNegate) && IsLeaf(m) && !m.Literal? && m.field == fields[i]
    {
      var m, mNegate := ListedFieldHasLeaf(n, false, fields[i]);
    }
    PhasesExclude(env, fields);
  }

  lemma PhasesExclude(env: Environment, fields: seq<string>)
    ensures ResponseFirst(env, fields) ==> exists i :: 0 <= i < |fields| && InPhase(env, fields[i], ResponsePhase)
    ensures AllRequest(env, fields) ==> forall i :: 0 <= i < |fields| ==> !InPhase(env, fields[i], ResponsePhase)
  {
  }

  lemma Unresolved(env: Environment, field: string)
    requires env.resolve(field).None?
    ensures !InPhase(env, field, RequestPhase) && !InPhase(env, field, ResponsePhase)
  {
  }

  /** A field that is no static one is refused unless a response field comes before it: the lookup of risk rulesets comes too late for it. */
  lemma UnknownFieldsAreRefused(env: Environment, n: Node, i: nat)
    requires i < |LeafFields(n)| && env.resolve(LeafFields(n)[i]).None?
    requires forall j :: 0 <= j < i ==> !InPhase(env, LeafFields(n)[j], ResponsePhase)
    ensures TranslateSpec(env, n).Err?
  {
    hide LeafFields, InPhase, ToDnfSpec, TranslateGroups;
    PhaseIsDecidedInOrder(env, n);
    var fields := LeafFields(n);
    Unresolved(env, fields[i]);
    assert !AllRequest(env, fields);
    forall k | 0 <= k < |fields| && InPhase(env, fields[k], ResponsePhase) ensures !AllRequest(env, fields[..k]) {
      assert i < k && fields[..k][i] == fields[i];
    }
    assert !ResponseFirst(env, fields);
    match DeterminePhase(env, n)
    case Ok(RequestPhase) =>
    case Ok(ResponsePhase) =>
    case Err(_) =>
  }
}
