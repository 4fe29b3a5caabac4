/** The translation of expression trees to HAProxy conditions (backend/app/services/security_rules.py). */
module Translation {
  import opened Common
  import opened Expression
  import opened Lexer
  import opened Dnf

  // ---------------------------------------------------------------- conditions

  /** What stands inside the braces of a fragment: an opaque test on samples. */
  datatype Test =
    | IsTrue(fetch: string, field: string)
    | IsFound(fetch: string)
    | StringTest(fetch: string, op: CompareOp, text: string)
    | IntTest(fetch: string, op: CompareOp, i: int)
    | IsTls
    | QueryTest(key: string, text: string)
    | OneOf(fetch: string, values: seq<Constant>)
    | InFile(fetch: string, listType: string, listName: string)

  /** `{ test }` with some exclamation marks before it, or inside as in `{ !ssl_fc }`, each of which complements it. */
  datatype Fragment = Fragment(bangs: nat, test: Test)

  /** Groups joined by "or", fragments side by side within a group. */
  type Condition = seq<seq<Fragment>>

  type Samples = Test -> bool

  predicate FragmentHolds(f: Fragment, samples: Samples) {
    samples(f.test) == (f.bangs % 2 == 0)
  }

  predicate Fires(condition: Condition, samples: Samples) {
    exists i | 0 <= i < |condition| :: AllHold(condition[i], samples)
  }

  predicate AllHold(group: seq<Fragment>, samples: Samples) {
    forall i | 0 <= i < |group| :: FragmentHolds(group[i], samples)
  }

  function Bang(f: Fragment, negated: bool): Fragment {
    if negated then f.(bangs := f.bangs + 1) else f
  }

  // ---------------------------------------------------------------- fields and lists

  datatype Phase = RequestPhase | ResponsePhase

  /** What a field resolves to; queryKey is the key of a query parameter. */
  datatype Resolved = Resolved(fetch: string, phase: Phase, isString: bool, queryKey: Option<string>)

  datatype Problem =
    | UnknownField | UnknownRuleset | BadOperator | BadScheme | EmptyList | MixedList
    | UnknownListType | UnknownList | PatternOnNonString | UnknownNode

  /** Whether a field is a dynamic risk field: no, one of an unknown ruleset, or one with this fetch. */
  datatype Risk = NoRisk | MissingRuleset | RiskFetch(fetch: string)

  /** The field tables and the database. */
  datatype Environment = Environment(
    resolve: string -> Option<Resolved>,
    risk: string -> Risk,
    listExists: (string, string) -> bool,
    ja4Fetch: string)

  function ResolveField(env: Environment, field: string): Result<Resolved, Problem> {
    match env.resolve(field)
    case Some(r) => Ok(r)
    case None => Err(UnknownField)
  }

  // ---------------------------------------------------------------- leaves

  predicate Negative(op: CompareOp) {
    op == Ne || op == NotMatch
  }

  /** The operator of the test: the negative ones are written as a complemented positive test. */
  function Positive(op: CompareOp): CompareOp {
    match op
    case Ne => Eq
    case NotMatch => Match
    case _ => op
  }

  function StringFragment(fetch: string, op: CompareOp, text: string): Result<Fragment, Problem> {
    if op == Gt || op == Lt || op == Ge || op == Le then Err(BadOperator)
    else Ok(Bang(Fragment(0, StringTest(fetch, Positive(op), text)), Negative(op)))
  }

  function IntFragment(fetch: string, op: CompareOp, i: int): Result<Fragment, Problem> {
    if op == Match || op == NotMatch || op == Contains || op == StartsWith || op == EndsWith then Err(BadOperator)
    else Ok(Bang(Fragment(0, IntTest(fetch, Positive(op), i)), Negative(op)))
  }

  function BoolFragment(fetch: string, field: string, op: CompareOp, b: bool): Result<Fragment, Problem> {
    if op == Eq then Ok(Bang(Fragment(0, IsTrue(fetch, field)), !b)) else Err(BadOperator)
  }

  /** A comparison before `negated` is applied. */
  function CompareFragment(fetch: string, field: string, op: CompareOp, value: Constant): Result<Fragment, Problem> {
    match value
    case BoolConst(b) => BoolFragment(fetch, field, op, b)
    case StrConst(s) => StringFragment(fetch, op, s)
    case IntConst(i) => IntFragment(fetch, op, i)
  }

  function Negate(r: Result<Fragment, Problem>, negated: bool): Result<Fragment, Problem> {
    match r
    case Ok(f) => Ok(Bang(f, negated))
    case Err(_) => r
  }

  /** The branch for dynamic risk fields: every leaf is complemented by its `negated`. */
  function RiskLeaf(fetch: string, n: Node): Result<Fragment, Problem>
    requires n.BoolField? || n.Exists? || n.Compare?
  {
    match n
    case BoolField(field, negated) => Ok(Bang(Fragment(0, IsTrue(fetch, field)), negated))
    case Exists(_, negated) => Ok(Bang(Fragment(0, IsFound(fetch)), negated))
    case Compare(field, op, value, negated) => Negate(CompareFragment(fetch, field, op, value), negated)
  }

  const SCHEME_FIELD := "http.request.scheme"
  const QUERY_FETCH := "__query_param__"

  function SchemeFragment(op: CompareOp, value: Constant): Result<Fragment, Problem> {
    if op == Eq && value.StrConst? then
      if Lower(value.s) == "https" then Ok(Fragment(0, IsTls))
      else if Lower(value.s) == "http" then Ok(Fragment(1, IsTls))
      else Err(BadScheme)
    else Err(BadScheme)
  }

  /** A comparison whose fragment carries its own complement, which the outer `negated` is not added to. */
  predicate DropsNegation(field: string, r: Resolved, op: CompareOp, value: Constant) {
    field != SCHEME_FIELD && r.fetch != QUERY_FETCH && !value.BoolConst? && Negative(op)
  }

  function CompareLeaf(env: Environment, n: Node): Result<Fragment, Problem>
    requires n.Compare?
  {
    match ResolveField(env, n.field)
    case Err(e) => Err(e)
    case Ok(r) =>
      if n.field == SCHEME_FIELD then Negate(SchemeFragment(n.op, n.value), n.negated)
      else if r.fetch == QUERY_FETCH then
        if n.op == Eq && n.value.StrConst? then
          Ok(Bang(Fragment(0, QueryTest(if r.queryKey.Some? then r.queryKey.value else "", n.value.s)), n.negated))
        else Err(BadOperator)
      else Negate(CompareFragment(r.fetch, n.field, n.op, n.value), n.negated && !DropsNegation(n.field, r, n.op, n.value))
  }

  predicate AllStrings(values: seq<Constant>) {
    forall i | 0 <= i < |values| :: values[i].StrConst?
  }

  /** isinstance(v, int), which Python's booleans are as well. */
  predicate AllInts(values: seq<Constant>) {
    forall i | 0 <= i < |values| :: !values[i].StrConst?
  }

  function LiteralsLeaf(env: Environment, n: Node): Result<Fragment, Problem>
    requires n.InLiterals?
  {
    match ResolveField(env, n.field)
    case Err(e) => Err(e)
    case Ok(r) =>
      if n.values == [] then Err(EmptyList)
      else if AllStrings(n.values) || AllInts(n.values) then Ok(Bang(Fragment(0, OneOf(r.fetch, n.values)), n.negated))
      else Err(MixedList)
  }

  const LIST_TYPES := {"network", "asn", "geo", "ja4", "pattern"}

  function ListLeaf(env: Environment, n: Node): Result<Fragment, Problem>
    requires n.InList?
  {
    match ResolveField(env, n.field)
    case Err(e) => Err(e)
    case Ok(r) =>
      if n.listType !in LIST_TYPES then Err(UnknownListType)
      else if !env.listExists(n.listType, n.listName) then Err(UnknownList)
      else if n.listType == "pattern" && !r.isString then Err(PatternOnNonString)
      else Ok(Bang(Fragment(0, InFile(if n.listType == "ja4" then env.ja4Fetch else r.fetch, n.listType, n.listName)), n.negated))
  }

  /** The leaves that the general branches translate. */
  function PlainLeaf(env: Environment, n: Node): Result<Fragment, Problem>
    requires IsLeaf(n)
  {
    match n
    case BoolField(field, negated) =>
      (match ResolveField(env, field)
       case Err(e) => Err(e)
       case Ok(r) => Ok(Bang(Fragment(0, IsTrue(r.fetch, field)), negated)))
    case Exists(field, negated) =>
      (match ResolveField(env, field)
       case Err(e) => Err(e)
       case Ok(r) => Ok(Bang(Fragment(0, IsFound(r.fetch)), negated)))
    case Compare(_, _, _, _) => CompareLeaf(env, n)
    case InLiterals(_, _, _) => LiteralsLeaf(env, n)
    case InList(_, _, _, _) => ListLeaf(env, n)
    case Literal(_, _) => Err(UnknownNode)
  }

  predicate HasRiskBranch(n: Node) {
    n.BoolField? || n.Exists? || n.Compare?
  }

  /** _translate_leaf */
  function TranslateLeaf(env: Environment, n: Node): Result<Fragment, Problem>
    requires IsLeaf(n)
  {
    if n.Literal? || n.field == "" then PlainLeaf(env, n)
    else
      match env.risk(n.field)
      case MissingRuleset => Err(UnknownRuleset)
      case RiskFetch(fetch) => if HasRiskBranch(n) then RiskLeaf(fetch, n) else PlainLeaf(env, n)
      case NoRisk => PlainLeaf(env, n)
  }

  // ---------------------------------------------------------------- trees

  /** _determine_phase: the first child in the response phase ends the search. */
  function DeterminePhase(env: Environment, n: Node): Result<Phase, Problem>
    decreases n, 1
  {
    match n
    case And(cs) => PhaseOfAny(env, cs)
    case Or(cs) => PhaseOfAny(env, cs)
    case Not(c) => DeterminePhase(env, c)
    case Literal(_, _) => PhaseOfField(env, "")
    case _ => PhaseOfField(env, n.field)
  }

  function PhaseOfAny(env: Environment, cs: seq<Node>): Result<Phase, Problem>
    decreases cs, 0
  {
    if cs == [] then Ok(RequestPhase)
    else
      match DeterminePhase(env, cs[0])
      case Err(e) => Err(e)
      case Ok(ResponsePhase) => Ok(ResponsePhase)
      case Ok(RequestPhase) => PhaseOfAny(env, cs[1..])
  }

  function PhaseOfField(env: Environment, field: string): Result<Phase, Problem> {
    match ResolveField(env, field)
    case Err(e) => Err(e)
    case Ok(r) => Ok(r.phase)
  }

  function TranslateGroup(env: Environment, g: Group): Result<seq<Fragment>, Problem> {
    if g == [] then Ok([])
    else
      var n := |g| - 1;
      match TranslateGroup(env, g[..n])
      case Err(e) => Err(e)
      case Ok(fs) =>
        if !IsLeaf(g[n]) then Err(UnknownNode)
        else
          match TranslateLeaf(env, g[n])
          case Err(e) => Err(e)
          case Ok(f) => Ok(fs + [f])
  }

  function TranslateGroups(env: Environment, groups: Groups): Result<Condition, Problem> {
    if groups == [] then Ok([])
    else
      var n := |groups| - 1;
      match TranslateGroups(env, groups[..n])
      case Err(e) => Err(e)
      case Ok(cs) =>
        match TranslateGroup(env, groups[n])
        case Err(e) => Err(e)
        case Ok(c) => Ok(cs + [c])
  }

  function TranslateSpec(env: Environment, n: Node): Result<(Condition, Phase), Problem> {
    match DeterminePhase(env, n)
    case Err(e) => Err(e)
    case Ok(phase) =>
      match TranslateGroups(env, ToDnfSpec(n))
      case Err(e) => Err(e)
      case Ok(condition) => Ok((condition, phase))
  }

  // ---------------------------------------------------------------- the program

  method TranslateTerms(env: Environment, group: Group) returns (r: Result<seq<Fragment>, Problem>)
    ensures r == TranslateGroup(env, group)
  {
    hide TranslateLeaf;
    var terms: seq<Fragment> := [];
    for i := 0 to |group|
      invariant TranslateGroup(env, group[..i]) == Ok(terms)
    {
      assert group[..i + 1][..i] == group[..i];
      if !IsLeaf(group[i]) {
        GroupFails(env, group, i + 1);
        return Err(UnknownNode);
      }
      match TranslateLeaf(env, group[i]) {
        case Ok(f) => terms := terms + [f];
        case Err(e) =>
          GroupFails(env, group, i + 1);
          return Err(e);
      }
    }
    assert group[..|group|] == group;
    return Ok(terms);
  }

  lemma {:induction false} GroupFails(env: Environment, group: Group, i: nat)
    requires i <= |group| && TranslateGroup(env, group[..i]).Err?
    ensures TranslateGroup(env, group) == TranslateGroup(env, group[..i])
    decreases |group| - i
  {
    if i < |group| {
      assert group[..i + 1][..i] == group[..i];
      GroupFails(env, group, i + 1);
    } else {
      assert group[..i] == group;
    }
  }

  lemma {:induction false} GroupsFail(env: Environment, groups: Groups, i: nat)
    requires i <= |groups| && TranslateGroups(env, groups[..i]).Err?
    ensures TranslateGroups(env, groups) == TranslateGroups(env, groups[..i])
    decreases |groups| - i
  {
    if i < |groups| {
      assert groups[..i + 1][..i] == groups[..i];
      GroupsFail(env, groups, i + 1);
    } else {
      assert groups[..i] == groups;
    }
  }

  /** translate */
  method Translate(env: Environment, ast: Node) returns (r: Result<(Condition, Phase), Problem>)
    ensures r == TranslateSpec(env, ast)
  {
    hide TranslateGroup, ToDnfSpec;
    var phase := DeterminePhase(env, ast);
    if phase.Err? {
      return Err(phase.error);
    }
    var dnf := ToDnf(ast);
    var groups: Condition := [];
    for i := 0 to |dnf|
      invariant TranslateGroups(env, dnf[..i]) == Ok(groups)
    {
      assert dnf[..i + 1][..i] == dnf[..i];
      var terms := TranslateTerms(env, dnf[i]);
      if terms.Err? {
        GroupsFail(env, dnf, i + 1);
        return Err(terms.error);
      }
      groups := groups + [terms.value];
    }
    assert dnf[..|dnf|] == dnf;
    return Ok((groups, phase.value));
  }
}
