/** The expression AST of shared/expression_core.py and its evaluator. */
module Expression {
  import opened Common

  /** A Python value that a context can hold. */
  datatype Value = NoneValue | BoolValue(b: bool) | IntValue(i: int) | StrValue(s: string) | DictValue(entries: map<string, Value>)

  /** A constant written in an expression. */
  datatype Constant = BoolConst(b: bool) | IntConst(i: int) | StrConst(s: string)

  datatype CompareOp = Eq | Ne | Match | NotMatch | Gt | Lt | Ge | Le | Contains | StartsWith | EndsWith

  /** An AST node. `negated` is the dictionary key of that name, false when absent. */
  datatype Node =
    | Compare(field: string, op: CompareOp, value: Constant, negated: bool)
    | InList(field: string, listType: string, listName: string, negated: bool)
    | InLiterals(field: string, values: seq<Constant>, negated: bool)
    | Exists(field: string, negated: bool)
    | BoolField(field: string, negated: bool)
    | Literal(truth: bool, negated: bool)
    | And(children: seq<Node>)
    | Or(children: seq<Node>)
    | Not(child: Node)

  /** What the evaluator asks of Python's runtime: `re.search(...) is not None`, `int(...)` and `str(...)`. */
  datatype Runtime = Runtime(search: (string, string) -> bool, toInt: Value -> Option<int>, toStr: Value -> string)

  /** An evaluation context: the dictionary, its optional list resolver, and the runtime. */
  datatype Context = Context(
    fields: map<string, Value>,
    lists: Option<(string, string, Value) -> bool>,
    runtime: Runtime)

  predicate IsLeaf(n: Node) {
    !n.And? && !n.Or? && !n.Not?
  }

  // ---------------------------------------------------------------- field resolution

  predicate IsWordOrDot(c: char) {
    'a' <= c <= 'z' || 'A' <= c <= 'Z' || '0' <= c <= '9' || c == '_' || c == '.'
  }

  /** Length of the longest prefix of `s` made of word characters and dots. */
  function WordPrefix(s: string): (k: nat)
    ensures k <= |s|
    ensures forall i :: 0 <= i < k ==> IsWordOrDot(s[i])
    ensures k < |s| ==> !IsWordOrDot(s[k])
  {
    if s != "" && IsWordOrDot(s[0]) then 1 + WordPrefix(s[1..]) else 0
  }

  /** The base field and key of a field written base["key"], if it has that shape. */
  function BracketParts(field: string): Option<(string, string)> {
    var p := WordPrefix(field);
    var tail := field[p..];
    // `$` also matches just before one final newline
    var rest := if tail != "" && tail[|tail| - 1] == '\n' then tail[..|tail| - 1] else tail;
    if p > 0 && |rest| > 4 && rest[..2] == "[\"" && rest[|rest| - 2..] == "\"]" && '\n' !in rest[2..|rest| - 2]
    then Some((field[..p], rest[2..|rest| - 2]))
    else None
  }

  /** str.split(".") */
  function SplitDots(s: string): (parts: seq<string>)
    ensures |parts| > 0
    ensures forall i :: 0 <= i < |parts| ==> '.' !in parts[i]
  {
    if s == "" then [""]
    else
      var rest := SplitDots(s[1..]);
      if s[0] == '.' then [""] + rest else [[s[0]] + rest[0]] + rest[1..]
  }

  function Walk(value: Value, parts: seq<string>): Value {
    if parts == [] then value
    else if value.DictValue? && parts[0] in value.entries then Walk(value.entries[parts[0]], parts[1..])
    else NoneValue
  }

  function Resolve(field: string, ctx: Context): Value {
    match BracketParts(field)
    case Some((base, key)) =>
      if base in ctx.fields && ctx.fields[base].DictValue? && key in ctx.fields[base].entries && ctx.fields[base].entries[key] != NoneValue
      then StrValue(ctx.runtime.toStr(ctx.fields[base].entries[key]))
      else NoneValue
    case None =>
      if field in ctx.fields then ctx.fields[field]
      else Walk(DictValue(ctx.fields), SplitDots(field))
  }

  // ---------------------------------------------------------------- evaluation

  predicate Truthy(v: Value) {
    match v
    case NoneValue => false
    case BoolValue(b) => b
    case IntValue(i) => i != 0
    case StrValue(s) => s != ""
    case DictValue(m) => m != map[]
  }

  function AsValue(c: Constant): Value {
    match c
    case BoolConst(b) => BoolValue(b)
    case IntConst(i) => IntValue(i)
    case StrConst(s) => StrValue(s)
  }

  /** Python's `==`, under which True equals 1 and False equals 0. */
  predicate PyEquals(a: Value, b: Value) {
    var x := if a.BoolValue? then IntValue(if a.b then 1 else 0) else a;
    var y := if b.BoolValue? then IntValue(if b.b then 1 else 0) else b;
    x == y
  }

  predicate HasPrefix(p: string, s: string) {
    |p| <= |s| && s[..|p|] == p
  }

  predicate HasSuffix(p: string, s: string) {
    |p| <= |s| && s[|s| - |p|..] == p
  }

  predicate HasInfix(p: string, s: string) {
    exists i | 0 <= i <= |s| :: HasPrefix(p, s[i..])
  }

  function CompareInt(op: CompareOp, actual: int, expected: int): Option<bool> {
    match op
    case Eq => Some(actual == expected)
    case Ne => Some(actual != expected)
    case Gt => Some(actual > expected)
    case Lt => Some(actual < expected)
    case Ge => Some(actual >= expected)
    case Le => Some(actual <= expected)
    case _ => None
  }

  function CompareStr(op: CompareOp, actual: string, expected: string, rt: Runtime): Option<bool> {
    match op
    case Eq => Some(actual == expected)
    case Ne => Some(actual != expected)
    case Match => Some(rt.search(expected, actual))
    case NotMatch => Some(!rt.search(expected, actual))
    case Contains => Some(HasInfix(expected, actual))
    case StartsWith => Some(HasPrefix(expected, actual))
    case EndsWith => Some(HasSuffix(expected, actual))
    case _ => None
  }

  /** The comparison itself; None where the source gives up (missing field, operator or type that does not apply). */
  function CompareValue(op: CompareOp, actual: Value, expected: Constant, rt: Runtime): Option<bool> {
    if actual.NoneValue? then None
    else
      match expected
      case BoolConst(b) => if op == Eq then Some(Truthy(actual) == b) else None
      case IntConst(i) =>
        (match rt.toInt(actual)
         case None => None
         case Some(a) => CompareInt(op, a, i))
      case StrConst(s) => CompareStr(op, rt.toStr(actual), s, rt)
  }

  predicate EvaluateLeaf(n: Node, ctx: Context)
    requires IsLeaf(n)
  {
    match n
    case Literal(truth, _) => truth
    case BoolField(field, negated) =>
      var result := Truthy(Resolve(field, ctx));
      if negated then !result else result
    case Exists(field, negated) =>
      var v := Resolve(field, ctx);
      var result := v != NoneValue && v != StrValue("");
      if negated then !result else result
    case Compare(field, op, expected, negated) =>
      (match CompareValue(op, Resolve(field, ctx), expected, ctx.runtime)
       case None => negated
       case Some(result) => if negated then !result else result)
    case InLiterals(field, values, negated) =>
      var actual := Resolve(field, ctx);
      if actual.NoneValue? then negated
      else
        var result := exists i | 0 <= i < |values| ::
            PyEquals(actual, AsValue(values[i])) || ctx.runtime.toStr(actual) == ctx.runtime.toStr(AsValue(values[i]));
        if negated then !result else result
    case InList(field, listType, listName, negated) =>
      var actual := Resolve(field, ctx);
      if actual.NoneValue? then negated
      else
        match ctx.lists
        case None => negated
        case Some(resolver) =>
          var result := resolver(listType, listName, actual);
          if negated then !result else result
  }

  predicate Evaluate(n: Node, ctx: Context) {
    match n
    case And(cs) => forall i | 0 <= i < |cs| :: Evaluate(cs[i], ctx)
    case Or(cs) => exists i | 0 <= i < |cs| :: Evaluate(cs[i], ctx)
    case Not(c) => !Evaluate(c, ctx)
    case _ => EvaluateLeaf(n, ctx)
  }

  // ---------------------------------------------------------------- what evaluation depends on

  /** The field names an expression mentions. */
  function Fields(n: Node): set<string> {
    match n
    case And(cs) => set i, f | 0 <= i < |cs| && f in Fields(cs[i]) :: f
    case Or(cs) => set i, f | 0 <= i < |cs| && f in Fields(cs[i]) :: f
    case Not(c) => Fields(c)
    case Literal(_, _) => {}
    case _ => {n.field}
  }

  /** Evaluation depends on the context only through the fields that are mentioned. */
  lemma {:induction false} EvaluateFrame(n: Node, c1: Context, c2: Context)
    requires c1.runtime == c2.runtime && c1.lists == c2.lists
    requires forall f :: f in Fields(n) ==> Resolve(f, c1) == Resolve(f, c2)
    ensures Evaluate(n, c1) == Evaluate(n, c2)
  {
    match n
    case And(cs) =>
      forall i | 0 <= i < |cs| ensures Evaluate(cs[i], c1) == Evaluate(cs[i], c2) {
        EvaluateFrame(cs[i], c1, c2);
      }
    case Or(cs) =>
      forall i | 0 <= i < |cs| ensures Evaluate(cs[i], c1) == Evaluate(cs[i], c2) {
        EvaluateFrame(cs[i], c1, c2);
      }
    case Not(c) => EvaluateFrame(c, c1, c2);
    case _ =>
  }

  /** Whether resolving `field` reads the context entry `base`. */
  predicate Reads(field: string, base: string) {
    match BracketParts(field)
    case Some((b, _)) => b == base
    case None => field == base
  }

  /** Replacing an entry whose name contains a dot changes only the fields that name it. */
  lemma ResolveFrame(field: string, base: string, c1: Context, c2: Context)
    requires c1.runtime == c2.runtime
    requires '.' in base && base in c1.fields && base in c2.fields
    requires c1.fields - {base} == c2.fields - {base}
    requires !Reads(field, base)
    ensures Resolve(field, c1) == Resolve(field, c2)
  {
    assert forall k :: k != base ==> (k in c1.fields <==> k in c1.fields - {base}) && (k in c2.fields <==> k in c2.fields - {base});
    assert forall k :: k != base && k in c1.fields ==> c1.fields[k] == (c1.fields - {base})[k] == c2.fields[k];
    if BracketParts(field).None? && field !in c1.fields {
      assert SplitDots(field)[0] != base;
    }
  }
}
