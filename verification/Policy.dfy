/** First-match-wins policies of mcp-gateway/policy.py, and the list filters built on them. */
module Policy {
  import opened Common
  import opened Expression
  import opened StableSort
  import Parser

  /** A policy of the config bundle. `ast` is its precompiled expression, if the bundle has one. */
  datatype RawPolicy = RawPolicy(name: string, priority: int, enabled: bool, ast: Option<Node>, expression: string, action: string)

  datatype CompiledPolicy = CompiledPolicy(name: string, priority: int, ast: Node, action: string)

  datatype PolicyResult = PolicyResult(action: string, ruleName: string, skipDlp: bool, skipRatelimit: bool)

  // ---------------------------------------------------------------- loading

  /** None when the policy is disabled or its expression does not parse. */
  function Compile(p: RawPolicy): Option<CompiledPolicy> {
    if !p.enabled then None
    else if p.ast.Some? then Some(CompiledPolicy(p.name, p.priority, p.ast.value, p.action))
    else
      match Parser.ExpressionOf({}, p.expression)
      case Err(_) => None
      case Ok(n) => Some(CompiledPolicy(p.name, p.priority, n, p.action))
  }

  function CompileAll(raw: seq<RawPolicy>): seq<CompiledPolicy> {
    if raw == [] then []
    else (if Compile(raw[0]).Some? then [Compile(raw[0]).value] else []) + CompileAll(raw[1..])
  }

  function PriorityKey(p: CompiledPolicy): Key { (p.priority, 0) }

  function RawKey(p: RawPolicy): Key { (p.priority, 0) }

  function Loaded(raw: seq<RawPolicy>): seq<CompiledPolicy> {
    Sort(PriorityKey, CompileAll(raw))
  }

  // ---------------------------------------------------------------- evaluation

  function PolicyMatches(ctx: Context): CompiledPolicy -> bool {
    (p: CompiledPolicy) => Evaluate(p.ast, ctx)
  }

  function ResultOf(p: CompiledPolicy): PolicyResult {
    PolicyResult(p.action, p.name, p.action == "skip_dlp", p.action == "skip_ratelimit")
  }

  const NO_POLICIES := PolicyResult("allow", "<default: no policies>", false, false)
  const NO_MATCH := PolicyResult("deny", "<default: no match>", false, false)

  function Decision(configured: bool, policies: seq<CompiledPolicy>, ctx: Context): PolicyResult {
    if !configured then NO_POLICIES
    else
      match FirstMatch(PolicyMatches(ctx), policies)
      case Some(p) => ResultOf(p)
      case None => NO_MATCH
  }

  /** The decision for a request under a config bundle. */
  function BundleDecision(raw: seq<RawPolicy>, ctx: Context): PolicyResult {
    Decision(|raw| > 0, Loaded(raw), ctx)
  }

  predicate Denied(r: PolicyResult) { r.action == "deny" }

  predicate Visible(r: PolicyResult) { r.action == "allow" || r.action == "skip_dlp" || r.action == "skip_ratelimit" }

  predicate LegalAction(action: string) {
    action == "allow" || action == "deny" || action == "skip_dlp" || action == "skip_ratelimit"
  }

  // ---------------------------------------------------------------- contexts

  datatype AuthContext = AuthContext(name: string, kind: string, teamId: int, claims: map<string, Value>)

  /** What the caller asks for; the fields it leaves out are empty. */
  datatype Request = Request(
    rpcMethod: string, server: string, tool: string, resource: string, prompt: string, args: map<string, Value>, ip: string)

  function Claim(rt: Runtime, claims: map<string, Value>, key: string): Value {
    StrValue(rt.toStr(if key in claims then claims[key] else StrValue("")))
  }

  /** build_mcp_context, without a list resolver. */
  function BuildContext(rt: Runtime, auth: AuthContext, req: Request): Context {
    var base := map[
      "mcp.method" := StrValue(req.rpcMethod),
      "mcp.server" := StrValue(req.server),
      "mcp.tool" := StrValue(req.tool),
      "mcp.resource" := StrValue(req.resource),
      "mcp.prompt" := StrValue(req.prompt),
      "mcp.identity" := StrValue(auth.name),
      "mcp.identity.kind" := StrValue(auth.kind),
      "mcp.team" := StrValue(rt.toStr(IntValue(auth.teamId))),
      "mcp.arg" := DictValue(req.args),
      "auth.claim" := DictValue(auth.claims),
      "ip.src" := StrValue(req.ip)];
    var flat := map[
      "auth.claim.sub" := Claim(rt, auth.claims, "sub"),
      "auth.claim.iss" := Claim(rt, auth.claims, "iss"),
      "auth.claim.aud" := Claim(rt, auth.claims, "aud")];
    Context(if auth.claims == map[] then base else base + flat, None, rt)
  }

  function ToolRequest(rpcMethod: string, tool: string, server: string, args: map<string, Value>, ip: string): Request {
    Request(rpcMethod, server, tool, "", "", args, ip)
  }

  function ResourceRequest(rpcMethod: string, uri: string, server: string, ip: string): Request {
    Request(rpcMethod, server, "", uri, "", map[], ip)
  }

  function PromptRequest(rpcMethod: string, prompt: string, server: string, ip: string): Request {
    Request(rpcMethod, server, "", "", prompt, map[], ip)
  }

  datatype Kind = Tools | Resources | Prompts

  /** The request that list filtering judges an entry by. */
  function ListRequest(kind: Kind, name: string, namespace: string, ip: string): Request {
    match kind
    case Tools => ToolRequest("tools/call", name, namespace, map[], ip)
    case Resources => ResourceRequest("resources/read", name, namespace, ip)
    case Prompts => PromptRequest("prompts/get", name, namespace, ip)
  }

  function Shows(configured: bool, policies: seq<CompiledPolicy>, kind: Kind, namespace: string, rt: Runtime, auth: AuthContext, ip: string)
    : Item -> bool
  {
    (x: Item) => Visible(Decision(configured, policies, BuildContext(rt, auth, ListRequest(kind, x.name, namespace, ip))))
  }

  // ---------------------------------------------------------------- the program

  /** An entry of a tool, resource or prompt list: its name or URI, and the rest of it. */
  datatype Item = Item(name: string, rest: string)

  class PolicyEngine {
    var compiled: seq<CompiledPolicy>
    var configured: bool

    constructor ()
      ensures compiled == [] && !configured
    {
      compiled, configured := [], false;
    }

    method LoadPolicies(raw: seq<RawPolicy>)
      modifies this
      ensures configured == (|raw| > 0) && compiled == Loaded(raw)
    {
      configured := |raw| > 0;
      var kept: seq<CompiledPolicy> := [];
      for i := 0 to |raw|
        invariant CompileAll(raw) == kept + CompileAll(raw[i..])
      {
        assert raw[i..][1..] == raw[i + 1..];
        var p := Compile(raw[i]);
        if p.Some? {
          kept := kept + [p.value];
        }
      }
      assert raw[|raw|..] == [] && kept + [] == kept;
      compiled := Sort(PriorityKey, kept);
    }

    method EvaluatePolicy(ctx: Context) returns (r: PolicyResult)
      ensures r == Decision(configured, compiled, ctx)
    {
      if !configured {
        return NO_POLICIES;
      }
      for i := 0 to |compiled|
        invariant FirstMatch(PolicyMatches(ctx), compiled) == FirstMatch(PolicyMatches(ctx), compiled[i..])
      {
        assert compiled[i..][1..] == compiled[i + 1..];
        if Evaluate(compiled[i].ast, ctx) {
          return ResultOf(compiled[i]);
        }
      }
      return NO_MATCH;
    }

    /** filter_tool_list, filter_resource_list and filter_prompt_list, whose loops differ in the request they build. */
    method FilterList(kind: Kind, items: seq<Item>, namespace: string, rt: Runtime, auth: AuthContext, ip: string)
      returns (result: seq<Item>)
      ensures result == Filter(Shows(configured, compiled, kind, namespace, rt, auth, ip), items)
    {
      hide BuildContext, Decision, ListRequest;
      result := [];
      ghost var keep := Shows(configured, compiled, kind, namespace, rt, auth, ip);
      for i := 0 to |items|
        invariant Filter(keep, items) == result + Filter(keep, items[i..])
      {
        assert items[i..][1..] == items[i + 1..];
        var pr := EvaluatePolicy(BuildContext(rt, auth, ListRequest(kind, items[i].name, namespace, ip)));
        if pr.action == "allow" || pr.action == "skip_dlp" || pr.action == "skip_ratelimit" {
          assert keep(items[i]);
          result := result + [items[i]];
        }
      }
      assert items[|items|..] == [];
    }
  }

  // ---------------------------------------------------------------- least priority, earliest position

  function RawMatches(ctx: Context): RawPolicy -> bool {
    (p: RawPolicy) => Compile(p).Some? && Evaluate(Compile(p).value.ast, ctx)
  }

  lemma CompileKeepsPriority(p: RawPolicy)
    requires Compile(p).Some?
    ensures PriorityKey(Compile(p).value) == RawKey(p)
  {
  }

  lemma CompileAllStep(raw: seq<RawPolicy>)
    requires raw != []
    ensures Loaded(raw) == if Compile(raw[0]).Some? then Insert(PriorityKey, Compile(raw[0]).value, Loaded(raw[1..])) else Loaded(raw[1..])
  {
    hide Compile, Insert;
    if Compile(raw[0]).Some? {
      var all := CompileAll(raw);
      assert all[0] == Compile(raw[0]).value && all[1..] == CompileAll(raw[1..]);
    } else {
      assert CompileAll(raw) == CompileAll(raw[1..]);
    }
  }

  predicate Selects(raw: seq<RawPolicy>, best: Option<nat>, m: Option<CompiledPolicy>) {
    match best
    case None => m == None
    case Some(i) => i < |raw| && Compile(raw[i]).Some? && m == Compile(raw[i])
  }

  /** The first match of the loaded policies is the best match of the bundle. */
  lemma {:induction false} LoadedFirstMatch(raw: seq<RawPolicy>, ctx: Context)
    ensures Selects(raw, BestAt(RawKey, RawMatches(ctx), raw), FirstMatch(PolicyMatches(ctx), Loaded(raw)))
  {
    hide Compile, Evaluate, Insert, Sort, NotAfter, Loaded;
    if raw == [] {
      NothingLoaded();
    } else {
      var tail := raw[1..];
      var best := BestAt(RawKey, RawMatches(ctx), tail);
      LoadedFirstMatch(tail, ctx);
      CompileAllStep(raw);
      LoadedSorted(tail);
      if best.Some? { CompileKeepsPriority(tail[best.value]); }
      if Compile(raw[0]).Some? {
        CompileKeepsPriority(raw[0]);
        InsertFirstMatch(PriorityKey, PolicyMatches(ctx), Compile(raw[0]).value, Loaded(tail));
      }
    }
  }

  lemma NothingLoaded()
    ensures Loaded([]) == []
  {
  }

  lemma LoadedSorted(raw: seq<RawPolicy>)
    ensures Sorted(PriorityKey, Loaded(raw))
  {
    SortSorted(PriorityKey, CompileAll(raw));
  }

  /** The bundle is decided by the matching policy with the least priority, and among those by the earliest in the bundle. */
  lemma LeastPriorityThenPositionWins(raw: seq<RawPolicy>, ctx: Context, i: nat)
    requires Best(RawKey, RawMatches(ctx), raw, i)
    ensures BundleDecision(raw, ctx) == ResultOf(Compile(raw[i]).value)
  {
    LoadedFirstMatch(raw, ctx);
    BestAtIsBest(RawKey, RawMatches(ctx), raw);
    BestIsUnique(RawKey, RawMatches(ctx), raw, i, BestAt(RawKey, RawMatches(ctx), raw).value);
  }

  /** Policies that are all disabled, broken or not matching deny; no policies at all allow. */
  lemma NoMatchDenies(raw: seq<RawPolicy>, ctx: Context)
    requires forall i :: 0 <= i < |raw| ==> !RawMatches(ctx)(raw[i])
    ensures BundleDecision(raw, ctx) == if raw == [] then NO_POLICIES else NO_MATCH
  {
    LoadedFirstMatch(raw, ctx);
    BestAtIsBest(RawKey, RawMatches(ctx), raw);
  }

  // ---------------------------------------------------------------- listed iff callable

  /** Listing and calling judge a result alike exactly when its action is one of the four legal ones. */
  lemma VisibleExactlyWhenNotDenied(r: PolicyResult)
    ensures (Visible(r) <==> !Denied(r)) <==> LegalAction(r.action)
  {
  }

  predicate LegalBundle(raw: seq<RawPolicy>) {
    forall i | 0 <= i < |raw| :: LegalAction(raw[i].action)
  }

  lemma LegalDecision(raw: seq<RawPolicy>, ctx: Context)
    requires LegalBundle(raw)
    ensures LegalAction(BundleDecision(raw, ctx).action)
  {
    LoadedFirstMatch(raw, ctx);
  }

  /** What list filtering keeps. */
  predicate Listed(raw: seq<RawPolicy>, rt: Runtime, auth: AuthContext, req: Request) {
    Visible(BundleDecision(raw, BuildContext(rt, auth, req)))
  }

  /** What the call-time check lets through. */
  predicate Callable(raw: seq<RawPolicy>, rt: Runtime, auth: AuthContext, req: Request) {
    !Denied(BundleDecision(raw, BuildContext(rt, auth, req)))
  }

  /** A resource or prompt survives filtering exactly when the call-time check does not deny it. */
  lemma ResourcesAndPromptsListedIffCallable(raw: seq<RawPolicy>, rt: Runtime, auth: AuthContext, name: string, server: string, ip: string)
    requires LegalBundle(raw)
    ensures Listed(raw, rt, auth, ResourceRequest("resources/read", name, server, ip))
            == Callable(raw, rt, auth, ResourceRequest("resources/read", name, server, ip))
    ensures Listed(raw, rt, auth, PromptRequest("prompts/get", name, server, ip))
            == Callable(raw, rt, auth, PromptRequest("prompts/get", name, server, ip))
  {
    LegalDecision(raw, BuildContext(rt, auth, ResourceRequest("resources/read", name, server, ip)));
    LegalDecision(raw, BuildContext(rt, auth, PromptRequest("prompts/get", name, server, ip)));
  }

  /** No field of the expression reads the call's arguments. */
  predicate IgnoresArgs(n: Node) {
    forall f | f in Fields(n) :: !Reads(f, "mcp.arg")
  }

  predicate BundleIgnoresArgs(raw: seq<RawPolicy>) {
    forall i | 0 <= i < |raw| :: Compile(raw[i]).Some? ==> IgnoresArgs(Compile(raw[i]).value.ast)
  }

  lemma ArgsOnlyDiffer(rt: Runtime, auth: AuthContext, req: Request, args: map<string, Value>)
    ensures var c1, c2 := BuildContext(rt, auth, req), BuildContext(rt, auth, req.(args := args));
            c1.runtime == c2.runtime && c1.lists == c2.lists && "mcp.arg" in c1.fields && "mcp.arg" in c2.fields
            && c1.fields - {"mcp.arg"} == c2.fields - {"mcp.arg"}
  {
  }

  lemma MatchIgnoresArgs(n: Node, rt: Runtime, auth: AuthContext, req: Request, args: map<string, Value>)
    requires IgnoresArgs(n)
    ensures Evaluate(n, BuildContext(rt, auth, req)) == Evaluate(n, BuildContext(rt, auth, req.(args := args)))
  {
    hide BuildContext;
    var c1, c2 := BuildContext(rt, auth, req), BuildContext(rt, auth, req.(args := args));
    ArgsOnlyDiffer(rt, auth, req, args);
    forall f | f in Fields(n) ensures Resolve(f, c1) == Resolve(f, c2) {
      ResolveFrame(f, "mcp.arg", c1, c2);
    }
    EvaluateFrame(n, c1, c2);
  }

  lemma {:induction false} BestAtSame<T>(key: T -> Key, p: T -> bool, q: T -> bool, s: seq<T>)
    requires forall i :: 0 <= i < |s| ==> p(s[i]) == q(s[i])
    ensures BestAt(key, p, s) == BestAt(key, q, s)
  {
    if s != [] { BestAtSame(key, p, q, s[1..]); }
  }

  /** The decision does not depend on the arguments of the call. */
  lemma DecisionIgnoresArgs(raw: seq<RawPolicy>, rt: Runtime, auth: AuthContext, req: Request, args: map<string, Value>)
    requires BundleIgnoresArgs(raw)
    ensures BundleDecision(raw, BuildContext(rt, auth, req)) == BundleDecision(raw, BuildContext(rt, auth, req.(args := args)))
  {
    hide BuildContext, Loaded, Parser.ExpressionOf, Evaluate;
    var c1, c2 := BuildContext(rt, auth, req), BuildContext(rt, auth, req.(args := args));
    forall i | 0 <= i < |raw| ensures RawMatches(c1)(raw[i]) == RawMatches(c2)(raw[i]) {
      if Compile(raw[i]).Some? { MatchIgnoresArgs(Compile(raw[i]).value.ast, rt, auth, req, args); }
    }
    BestAtSame(RawKey, RawMatches(c1), RawMatches(c2), raw);
    LoadedFirstMatch(raw, c1);
    LoadedFirstMatch(raw, c2);
  }

  /** A tool survives filtering exactly when calls to it are not denied, whatever their arguments, if no expression reads them. */
  lemma ToolsListedIffCallable(raw: seq<RawPolicy>, rt: Runtime, auth: AuthContext, tool: string, server: string, ip: string,
                               args: map<string, Value>)
    requires LegalBundle(raw) && BundleIgnoresArgs(raw)
    ensures Listed(raw, rt, auth, ToolRequest("tools/call", tool, server, map[], ip))
            == Callable(raw, rt, auth, ToolRequest("tools/call", tool, server, args, ip))
  {
    var req := ToolRequest("tools/call", tool, server, map[], ip);
    DecisionIgnoresArgs(raw, rt, auth, req, args);
    LegalDecision(raw, BuildContext(rt, auth, req));
  }

  /** A bundle whose one policy allows calls that have arguments: `mcp.arg = true`. */
  const NEEDS_ARGUMENTS := [RawPolicy("needs arguments", 0, true, Some(Compare("mcp.arg", Eq, BoolConst(true), false)), "", "allow")]

  const SOME_ARGUMENTS: map<string, Value> := map["path" := StrValue("/")]

  /** With an expression on the arguments a tool can be hidden and yet callable. */
  lemma ArgsCanHideCallableTools(rt: Runtime, auth: AuthContext, tool: string, server: string, ip: string)
    ensures LegalBundle(NEEDS_ARGUMENTS)
    ensures !Listed(NEEDS_ARGUMENTS, rt, auth, ToolRequest("tools/call", tool, server, map[], ip))
    ensures Callable(NEEDS_ARGUMENTS, rt, auth, ToolRequest("tools/call", tool, server, SOME_ARGUMENTS, ip))
  {
    hide BuildContext, Resolve, Loaded, BracketParts;
    var n, raw := NEEDS_ARGUMENTS[0].ast.value, NEEDS_ARGUMENTS;
    var r1, r2 := ToolRequest("tools/call", tool, server, map[], ip), ToolRequest("tools/call", tool, server, SOME_ARGUMENTS, ip);
    var c1, c2 := BuildContext(rt, auth, r1), BuildContext(rt, auth, r2);
    ArgField(rt, auth, r1);
    ArgField(rt, auth, r2);
    assert "path" in SOME_ARGUMENTS;
    assert !Evaluate(n, c1) && Evaluate(n, c2);
    NoMatchDenies(raw, c1);
    assert Best(RawKey, RawMatches(c2), raw, 0);
    LeastPriorityThenPositionWins(raw, c2, 0);
  }

  lemma ArgIsPlain()
    ensures BracketParts("mcp.arg").None?
  {
  }

  lemma ArgField(rt: Runtime, auth: AuthContext, req: Request)
    ensures Resolve("mcp.arg", BuildContext(rt, auth, req)) == DictValue(req.args)
  {
    hide BracketParts;
    ArgIsPlain();
  }
}
