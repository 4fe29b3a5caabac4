/** What a policy bundle decides, said of the bundle's own fields and of the fields that expressions read. */
module PolicyLaws {
  import opened Common
  import opened Expression
  import opened StableSort
  import opened OperatorLaws
  import opened Policy
  import Lexer
  import LexerRoundTrip
  import Parser
  import Printer

  // ---------------------------------------------------------------- who decides

  /** The expression of a policy: the precompiled tree, or what its text parses to. */
  function TreeOf(p: RawPolicy): Option<Node> {
    match p.ast
    case Some(n) => Some(n)
    case None => (match Parser.ExpressionOf({}, p.expression) case Ok(n) => Some(n) case Err(_) => None)
  }

  /** The policy is enabled, has an expression, and the expression is true. */
  predicate AppliesTo(p: RawPolicy, ctx: Context) {
    p.enabled && TreeOf(p).Some? && Evaluate(TreeOf(p).value, ctx)
  }

  /** Policy i applies, and every other one that does has a larger priority number, or the same and comes later in the bundle. */
  ghost predicate Decides(raw: seq<RawPolicy>, ctx: Context, i: nat) {
    && i < |raw| && AppliesTo(raw[i], ctx)
    && forall j :: 0 <= j < |raw| && AppliesTo(raw[j], ctx) && j != i ==>
         raw[i].priority < raw[j].priority || (raw[i].priority == raw[j].priority && i < j)
  }

  lemma AppliesIsRawMatch(p: RawPolicy, ctx: Context)
    ensures RawMatches(ctx)(p) == AppliesTo(p, ctx)
    ensures AppliesTo(p, ctx) ==> ResultOf(Compile(p).value) == PolicyResult(p.action, p.name, p.action == "skip_dlp", p.action == "skip_ratelimit")
  {
    hide Parser.ExpressionOf, Evaluate;
  }

  /** The deciding policy's own action and name are the result, and the two skip flags follow from the action. */
  lemma DecidingPolicyWins(raw: seq<RawPolicy>, ctx: Context, i: nat)
    requires Decides(raw, ctx, i)
    ensures BundleDecision(raw, ctx) == PolicyResult(raw[i].action, raw[i].name, raw[i].action == "skip_dlp", raw[i].action == "skip_ratelimit")
  {
    hide AppliesTo, BundleDecision, Compile;
    forall j | 0 <= j < |raw| ensures RawMatches(ctx)(raw[j]) == AppliesTo(raw[j], ctx) {
      AppliesIsRawMatch(raw[j], ctx);
    }
    AppliesIsRawMatch(raw[i], ctx);
    assert Best(RawKey, RawMatches(ctx), raw, i);
    LeastPriorityThenPositionWins(raw, ctx, i);
  }

  /** Without a policy that applies a bundle denies, unless it is empty: then everything is allowed. */
  lemma UndecidedBundles(raw: seq<RawPolicy>, ctx: Context)
    requires forall i :: 0 <= i < |raw| ==> !AppliesTo(raw[i], ctx)
    ensures BundleDecision(raw, ctx).action == if raw == [] then "allow" else "deny"
    ensures !BundleDecision(raw, ctx).skipDlp && !BundleDecision(raw, ctx).skipRatelimit
  {
    hide AppliesTo, BundleDecision, RawMatches;
    forall j | 0 <= j < |raw| ensures !RawMatches(ctx)(raw[j]) {
      AppliesIsRawMatch(raw[j], ctx);
    }
    NoMatchDenies(raw, ctx);
  }

  lemma {:induction false} CompileAllAppends(a: seq<RawPolicy>, b: seq<RawPolicy>)
    ensures CompileAll(a + b) == CompileAll(a) + CompileAll(b)
  {
    hide Compile;
    if a == [] {
      assert a + b == b;
    } else {
      CompileAllAppends(a[1..], b);
      assert (a + b)[1..] == a[1..] + b && (a + b)[0] == a[0];
      var first := if Compile(a[0]).Some? then [Compile(a[0]).value] else [];
      assert first + (CompileAll(a[1..]) + CompileAll(b)) == (first + CompileAll(a[1..])) + CompileAll(b);
    }
  }

  /** Taking a disabled policy out of a bundle changes no decision, unless the bundle then is empty: that turns deny into allow. */
  lemma DisabledPoliciesDoNotMatter(raw: seq<RawPolicy>, i: nat, ctx: Context)
    requires i < |raw| && !raw[i].enabled
    ensures var rest := raw[..i] + raw[i + 1..];
      if |raw| > 1 then BundleDecision(rest, ctx) == BundleDecision(raw, ctx)
      else BundleDecision(raw, ctx).action == "deny" && BundleDecision(rest, ctx).action == "allow"
  {
    hide Sort, FirstMatch, Evaluate, Parser.ExpressionOf, CompileAll;
    var rest := raw[..i] + raw[i + 1..];
    if |raw| == 1 {
      assert rest == [];
      UndecidedBundles(raw, ctx);
      UndecidedBundles([], ctx);
    } else {
      SameLoaded(raw, i);
      assert |rest| > 0;
    }
  }

  lemma SameLoaded(raw: seq<RawPolicy>, i: nat)
    requires i < |raw| && !raw[i].enabled
    ensures CompileAll(raw[..i] + raw[i + 1..]) == CompileAll(raw)
  {
    hide CompileAll;
    assert raw == raw[..i] + ([raw[i]] + raw[i + 1..]);
    CompileAllAppends(raw[..i], [raw[i]] + raw[i + 1..]);
    CompileAllAppends([raw[i]], raw[i + 1..]);
    CompileAllAppends(raw[..i], raw[i + 1..]);
    DisabledCompilesToNothing(raw[i]);
  }

  lemma DisabledCompilesToNothing(p: RawPolicy)
    requires !p.enabled
    ensures CompileAll([p]) == []
  {
  }

  // ---------------------------------------------------------------- what expressions read

  lemma NamedFieldResolves(name: string, ctx: Context)
    requires name in ctx.fields && Plain(name)
    ensures Resolve(name, ctx) == ctx.fields[name]
  {
    hide BracketParts;
    PlainNameIsNoBracket(name);
  }

  lemma NamesArePlain()
    ensures Plain("mcp.method") && Plain("mcp.server") && Plain("mcp.tool") && Plain("mcp.resource")
    ensures Plain("mcp.prompt") && Plain("ip.src") && Plain("mcp.arg")
  {
  }

  lemma CallerNamesArePlain()
    ensures Plain("mcp.identity") && Plain("mcp.identity.kind") && Plain("mcp.team") && Plain("auth.claim")
    ensures Plain("auth.claim.sub") && Plain("auth.claim.iss") && Plain("auth.claim.aud")
  {
  }

  lemma RequestEntries(rt: Runtime, auth: AuthContext, req: Request)
    ensures var fields := BuildContext(rt, auth, req).fields;
      && "mcp.method" in fields && fields["mcp.method"] == StrValue(req.rpcMethod)
      && "mcp.server" in fields && fields["mcp.server"] == StrValue(req.server)
      && "mcp.tool" in fields && fields["mcp.tool"] == StrValue(req.tool)
      && "ip.src" in fields && fields["ip.src"] == StrValue(req.ip)
  {
  }

  lemma MoreRequestEntries(rt: Runtime, auth: AuthContext, req: Request)
    ensures var fields := BuildContext(rt, auth, req).fields;
      && "mcp.resource" in fields && fields["mcp.resource"] == StrValue(req.resource)
      && "mcp.prompt" in fields && fields["mcp.prompt"] == StrValue(req.prompt)
      && "mcp.arg" in fields && fields["mcp.arg"] == DictValue(req.args)
  {
  }

  /** The fields of a request that expressions can name. */
  lemma RequestFields(rt: Runtime, auth: AuthContext, req: Request)
    ensures var ctx := BuildContext(rt, auth, req);
      && Resolve("mcp.method", ctx) == StrValue(req.rpcMethod) && Resolve("mcp.server", ctx) == StrValue(req.server)
      && Resolve("mcp.tool", ctx) == StrValue(req.tool) && Resolve("mcp.resource", ctx) == StrValue(req.resource)
      && Resolve("mcp.prompt", ctx) == StrValue(req.prompt) && Resolve("ip.src", ctx) == StrValue(req.ip)
      && Resolve("mcp.arg", ctx) == DictValue(req.args)
  {
    hide Resolve, Plain, BuildContext;
    var ctx := BuildContext(rt, auth, req);
    NamesArePlain();
    RequestEntries(rt, auth, req);
    MoreRequestEntries(rt, auth, req);
    NamedFieldResolves("mcp.method", ctx);
    NamedFieldResolves("mcp.server", ctx);
    NamedFieldResolves("mcp.tool", ctx);
    NamedFieldResolves("mcp.resource", ctx);
    NamedFieldResolves("mcp.prompt", ctx);
    NamedFieldResolves("ip.src", ctx);
    NamedFieldResolves("mcp.arg", ctx);
  }

  /** The fields of its caller. */
  lemma CallerFields(rt: Runtime, auth: AuthContext, req: Request)
    ensures var ctx := BuildContext(rt, auth, req);
      && Resolve("mcp.identity", ctx) == StrValue(auth.name) && Resolve("mcp.identity.kind", ctx) == StrValue(auth.kind)
      && Resolve("mcp.team", ctx) == StrValue(rt.toStr(IntValue(auth.teamId))) && Resolve("auth.claim", ctx) == DictValue(auth.claims)
  {
    hide Resolve, Plain;
    var ctx := BuildContext(rt, auth, req);
    CallerNamesArePlain();
    NamedFieldResolves("mcp.identity", ctx);
    NamedFieldResolves("mcp.identity.kind", ctx);
    NamedFieldResolves("mcp.team", ctx);
    NamedFieldResolves("auth.claim", ctx);
  }

  /** mcp.arg["key"] */
  function ArgumentField(key: string): string {
    "mcp.arg" + ("[\"" + (key + "\"]"))
  }

  function ClaimField(key: string): string {
    "auth.claim" + ("[\"" + (key + "\"]"))
  }

  predicate PlainKey(key: string) {
    key != "" && '\n' !in key
  }

  /** The text of the entry under a key, if it has one. */
  function TextUnder(rt: Runtime, entries: map<string, Value>, key: string): Value {
    if key in entries && entries[key] != NoneValue then StrValue(rt.toStr(entries[key])) else NoneValue
  }

  /** An argument or a claim is read by its key, as a text. */
  lemma KeyedFields(rt: Runtime, auth: AuthContext, req: Request, key: string)
    requires PlainKey(key)
    ensures Resolve(ArgumentField(key), BuildContext(rt, auth, req)) == TextUnder(rt, req.args, key)
    ensures Resolve(ClaimField(key), BuildContext(rt, auth, req)) == TextUnder(rt, auth.claims, key)
  {
    hide Resolve, Plain;
    var ctx := BuildContext(rt, auth, req);
    NamesArePlain();
    CallerNamesArePlain();
    BracketFieldResolves("mcp.arg", key, ctx);
    BracketFieldResolves("auth.claim", key, ctx);
  }

  /** The claims sub, iss and aud are also read by dotted names; where one is missing but others are there, as the empty text. */
  lemma DottedClaims(rt: Runtime, auth: AuthContext, req: Request)
    requires auth.claims != map[] && PythonLike(rt)
    ensures var ctx := BuildContext(rt, auth, req);
      && Resolve("auth.claim.sub", ctx) == StrValue(if "sub" in auth.claims then rt.toStr(auth.claims["sub"]) else "")
      && Resolve("auth.claim.iss", ctx) == StrValue(if "iss" in auth.claims then rt.toStr(auth.claims["iss"]) else "")
      && Resolve("auth.claim.aud", ctx) == StrValue(if "aud" in auth.claims then rt.toStr(auth.claims["aud"]) else "")
  {
    hide Resolve, Plain;
    var ctx := BuildContext(rt, auth, req);
    CallerNamesArePlain();
    NamedFieldResolves("auth.claim.sub", ctx);
    NamedFieldResolves("auth.claim.iss", ctx);
    NamedFieldResolves("auth.claim.aud", ctx);
  }

  // ---------------------------------------------------------------- from written policies to decisions

  /** A bundle of one policy, given as text. */
  function OnePolicy(name: string, text: string, action: string): seq<RawPolicy> {
    [RawPolicy(name, 0, true, None, text, action)]
  }

  /** A policy written down decides as its expression evaluates, and denies where it does not apply. */
  lemma WrittenPolicyDecides(name: string, n: Node, action: string, ctx: Context)
    requires Printer.Expressible({}, n) && Printer.Writable(n)
    ensures BundleDecision(OnePolicy(name, Printer.Print(n), action), ctx).action == if Evaluate(n, ctx) then action else "deny"
  {
    hide Printer.Print, Parser.ExpressionOf, Evaluate, BundleDecision;
    Printer.ParseExpressionUndoesPrint({}, n);
    var raw := OnePolicy(name, Printer.Print(n), action);
    assert AppliesTo(raw[0], ctx) == Evaluate(n, ctx);
    if Evaluate(n, ctx) {
      DecidingPolicyWins(raw, ctx, 0);
    } else {
      UndecidedBundles(raw, ctx);
    }
  }

  lemma ArgumentFieldIsWritable(key: string)
    ensures Printer.SplitField(ArgumentField(key)) == Parser.Keyed("mcp.arg", key) && LexerRoundTrip.IsIdentifier("mcp.arg")
  {
    var tail := "[\"" + (key + "\"]");
    var field := ArgumentField(key);
    KeyWithin(key);
    assert field[..7] == "mcp.arg" && field[7..] == tail && field[7] == '[';
    ArgumentSpan(key);
    ArgumentIsIdentifier();
  }

  lemma ArgumentSpan(key: string)
    ensures Lexer.Span(Lexer.IsIdentChar, ArgumentField(key)) == 7
  {
    var field, k := ArgumentField(key), Lexer.Span(Lexer.IsIdentChar, ArgumentField(key));
    assert field[7] == '[' && !Lexer.IsIdentChar('[');
    assert forall i :: 0 <= i < 7 ==> field[i] == "mcp.arg"[i] && Lexer.IsIdentChar("mcp.arg"[i]);
  }

  lemma ArgumentIsIdentifier()
    ensures LexerRoundTrip.IsIdentifier("mcp.arg")
  {
    assert Lexer.Lower("mcp.arg") == "mcp.arg";
  }

  /** A written policy that allows `mcp.arg["key"] > k` allows exactly the calls whose argument is there and is read as an integer above k. */
  lemma ArgumentThreshold(rt: Runtime, auth: AuthContext, req: Request, name: string, key: string, k: int)
    requires PlainKey(key)
    ensures var text := Printer.Print(Compare(ArgumentField(key), Gt, IntConst(k), false));
      var v := TextUnder(rt, req.args, key);
      BundleDecision(OnePolicy(name, text, "allow"), BuildContext(rt, auth, req)).action
      == if v != NoneValue && rt.toInt(v).Some? && rt.toInt(v).value > k then "allow" else "deny"
  {
    hide BuildContext, Resolve, BundleDecision, Printer.Print, Printer.SplitField, LexerRoundTrip.IsIdentifier;
    var n := Compare(ArgumentField(key), Gt, IntConst(k), false);
    var ctx := BuildContext(rt, auth, req);
    ContextRuntime(rt, auth, req);
    KeyedFields(rt, auth, req, key);
    ArgumentFieldIsWritable(key);
    WrittenPolicyDecides(name, n, "allow", ctx);
    if Resolve(n.field, ctx) == NoneValue {
      AbsentFields(n, ctx);
    }
  }

  lemma ContextRuntime(rt: Runtime, auth: AuthContext, req: Request)
    ensures BuildContext(rt, auth, req).runtime == rt
  {
  }
}
