/** From a listed entry to a call of it: prefixing, list filtering, routing and the call-time check of mcp-gateway/protocol.py together. */
module Gateway {
  import opened Common
  import opened Expression
  import opened Policy
  import Namespacing

  /** The name or URI under which an upstream entry is listed. */
  function ListedName(kind: Kind, namespace: string, original: string): string {
    if kind == Resources then Namespacing.WrapResourceUri(namespace, original) else Namespacing.PrefixToolName(namespace, original)
  }

  /** The entry of the catalog survives list filtering; listing and calling pass no client address to the policies. */
  predicate InList(raw: seq<RawPolicy>, rt: Runtime, auth: AuthContext, kind: Kind, namespace: string, original: string) {
    Listed(raw, rt, auth, ListRequest(kind, ListedName(kind, namespace, original), namespace, ""))
  }

  function RouteKind(kind: Kind): Namespacing.Kind {
    match kind
    case Tools => Namespacing.ToolCall
    case Resources => Namespacing.ResourceRead
    case Prompts => Namespacing.PromptGet
  }

  /** The request that the call-time check judges: the name as the client sent it, and the namespace it was routed to. */
  function CallRequest(kind: Kind, name: string, namespace: string, args: map<string, Value>): Request {
    match kind
    case Tools => ToolRequest("tools/call", name, namespace, args, "")
    case Resources => ResourceRequest("resources/read", name, namespace, "")
    case Prompts => PromptRequest("prompts/get", name, namespace, "")
  }

  /** Where a call of that name is forwarded, if it is routed and not denied; prompts of the skill namespace are never judged. */
  function Forwarded(raw: seq<RawPolicy>, rt: Runtime, auth: AuthContext, kind: Kind, name: string, args: map<string, Value>)
    : Option<(string, string)>
  {
    match Namespacing.Route(RouteKind(kind), name)
    case None => None
    case Some((namespace, original)) =>
      if (kind == Prompts && namespace == "skill") || Callable(raw, rt, auth, CallRequest(kind, name, namespace, args))
      then Some((namespace, original)) else None
  }

  /** A namespace whose listed names routing can take apart. */
  predicate Routable(kind: Kind, namespace: string) {
    if kind == Resources then '/' !in namespace else Namespacing.PlainNamespace(namespace)
  }

  lemma ListedNameIsRouted(kind: Kind, namespace: string, original: string)
    requires Routable(kind, namespace)
    ensures Namespacing.Route(RouteKind(kind), ListedName(kind, namespace, original)) == Some((namespace, original))
  {
    hide Namespacing.Route, Namespacing.PlainNamespace, Namespacing.WrapResourceUri, Namespacing.PrefixToolName;
    Namespacing.RoutingUndoesListing(namespace, original);
  }

  /**
   * A client sees an entry exactly when a call of what it sees reaches that entry's server under its original name,
   * with legal actions, routable namespaces and, for tools, no expression on the arguments.
   */
  lemma ListedExactlyWhenForwarded(raw: seq<RawPolicy>, rt: Runtime, auth: AuthContext, kind: Kind, namespace: string, original: string,
                                   args: map<string, Value>)
    requires LegalBundle(raw) && Routable(kind, namespace)
    requires kind == Tools ==> BundleIgnoresArgs(raw)
    requires !(kind == Prompts && namespace == "skill")
    ensures InList(raw, rt, auth, kind, namespace, original)
       <==> Forwarded(raw, rt, auth, kind, ListedName(kind, namespace, original), args) == Some((namespace, original))
    ensures !InList(raw, rt, auth, kind, namespace, original)
       <==> Forwarded(raw, rt, auth, kind, ListedName(kind, namespace, original), args) == None
  {
    hide Listed, Callable, ListedName, LegalBundle, BundleIgnoresArgs, Namespacing.Route, Routable;
    var name := ListedName(kind, namespace, original);
    ListedNameIsRouted(kind, namespace, original);
    match kind
    case Tools => ToolsListedIffCallable(raw, rt, auth, name, namespace, "", args);
    case Resources => ResourcesAndPromptsListedIffCallable(raw, rt, auth, name, namespace, "");
    case Prompts => ResourcesAndPromptsListedIffCallable(raw, rt, auth, name, namespace, "");
  }
}
