/** Names and URIs that mcp-gateway/protocol.py prefixes when listing and takes apart when routing. */
module Namespacing {
  import opened Common
  import opened Percent

  function PrefixToolName(namespace: string, name: string): string {
    namespace + ("__" + name)
  }

  /** Position of the first "__", or |s|. */
  function FindDouble(s: string): (k: nat)
    ensures k <= |s|
    ensures k < |s| ==> k + 1 < |s| && s[k] == '_' && s[k + 1] == '_'
    ensures forall i :: 0 <= i < k && i + 1 < |s| ==> !(s[i] == '_' && s[i + 1] == '_')
  {
    if |s| < 2 then |s|
    else if s[0] == '_' && s[1] == '_' then 0
    else 1 + FindDouble(s[1..])
  }

  /** name.split("__", 1), when there is a "__". */
  function SplitName(name: string): Option<(string, string)> {
    var k := FindDouble(name);
    if k == |name| then None else Some((name[..k], name[k + 2..]))
  }

  const SCHEME := "mcp://"

  function WrapResourceUri(namespace: string, uri: string): string {
    SCHEME + (namespace + ("/" + Quote(uri)))
  }

  function FindSlash(s: string): (k: nat)
    ensures k <= |s|
    ensures k < |s| ==> s[k] == '/'
    ensures forall i :: 0 <= i < k ==> s[i] != '/'
  {
    if s == "" || s[0] == '/' then 0 else 1 + FindSlash(s[1..])
  }

  /** The namespace, if the URI is a wrapped one, and the original URI. */
  function UnwrapResourceUri(wrapped: string): (Option<string>, string) {
    if !(SCHEME <= wrapped) then (None, wrapped)
    else
      var rest := wrapped[6..];
      var k := FindSlash(rest);
      if k == |rest| then (None, wrapped) else (Some(rest[..k]), Unquote(rest[k + 1..]))
  }

  datatype Kind = ToolCall | ResourceRead | PromptGet

  /** The namespace and original name that _route_call forwards to; None is the missing-namespace error. */
  function Route(kind: Kind, name: string): Option<(string, string)> {
    if kind == ResourceRead then
      match UnwrapResourceUri(name)
      case (Some(namespace), original) => Some((namespace, original))
      case (None, _) => SplitName(name)
    else SplitName(name)
  }

  // ---------------------------------------------------------------- the program

  /** A list entry: its name and its "_meta" entry. */
  datatype Entry = Entry(name: string, meta: map<string, string>)

  function PrefixedEntry(namespace: string, e: Entry): Entry {
    Entry(PrefixToolName(namespace, e.name), e.meta["mcp_server" := namespace]["mcp_original_name" := e.name])
  }

  method PrefixListItems(items: seq<Entry>, namespace: string) returns (result: seq<Entry>)
    ensures |result| == |items| && forall i :: 0 <= i < |items| ==> result[i] == PrefixedEntry(namespace, items[i])
  {
    result := [];
    for i := 0 to |items|
      invariant |result| == i && forall j :: 0 <= j < i ==> result[j] == PrefixedEntry(namespace, items[j])
    {
      var meta := items[i].meta;
      meta := meta["mcp_server" := namespace];
      meta := meta["mcp_original_name" := items[i].name];
      result := result + [Entry(PrefixToolName(namespace, items[i].name), meta)];
    }
  }

  // ---------------------------------------------------------------- names

  /** A namespace that prefixing can be undone for. */
  predicate PlainNamespace(namespace: string) {
    FindDouble(namespace) == |namespace| && (namespace != "" ==> namespace[|namespace| - 1] != '_')
  }

  /** Splitting at the first "__" undoes prefixing exactly when the namespace has no "__" and does not end in "_". */
  lemma SplitUndoesPrefixExactlyWhen(namespace: string, name: string)
    ensures SplitName(PrefixToolName(namespace, name)) == Some((namespace, name)) <==> PlainNamespace(namespace)
  {
    var whole := PrefixToolName(namespace, name);
    var n, k := |namespace|, FindDouble(whole);
    assert whole[n] == '_' && whole[n + 1] == '_' && whole[n + 2..] == name && whole[..n] == namespace;
    assert forall i :: 0 <= i < n ==> whole[i] == namespace[i];
    assert k <= n;
    assert k + 1 < n ==> whole[k + 1] == namespace[k + 1];
    if !PlainNamespace(namespace) {
      if FindDouble(namespace) < n {
        var d := FindDouble(namespace);
        assert whole[d] == '_' && whole[d + 1] == '_';
      } else {
        assert whole[n - 1] == '_' && whole[n] == '_';
      }
      assert k < n;
      assert |whole[..k]| < n;
    }
  }

  /** Two plain namespaces never give the same prefixed name to different tools. */
  lemma PrefixedNamesAreInjective(ns1: string, name1: string, ns2: string, name2: string)
    requires PlainNamespace(ns1) && PlainNamespace(ns2) && PrefixToolName(ns1, name1) == PrefixToolName(ns2, name2)
    ensures ns1 == ns2 && name1 == name2
  {
    SplitUndoesPrefixExactlyWhen(ns1, name1);
    SplitUndoesPrefixExactlyWhen(ns2, name2);
  }

  // ---------------------------------------------------------------- URIs

  lemma Halves(a: string, b: string)
    ensures (a + b)[..|a|] == a && (a + b)[|a|..] == b
  {
  }

  lemma SlashAfter(namespace: string, tail: string)
    ensures FindSlash(namespace + ("/" + tail)) == FindSlash(namespace)
    ensures (namespace + ("/" + tail))[|namespace| + 1..] == tail
  {
    hide FindSlash;
    var whole := namespace + ("/" + tail);
    Halves(namespace, "/" + tail);
    assert whole[|namespace|] == ("/" + tail)[0] == '/';
    SameFirstSlash(namespace, whole);
    assert whole[|namespace| + 1..] == whole[|namespace|..][1..];
  }

  lemma SameFirstSlash(s: string, whole: string)
    requires |s| < |whole| && whole[..|s|] == s && whole[|s|] == '/'
    ensures FindSlash(whole) == FindSlash(s)
  {
    hide FindSlash;
    var k, w := FindSlash(s), FindSlash(whole);
    assert k < |s| ==> whole[..|s|][k] == '/';
    assert w < |s| ==> whole[..|s|][w] == '/';
  }

  /** Unwrapping undoes wrapping, for every URI, exactly when the namespace has no slash. */
  lemma UnwrapUndoesWrapExactlyWhen(namespace: string, uri: string)
    ensures UnwrapResourceUri(WrapResourceUri(namespace, uri)) == (Some(namespace), uri) <==> '/' !in namespace
  {
    hide Quote, Unquote;
    var rest := namespace + ("/" + Quote(uri));
    var wrapped := WrapResourceUri(namespace, uri);
    assert SCHEME <= wrapped && wrapped[6..] == rest;
    SlashAfter(namespace, Quote(uri));
    UnquoteUndoesQuote(uri);
    var k := FindSlash(namespace);
    assert k < |rest|;
    if '/' !in namespace {
      assert k == |namespace|;
      assert rest[..k] == namespace;
    } else {
      var i :| 0 <= i < |namespace| && namespace[i] == '/';
      assert k <= i;
      assert |rest[..k]| < |namespace|;
    }
  }

  /** What is listed under a namespace is routed back to it: tools and prompts by prefix, resources by wrapped URI. */
  lemma RoutingUndoesListing(namespace: string, original: string)
    ensures Route(ToolCall, PrefixToolName(namespace, original)) == Some((namespace, original)) <==> PlainNamespace(namespace)
    ensures Route(PromptGet, PrefixToolName(namespace, original)) == Some((namespace, original)) <==> PlainNamespace(namespace)
    ensures Route(ResourceRead, WrapResourceUri(namespace, original)) == Some((namespace, original)) <==> '/' !in namespace
  {
    hide Quote, Unquote, FindSlash, FindDouble;
    SplitUndoesPrefixExactlyWhen(namespace, original);
    UnwrapUndoesWrapExactlyWhen(namespace, original);
    WrappedHasNamespace(namespace, original);
  }

  /** A wrapped URI is always recognised as one. */
  lemma WrappedHasNamespace(namespace: string, uri: string)
    ensures UnwrapResourceUri(WrapResourceUri(namespace, uri)).0.Some?
  {
    hide Quote, Unquote;
    var rest := namespace + ("/" + Quote(uri));
    assert WrapResourceUri(namespace, uri)[6..] == rest;
    SlashAfter(namespace, Quote(uri));
  }

  /** Wrapped URIs of slash-free namespaces are injective. */
  lemma WrappedUrisAreInjective(ns1: string, uri1: string, ns2: string, uri2: string)
    requires '/' !in ns1 && '/' !in ns2 && WrapResourceUri(ns1, uri1) == WrapResourceUri(ns2, uri2)
    ensures ns1 == ns2 && uri1 == uri2
  {
    UnwrapUndoesWrapExactlyWhen(ns1, uri1);
    UnwrapUndoesWrapExactlyWhen(ns2, uri2);
  }

  // ---------------------------------------------------------------- exactly what is routed where

  /** Two underscores in a row. */
  predicate HasDouble(s: string) {
    exists i | 0 <= i < |s| - 1 :: s[i] == '_' && s[i + 1] == '_'
  }

  /** A namespace that names can be prefixed with and taken apart again, said of its characters. */
  predicate NoDoubleAtEnd(namespace: string) {
    !HasDouble(namespace) && (namespace != "" ==> namespace[|namespace| - 1] != '_')
  }

  lemma PlainExactlyWhen(namespace: string)
    ensures PlainNamespace(namespace) <==> NoDoubleAtEnd(namespace)
    ensures FindDouble(namespace) < |namespace| <==> HasDouble(namespace)
  {
    var k := FindDouble(namespace);
    if i :| 0 <= i < |namespace| - 1 && namespace[i] == '_' && namespace[i + 1] == '_' {
      assert k <= i;
    }
  }

  /** A name is split into a namespace and a rest exactly when it is that prefix of that rest; without two underscores in a row it is refused. */
  lemma SplitExactlyWhen(name: string, namespace: string, original: string)
    ensures SplitName(name) == Some((namespace, original)) <==> NoDoubleAtEnd(namespace) && name == namespace + ("__" + original)
    ensures SplitName(name) == None <==> !HasDouble(name)
  {
    hide HasDouble, NoDoubleAtEnd, PlainNamespace, SplitName;
    PlainExactlyWhen(name);
    PlainExactlyWhen(namespace);
    SplitFailsExactlyWhen(name);
    SplitUndoesPrefixExactlyWhen(namespace, original);
    if SplitName(name) == Some((namespace, original)) {
      SplitParts(name);
    }
  }

  lemma SplitFailsExactlyWhen(name: string)
    ensures SplitName(name) == None <==> FindDouble(name) == |name|
  {
  }

  lemma SplitParts(name: string)
    requires SplitName(name).Some?
    ensures name == PrefixToolName(SplitName(name).value.0, SplitName(name).value.1)
  {
    hide FindDouble;
    var k := FindDouble(name);
    assert name[k..k + 2] == "__";
    assert name[k..] == name[k..k + 2] + name[k + 2..];
    assert name == name[..k] + name[k..];
  }

  /** A URI of the form mcp://namespace/rest. */
  predicate IsWrapped(uri: string, namespace: string, rest: string) {
    '/' !in namespace && uri == "mcp://" + (namespace + ("/" + rest))
  }

  /** A URI is unwrapped exactly when it has that form, into its namespace and the unquoted rest; every other one is left as it is. */
  lemma UnwrapExactlyWhen(uri: string)
    ensures forall namespace, rest :: IsWrapped(uri, namespace, rest) ==> UnwrapResourceUri(uri) == (Some(namespace), Unquote(rest))
    ensures (forall namespace, rest :: !IsWrapped(uri, namespace, rest)) ==> UnwrapResourceUri(uri) == (None, uri)
  {
    hide Unquote;
    forall namespace, rest | IsWrapped(uri, namespace, rest) ensures UnwrapResourceUri(uri) == (Some(namespace), Unquote(rest)) {
      assert uri[6..] == namespace + ("/" + rest);
      SlashAfter(namespace, rest);
      NoSlash(namespace);
    }
    if SCHEME <= uri && FindSlash(uri[6..]) < |uri[6..]| {
      var tail, k := uri[6..], FindSlash(uri[6..]);
      assert tail == tail[..k] + ("/" + tail[k + 1..]);
      assert IsWrapped(uri, tail[..k], tail[k + 1..]);
    }
  }

  lemma NoSlash(s: string)
    requires '/' !in s
    ensures FindSlash(s) == |s|
  {
  }

  /** Every entry keeps its metadata, and records its server and its original name. */
  lemma EntriesRecordTheirOrigin(namespace: string, e: Entry, key: string)
    ensures var meta := PrefixedEntry(namespace, e).meta;
      && "mcp_server" in meta && meta["mcp_server"] == namespace
      && "mcp_original_name" in meta && meta["mcp_original_name"] == e.name
      && (key != "mcp_server" && key != "mcp_original_name" ==> (key in meta <==> key in e.meta) && (key in meta ==> meta[key] == e.meta[key]))
  {
  }
}
