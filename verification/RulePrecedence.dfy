/** Which stored rule decides, for each generated target: the applicable one with the smallest priority number, then id. */
module RulePrecedence {
  import opened Common
  import opened StableSort
  import opened CacheRules
  import opened CacheStore
  import Lexer

  /** Rule a comes before rule b: by priority number, then by id. */
  predicate Precedes(a: Rule, b: Rule) {
    a.priority < b.priority || (a.priority == b.priority && a.id < b.id)
  }

  /** Rule i applies, and every other rule that applies comes after it; rules with one id stay as they are stored. */
  ghost predicate Decides(config: seq<Rule>, applies: Rule -> bool, i: nat) {
    && i < |config| && applies(config[i])
    && forall j :: 0 <= j < |config| && applies(config[j]) && j != i ==>
         Precedes(config[i], config[j]) || (!Precedes(config[j], config[i]) && i < j)
  }

  ghost predicate NoneApplies(config: seq<Rule>, applies: Rule -> bool) {
    forall i :: 0 <= i < |config| ==> !applies(config[i])
  }

  /** What a target takes from the sorted rules: the enabled ones that it selects. */
  lemma {:induction false} FilteredFirstMatch(keep: Rule -> bool, p: Rule -> bool, both: Rule -> bool, s: seq<Rule>)
    requires forall r :: both(r) <==> keep(r) && p(r)
    ensures FirstMatch(p, Filter(keep, s)) == FirstMatch(both, s)
  {
    if s != [] {
      FilteredFirstMatch(keep, p, both, s[1..]);
      var rest := Filter(keep, s[1..]);
      assert keep(s[0]) ==> ([s[0]] + rest)[0] == s[0] && ([s[0]] + rest)[1..] == rest;
      assert !keep(s[0]) ==> [] + rest == rest;
    }
  }

  /** Sorting first and dropping disabled rules afterwards finds the same first match. */
  lemma {:induction false} SortedFilteredFirstMatch(keep: Rule -> bool, p: Rule -> bool, both: Rule -> bool, s: seq<Rule>)
    requires forall r :: both(r) <==> keep(r) && p(r)
    ensures FirstMatch(p, Sort(RuleKey, Filter(keep, s))) == FirstMatch(both, Sort(RuleKey, s))
  {
    hide Insert, NotAfter, RuleKey;
    if s != [] {
      var rest := Filter(keep, s[1..]);
      SortedFilteredFirstMatch(keep, p, both, s[1..]);
      SortSorted(RuleKey, s[1..]);
      SortSorted(RuleKey, rest);
      InsertFirstMatch(RuleKey, both, s[0], Sort(RuleKey, s[1..]));
      InsertFirstMatch(RuleKey, p, s[0], Sort(RuleKey, rest));
      assert keep(s[0]) ==> ([s[0]] + rest)[0] == s[0] && ([s[0]] + rest)[1..] == rest;
      assert !keep(s[0]) ==> [] + rest == rest;
    }
  }

  lemma DecidesIsBest(config: seq<Rule>, applies: Rule -> bool, i: nat)
    requires Decides(config, applies, i)
    ensures Best(RuleKey, applies, config, i)
  {
  }

  /** The first match among the rules that a target selects is the deciding rule of the stored configuration. */
  lemma FirstMatchDecides(config: seq<Rule>, select: Rule -> bool, p: Rule -> bool, applies: Rule -> bool)
    requires forall r: Rule :: applies(r) <==> r.enabled && select(r) && p(r)
    ensures forall i: nat :: Decides(config, applies, i) ==> FirstMatch(p, Filter(select, ActiveRules(config))) == Some(config[i])
    ensures NoneApplies(config, applies) ==> FirstMatch(p, Filter(select, ActiveRules(config))) == None
  {
    hide Decides, Best, RuleKey;
    var selected := (r: Rule) => select(r) && p(r);
    var enabled := (r: Rule) => r.enabled;
    FilteredFirstMatch(select, p, selected, ActiveRules(config));
    SortedFilteredFirstMatch(enabled, selected, applies, config);
    SortedFirstMatchIsBest(RuleKey, applies, config);
    forall i: nat | Decides(config, applies, i) ensures Best(RuleKey, applies, config, i) {
      DecidesIsBest(config, applies, i);
    }
  }

  // ---------------------------------------------------------------- the targets

  predicate IsRequestCriterion(m: MatchType) {
    m == Path || m == Filename || m == Extension || m == Method || m == QueryString
  }

  lemma PhaseOf(m: MatchType)
    ensures IsRequestCriterion(m) == RequestPhase(m)
  {
  }

  /** A rule that cache-use or use-server lines take into account, and whose criterion the request meets. */
  function AppliesToRequest(tier: Tier, acl: Acls): Rule -> bool {
    (r: Rule) => r.enabled && r.tier == tier && IsRequestCriterion(r.matchType) && acl(r.id)
  }

  /** A rule of the VCL chain whose criterion is met. */
  function AppliesToVcl(acl: Acls): Rule -> bool {
    (r: Rule) => r.enabled && acl(r.id)
  }

  /** A rule of the cache-store condition that matches the response. */
  function AppliesToResponse(v: Criteria): Rule -> bool {
    (r: Rule) => r.enabled && r.tier == Memory && (r.matchType == ContentType || r.matchType == StatusCode) && RuleMatches(r, v)
  }

  /** A guarded line of the tier fires exactly when the deciding rule caches and the extra condition holds; without one none fires. */
  lemma GuardsFollowPriority(config: seq<Rule>, tier: Tier, hasExtra: bool, acl: Acls, extra: bool)
    ensures forall i: nat :: Decides(config, AppliesToRequest(tier, acl), i) ==>
      (SomeLineFires(GuardedLines(RequestRules(config, tier), [], hasExtra), acl, extra) <==> config[i].action == Cache && (hasExtra ==> extra))
    ensures NoneApplies(config, AppliesToRequest(tier, acl)) ==>
      !SomeLineFires(GuardedLines(RequestRules(config, tier), [], hasExtra), acl, extra)
  {
    hide Decides, NoneApplies, ActiveRules, GuardedLines, SomeLineFires;
    var select := (r: Rule) => r.tier == tier && RequestPhase(r.matchType);
    GuardsReproduceFirstMatch(config, tier, hasExtra, acl, extra);
    forall m ensures IsRequestCriterion(m) == RequestPhase(m) { PhaseOf(m); }
    FirstMatchDecides(config, select, Matches(acl), AppliesToRequest(tier, acl));
    assert RequestRules(config, tier) == Filter(select, ActiveRules(config));
  }

  /** The VCL chain decides as the deciding rule says, and bypasses without one. */
  lemma VclFollowsPriority(config: seq<Rule>, acl: Acls)
    ensures forall i: nat :: Decides(config, AppliesToVcl(acl), i) ==>
      Execute(VclLines(ActiveRules(config)), Bypass, Outside, acl) == config[i].action
    ensures NoneApplies(config, AppliesToVcl(acl)) ==> Execute(VclLines(ActiveRules(config)), Bypass, Outside, acl) == Bypass
  {
    hide Decides, NoneApplies, ActiveRules, VclLines, Execute;
    var all := (_: Rule) => true;
    VclReproducesFirstMatch(config, acl);
    FirstMatchDecides(config, all, Matches(acl), AppliesToVcl(acl));
    FilterAll(all, ActiveRules(config));
  }

  /** First match wins on the response rules means that the deciding rule stores; the condition says so unless it misfires. */
  lemma StoreFollowsPriority(config: seq<Rule>, v: Criteria)
    requires ResponseRules(config) != [] && !Misfires(ResponseRules(config), v)
    ensures forall i: nat :: Decides(config, AppliesToResponse(v), i) ==> (StoreFires(ResponseRules(config), v) <==> config[i].action == Cache)
    ensures NoneApplies(config, AppliesToResponse(v)) ==> !StoreFires(ResponseRules(config), v)
  {
    hide Decides, NoneApplies, ActiveRules, StoreFires, Misfires, RuleMatches;
    var select := (r: Rule) => r.tier == Memory && !RequestPhase(r.matchType);
    var p := (r: Rule) => RuleMatches(r, v);
    StoreReproducesFirstMatchExactlyWhen(ResponseRules(config), v);
    FirstMatchDecides(config, select, p, AppliesToResponse(v));
    assert ResponseRules(config) == Filter(select, ActiveRules(config));
  }

  /** There are response rules exactly when an enabled memory rule is about the response. */
  lemma ResponseRulesExactlyWhen(config: seq<Rule>)
    ensures ResponseRules(config) != []
       <==> exists i :: 0 <= i < |config| && config[i].enabled && config[i].tier == Memory
                        && (config[i].matchType == ContentType || config[i].matchType == StatusCode)
  {
    hide ActiveRules;
    var applies := (r: Rule) => r.enabled && r.tier == Memory && (r.matchType == ContentType || r.matchType == StatusCode);
    var select := (r: Rule) => r.tier == Memory && !RequestPhase(r.matchType);
    var any := (_: Rule) => true;
    FirstMatchDecides(config, select, any, applies);
    FirstMatchIn(any, ResponseRules(config));
    assert ResponseRules(config) == Filter(select, ActiveRules(config));
    BestAtIsBest(RuleKey, applies, config);
    if BestAt(RuleKey, applies, config).Some? {
      BestDecides(config, applies, BestAt(RuleKey, applies, config).value);
    }
  }

  lemma BestDecides(config: seq<Rule>, applies: Rule -> bool, i: nat)
    requires Best(RuleKey, applies, config, i)
    ensures Decides(config, applies, i)
  {
  }

  /** Where some rule applies, one decides, and only one. */
  lemma SomeRuleDecides(config: seq<Rule>, applies: Rule -> bool)
    ensures NoneApplies(config, applies) || exists i: nat :: Decides(config, applies, i)
    ensures forall i: nat, j: nat :: Decides(config, applies, i) && Decides(config, applies, j) ==> i == j
  {
    BestAtIsBest(RuleKey, applies, config);
    if BestAt(RuleKey, applies, config).Some? {
      BestDecides(config, applies, BestAt(RuleKey, applies, config).value);
    }
  }

  // ---------------------------------------------------------------- response patterns

  lemma OneTest(r: Rule, v: Criteria)
    requires Alternatives(r) == 1
    ensures RuleMatches(r, v) <==> v(Tests(r)[0])
  {
    assert RuleMatches(r, v) <==> PartHolds(r, 0, v);
  }

  predicate IsWildcard(pattern: string) {
    |pattern| >= 2 && pattern[|pattern| - 2..] == "/*"
  }

  /** A content type pattern matches the content types that begin with it; a star after a slash at its end stands for any rest. */
  lemma ContentTypeMatches(r: Rule, family: string, resp: Response)
    requires r.matchType == ContentType
    ensures r.pattern == family + "/*" ==> (RuleMatches(r, CriteriaOf(resp)) <==> family + "/" <= resp.contentType)
    ensures !IsWildcard(r.pattern) ==> (RuleMatches(r, CriteriaOf(resp)) <==> r.pattern <= resp.contentType)
  {
    OneTest(r, CriteriaOf(resp));
    if r.pattern == family + "/*" {
      assert r.pattern[|r.pattern| - 2..] == "/*" && r.pattern[..|r.pattern| - 2] == family;
    }
  }

  /** ",".join(codes) */
  function JoinCodes(codes: seq<string>): string
    requires codes != []
  {
    if |codes| == 1 then codes[0] else codes[0] + ("," + JoinCodes(codes[1..]))
  }

  lemma {:induction false} SplitUndoesJoin(codes: seq<string>)
    requires codes != [] && forall i :: 0 <= i < |codes| ==> ',' !in codes[i]
    ensures SplitCommas(JoinCodes(codes)) == codes
  {
    if |codes| == 1 {
      SplitPlain(codes[0], "");
    } else {
      SplitUndoesJoin(codes[1..]);
      SplitPlain(codes[0], JoinCodes(codes[1..]));
    }
  }

  /** Three digits, or a digit and xx. */
  predicate IsCode(code: string) {
    |code| == 3 && Lexer.IsDigit(code[0]) && ((Lexer.IsDigit(code[1]) && Lexer.IsDigit(code[2])) || (code[1] == 'x' && code[2] == 'x'))
  }

  /** The status is the code, or from its class on. */
  predicate Covers(code: string, status: int)
    requires IsCode(code)
  {
    var hundreds := Lexer.DigitValue(code[0]) * 100;
    if code[1] == 'x' then hundreds <= status <= 599
    else status == hundreds + Lexer.DigitValue(code[1]) * 10 + Lexer.DigitValue(code[2])
  }

  lemma CodeTest(code: string, resp: Response)
    requires IsCode(code)
    ensures TestHolds(StatusTest(code), resp) <==> Covers(code, resp.status)
    ensures ',' !in code
  {
    if code[1] == 'x' {
      assert code[1..] == "xx";
    } else {
      assert code[1..] != "xx" by { assert code[1..][0] == code[1]; }
      assert code[..2][..1] == code[..1] && code[..2][1] == code[1];
      assert Lexer.ParseNat(code[..1]) == Lexer.DigitValue(code[0]);
      assert Lexer.ParseNat(code[..2]) == 10 * Lexer.DigitValue(code[0]) + Lexer.DigitValue(code[1]);
    }
  }

  /** A list of status codes matches the responses that some code of it covers. */
  lemma StatusListMatches(r: Rule, codes: seq<string>, resp: Response)
    requires r.matchType == StatusCode && codes != [] && (forall i :: 0 <= i < |codes| ==> IsCode(codes[i])) && r.pattern == JoinCodes(codes)
    ensures RuleMatches(r, CriteriaOf(resp)) <==> exists i :: 0 <= i < |codes| && Covers(codes[i], resp.status)
  {
    hide JoinCodes, IsCode, Covers, TestHolds, StatusTest, SplitCommas;
    forall i | 0 <= i < |codes| ensures TestHolds(StatusTest(codes[i]), resp) <==> Covers(codes[i], resp.status)
      ensures ',' !in codes[i]
    {
      CodeTest(codes[i], resp);
    }
    SplitUndoesJoin(codes);
    var v := CriteriaOf(resp);
    forall i | 0 <= i < |codes| ensures PartHolds(r, i, v) <==> Covers(codes[i], resp.status) {
    }
  }

  // ---------------------------------------------------------------- status classes

  /** The same criterion in VCL: a class is the hundred codes from its first digit. */
  predicate VclTestHolds(test: Test, resp: Response) {
    match test
    case StatusFrom(first) => Lexer.IsDigit(first) && Lexer.DigitValue(first) * 100 <= resp.status < (Lexer.DigitValue(first) + 1) * 100
    case _ => TestHolds(test, resp)
  }

  /** A class such as 2xx means the same in both targets exactly when it is 5xx: the cache-store condition reads every other one up to 599. */
  lemma ClassesAgreeExactlyWhen(first: char)
    requires '1' <= first <= '5'
    ensures (forall resp :: Possible(resp) ==> TestHolds(StatusFrom(first), resp) == VclTestHolds(StatusFrom(first), resp)) <==> first == '5'
  {
    if first != '5' {
      var missing := Response(500, "");
      assert Possible(missing) && TestHolds(StatusFrom(first), missing) != VclTestHolds(StatusFrom(first), missing);
    }
  }

  /** Cache 2xx. */
  const CACHE_SUCCESS := [Rule(1, 0, true, Memory, StatusCode, "2xx", Cache)]

  /** With a single rule that caches 2xx, not found pages and server errors are stored as well. */
  lemma ErrorsAreStored(resp: Response)
    requires Possible(resp)
    ensures StoreFires(CACHE_SUCCESS, CriteriaOf(resp)) <==> resp.status >= 200
  {
    var rules, v := CACHE_SUCCESS, CriteriaOf(resp);
    OnePart("2xx");
    assert Tests(rules[0]) == [StatusFrom('2')];
    assert RuleMatches(rules[0], v) <==> PartHolds(rules[0], 0, v);
    assert !EscapesGuard(rules[0], v);
    StoreReproducesFirstMatchExactlyWhen(rules, v);
  }

  lemma OnePart(code: string)
    requires ',' !in code
    ensures SplitCommas(code) == [code]
  {
    SplitPlain(code, "");
  }
}
