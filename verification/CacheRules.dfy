/** Compilation of ordered cacheability rules in backend/app/services/cache_rules.py. */
module CacheRules {
  import opened Common
  import opened StableSort

  datatype Tier = Memory | Disk

  datatype MatchType = Path | Filename | Extension | Method | QueryString | ContentType | StatusCode

  datatype Action = Cache | Bypass

  datatype Rule = Rule(id: int, priority: int, enabled: bool, tier: Tier, matchType: MatchType, pattern: string, action: Action)

  predicate RequestPhase(m: MatchType) {
    m != ContentType && m != StatusCode
  }

  // ---------------------------------------------------------------- active rules

  function RuleKey(r: Rule): Key { (r.priority, r.id) }

  /** The enabled rules in evaluation order. */
  function ActiveRules(rules: seq<Rule>): seq<Rule> {
    Sort(RuleKey, Filter((r: Rule) => r.enabled, rules))
  }

  predicate DistinctIds(rules: seq<Rule>) {
    forall i, j | 0 <= i < j < |rules| :: rules[i].id != rules[j].id
  }

  lemma {:induction false} FilterKeepsDistinct(p: Rule -> bool, rules: seq<Rule>)
    requires DistinctIds(rules)
    ensures DistinctIds(Filter(p, rules)) && forall x :: x in Filter(p, rules) <==> x in rules && p(x)
  {
    if rules != [] {
      var tail := rules[1..];
      FilterKeepsDistinct(p, tail);
      var rest := Filter(p, tail);
      assert rules == [rules[0]] + tail;
      forall x | x in rest ensures x.id != rules[0].id {
        assert x in tail;
      }
      if p(rules[0]) {
        var all := [rules[0]] + rest;
        forall i, j | 0 <= i < j < |all| ensures all[i].id != all[j].id {
          if i == 0 { assert all[j] in rest; }
        }
      }
    }
  }

  /** The order in which the rules are stored does not matter, as long as ids are distinct. */
  lemma ActiveRulesIgnoreOrder(a: seq<Rule>, b: seq<Rule>)
    requires DistinctIds(a) && multiset(a) == multiset(b)
    ensures ActiveRules(a) == ActiveRules(b)
  {
    var enabled := (r: Rule) => r.enabled;
    var fa, fb := Filter(enabled, a), Filter(enabled, b);
    FilterPermutes(enabled, a, b);
    FilterKeepsDistinct(enabled, a);
    SortSorted(RuleKey, fa);
    SortSorted(RuleKey, fb);
    SortPermutes(RuleKey, fa);
    SortPermutes(RuleKey, fb);
    PermutedDistinct(fa, Sort(RuleKey, fa));
    assert DistinctKeys(RuleKey, Sort(RuleKey, fa));
    SortedIsUnique(RuleKey, Sort(RuleKey, fa), Sort(RuleKey, fb));
  }

  lemma {:induction false} FilterCount(p: Rule -> bool, s: seq<Rule>, x: Rule)
    ensures multiset(Filter(p, s))[x] == if p(x) then multiset(s)[x] else 0
  {
    if s != [] {
      FilterCount(p, s[1..], x);
      assert s == [s[0]] + s[1..];
    }
  }

  lemma FilterPermutes(p: Rule -> bool, a: seq<Rule>, b: seq<Rule>)
    requires multiset(a) == multiset(b)
    ensures multiset(Filter(p, a)) == multiset(Filter(p, b))
  {
    forall x ensures multiset(Filter(p, a))[x] == multiset(Filter(p, b))[x] {
      FilterCount(p, a, x);
      FilterCount(p, b, x);
    }
  }

  function Count(s: seq<Rule>, id: int): nat {
    if s == [] then 0 else (if s[0].id == id then 1 else 0) + Count(s[1..], id)
  }

  lemma {:induction false} CountRemove(s: seq<Rule>, i: nat, id: int)
    requires i < |s|
    ensures Count(s, id) == Count(s[..i] + s[i + 1..], id) + if s[i].id == id then 1 else 0
  {
    if i == 0 {
      assert s[..0] + s[1..] == s[1..];
    } else {
      CountRemove(s[1..], i - 1, id);
      assert (s[..i] + s[i + 1..])[1..] == s[1..][..i - 1] + s[1..][i..];
    }
  }

  lemma {:induction false} CountPermutes(a: seq<Rule>, b: seq<Rule>, id: int)
    requires multiset(a) == multiset(b)
    ensures Count(a, id) == Count(b, id)
  {
    assert |multiset(a)| == |a| && |multiset(b)| == |b|;
    if a != [] {
      SameElements(a, b, a[0]);
      var i :| 0 <= i < |b| && b[i] == a[0];
      var rest := b[..i] + b[i + 1..];
      assert b == b[..i] + [b[i]] + b[i + 1..];
      TailElements(a);
      CountPermutes(a[1..], rest, id);
      CountRemove(b, i, id);
    }
  }

  lemma {:induction false} CountPositive(s: seq<Rule>, i: nat)
    requires i < |s|
    ensures Count(s, s[i].id) >= 1
  {
    if i > 0 { CountPositive(s[1..], i - 1); }
  }

  lemma {:induction false} CountTwice(s: seq<Rule>, i: nat, j: nat)
    requires i < j < |s| && s[i].id == s[j].id
    ensures Count(s, s[i].id) >= 2
  {
    if i > 0 { CountTwice(s[1..], i - 1, j - 1); } else { CountPositive(s[1..], j - 1); }
  }

  lemma {:induction false} CountAbsent(s: seq<Rule>, id: int)
    requires forall i :: 0 <= i < |s| ==> s[i].id != id
    ensures Count(s, id) == 0
  {
    if s != [] { CountAbsent(s[1..], id); }
  }

  lemma {:induction false} CountOnce(s: seq<Rule>, id: int)
    requires DistinctIds(s)
    ensures Count(s, id) <= 1
  {
    if s != [] {
      assert forall i :: 0 <= i < |s[1..]| ==> s[1..][i] == s[i + 1];
      if s[0].id == id { CountAbsent(s[1..], id); } else { CountOnce(s[1..], id); }
    }
  }

  lemma PermutedDistinct(a: seq<Rule>, b: seq<Rule>)
    requires DistinctIds(a) && multiset(a) == multiset(b)
    ensures DistinctIds(b)
  {
    forall i, j | 0 <= i < j < |b| ensures b[i].id != b[j].id {
      if b[i].id == b[j].id {
        CountTwice(b, i, j);
        CountPermutes(a, b, b[i].id);
        CountOnce(a, b[i].id);
      }
    }
  }

  // ---------------------------------------------------------------- what the rules mean

  /** Which request criteria hold, by rule id. */
  type Acls = int -> bool

  function Matches(acl: Acls): Rule -> bool {
    (r: Rule) => acl(r.id)
  }

  /** First match wins; without a match nothing is cached. */
  predicate FirstMatchCaches(rules: seq<Rule>, acl: Acls) {
    var m := FirstMatch(Matches(acl), rules);
    m.Some? && m.value.action == Cache
  }

  // ---------------------------------------------------------------- guarded lines

  /** A condition of a generated line: an ACL, a negated ACL, or the caller's extra condition. */
  datatype Guard = Acl(id: int) | NotAcl(id: int) | Extra

  type Line = seq<Guard>

  predicate GuardHolds(g: Guard, acl: Acls, extra: bool) {
    match g
    case Acl(id) => acl(id)
    case NotAcl(id) => !acl(id)
    case Extra => extra
  }

  predicate LineFires(line: Line, acl: Acls, extra: bool) {
    forall i | 0 <= i < |line| :: GuardHolds(line[i], acl, extra)
  }

  predicate SomeLineFires(lines: seq<Line>, acl: Acls, extra: bool) {
    exists i | 0 <= i < |lines| :: LineFires(lines[i], acl, extra)
  }

  function Negations(bypasses: seq<int>): Line {
    seq(|bypasses|, i requires 0 <= i < |bypasses| => NotAcl(bypasses[i]))
  }

  function GuardedLine(id: int, bypasses: seq<int>, hasExtra: bool): Line {
    [Acl(id)] + Negations(bypasses) + if hasExtra then [Extra] else []
  }

  /** The lines for `rules`, after the bypass rules `bypasses`. */
  function GuardedLines(rules: seq<Rule>, bypasses: seq<int>, hasExtra: bool): seq<Line> {
    if rules == [] then []
    else if rules[0].action == Bypass then GuardedLines(rules[1..], bypasses + [rules[0].id], hasExtra)
    else [GuardedLine(rules[0].id, bypasses, hasExtra)] + GuardedLines(rules[1..], bypasses, hasExtra)
  }

  /** The loop of emit_haproxy_cache_rules and emit_disk_cache_use_server_directives. */
  method EmitGuarded(rules: seq<Rule>, hasExtra: bool) returns (lines: seq<Line>)
    ensures lines == GuardedLines(rules, [], hasExtra)
  {
    lines := [];
    var precedingBypass: seq<int> := [];
    for i := 0 to |rules|
      invariant GuardedLines(rules, [], hasExtra) == lines + GuardedLines(rules[i..], precedingBypass, hasExtra)
    {
      var rule := rules[i];
      assert rules[i..][1..] == rules[i + 1..];
      if rule.action == Bypass {
        precedingBypass := precedingBypass + [rule.id];
      } else {
        lines := lines + [GuardedLine(rule.id, precedingBypass, hasExtra)];
      }
    }
    assert rules[|rules|..] == [];
  }

  function RequestRules(rules: seq<Rule>, tier: Tier): seq<Rule> {
    Filter((r: Rule) => r.tier == tier && RequestPhase(r.matchType), ActiveRules(rules))
  }

  /** The comment that stands in for the lines when there are none. */
  datatype Remark = NoRules | OnlyBypasses | NoRemark

  /** emit_haproxy_cache_rules: the ACLs unless they are emitted elsewhere, the cache-use lines, the comment, and whether there are lines. */
  method EmitHaproxyCacheRules(rules: seq<Rule>, hasExtra: bool, emitAcls: bool)
    returns (acls: seq<int>, lines: seq<Line>, remark: Remark, any: bool)
    ensures lines == GuardedLines(RequestRules(rules, Memory), [], hasExtra)
    ensures any <==> exists i :: 0 <= i < |RequestRules(rules, Memory)| && RequestRules(rules, Memory)[i].action == Cache
    ensures remark == if RequestRules(rules, Memory) == [] then NoRules else if any then NoRemark else OnlyBypasses
    ensures |acls| == if emitAcls then |RequestRules(rules, Memory)| else 0
    ensures forall i :: 0 <= i < |acls| ==> acls[i] == RequestRules(rules, Memory)[i].id
  {
    var selected := RequestRules(rules, Memory);
    AnyCacheRule(selected, [], hasExtra);
    if selected == [] {
      return [], [], NoRules, false;
    }
    acls := [];
    if emitAcls {
      for i := 0 to |selected|
        invariant |acls| == i && forall j :: 0 <= j < i ==> acls[j] == selected[j].id
      {
        acls := acls + [selected[i].id];
      }
    }
    lines := EmitGuarded(selected, hasExtra);
    if lines == [] {
      return acls, [], OnlyBypasses, false;
    }
    return acls, lines, NoRemark, true;
  }

  /** emit_disk_cache_use_server_directives: the use-server lines, and their conditions once more for the header. */
  method EmitDiskUseServer(rules: seq<Rule>) returns (lines: seq<Line>, conditions: seq<Line>)
    ensures lines == GuardedLines(RequestRules(rules, Disk), [], false) && conditions == lines
  {
    lines := EmitGuarded(RequestRules(rules, Disk), false);
    conditions := lines;
  }

  lemma {:induction false} AnyCacheRule(rules: seq<Rule>, bypasses: seq<int>, hasExtra: bool)
    ensures GuardedLines(rules, bypasses, hasExtra) != [] <==> exists i :: 0 <= i < |rules| && rules[i].action == Cache
  {
    if rules != [] {
      AnyCacheRule(rules[1..], if rules[0].action == Bypass then bypasses + [rules[0].id] else bypasses, hasExtra);
      assert forall i :: 0 < i < |rules| ==> rules[i] == rules[1..][i - 1];
    }
  }

  lemma LineMeaning(id: int, bypasses: seq<int>, hasExtra: bool, acl: Acls, extra: bool)
    ensures LineFires(GuardedLine(id, bypasses, hasExtra), acl, extra)
            <==> acl(id) && (forall i :: 0 <= i < |bypasses| ==> !acl(bypasses[i])) && (hasExtra ==> extra)
  {
    var line := GuardedLine(id, bypasses, hasExtra);
    var n := |bypasses|;
    assert line[0] == Acl(id);
    assert forall i :: 0 <= i < n ==> line[i + 1] == NotAcl(bypasses[i]);
    assert hasExtra ==> line[n + 1] == Extra;
    if LineFires(line, acl, extra) {
      assert GuardHolds(line[0], acl, extra);
      forall i | 0 <= i < n ensures !acl(bypasses[i]) { assert GuardHolds(line[i + 1], acl, extra); }
      if hasExtra { assert GuardHolds(line[n + 1], acl, extra); }
    }
  }

  lemma {:induction false} LinesMeaning(rules: seq<Rule>, bypasses: seq<int>, hasExtra: bool, acl: Acls, extra: bool)
    ensures SomeLineFires(GuardedLines(rules, bypasses, hasExtra), acl, extra)
            <==> FirstMatchCaches(rules, acl) && (forall i :: 0 <= i < |bypasses| ==> !acl(bypasses[i])) && (hasExtra ==> extra)
  {
    if rules != [] {
      var r := rules[0];
      if r.action == Bypass {
        LinesMeaning(rules[1..], bypasses + [r.id], hasExtra, acl, extra);
        assert (bypasses + [r.id])[|bypasses|] == r.id;
        assert forall i :: 0 <= i < |bypasses| ==> (bypasses + [r.id])[i] == bypasses[i];
      } else {
        LinesMeaning(rules[1..], bypasses, hasExtra, acl, extra);
        LineMeaning(r.id, bypasses, hasExtra, acl, extra);
        FirstLineOrRest(GuardedLine(r.id, bypasses, hasExtra), GuardedLines(rules[1..], bypasses, hasExtra), acl, extra);
      }
    }
  }

  lemma FirstLineOrRest(line: Line, rest: seq<Line>, acl: Acls, extra: bool)
    ensures SomeLineFires([line] + rest, acl, extra) <==> LineFires(line, acl, extra) || SomeLineFires(rest, acl, extra)
  {
    var all := [line] + rest;
    assert all[0] == line && forall i :: 0 <= i < |rest| ==> all[i + 1] == rest[i];
    if SomeLineFires(rest, acl, extra) {
      var i :| 0 <= i < |rest| && LineFires(rest[i], acl, extra);
      assert LineFires(all[i + 1], acl, extra);
    }
    if SomeLineFires(all, acl, extra) {
      var i :| 0 <= i < |all| && LineFires(all[i], acl, extra);
      if i > 0 { assert LineFires(rest[i - 1], acl, extra); }
    }
  }

  /** Some cache-use line (or use-server line) fires exactly when the first matching rule of its tier says cache. */
  lemma GuardsReproduceFirstMatch(rules: seq<Rule>, tier: Tier, hasExtra: bool, acl: Acls, extra: bool)
    ensures SomeLineFires(GuardedLines(RequestRules(rules, tier), [], hasExtra), acl, extra)
            <==> FirstMatchCaches(RequestRules(rules, tier), acl) && (hasExtra ==> extra)
  {
    LinesMeaning(RequestRules(rules, tier), [], hasExtra, acl, extra);
  }

  // ---------------------------------------------------------------- the VCL chain

  datatype VclLine = SetDecision(action: Action) | Comment | IfRule(id: int) | ElseIfRule(id: int) | CloseBrace

  /** The branches from the second rule on. */
  function VclBranches(rules: seq<Rule>): seq<VclLine> {
    if rules == [] then [CloseBrace] else [ElseIfRule(rules[0].id), SetDecision(rules[0].action)] + VclBranches(rules[1..])
  }

  function VclLines(rules: seq<Rule>): seq<VclLine> {
    if rules == [] then [SetDecision(Bypass), Comment]
    else [SetDecision(Bypass), IfRule(rules[0].id), SetDecision(rules[0].action)] + VclBranches(rules[1..])
  }

  method EmitVclDecision(config: seq<Rule>) returns (lines: seq<VclLine>)
    ensures lines == VclLines(ActiveRules(config))
  {
    var rules := ActiveRules(config);
    lines := [SetDecision(Bypass)];
    if rules == [] {
      return lines + [Comment];
    }
    for i := 0 to |rules|
      invariant i == 0 ==> lines == [SetDecision(Bypass)]
      invariant i > 0 ==> lines + VclBranches(rules[i..]) == VclLines(rules)
    {
      assert rules[i..][1..] == rules[i + 1..];
      lines := lines + [if i == 0 then IfRule(rules[i].id) else ElseIfRule(rules[i].id)];
      lines := lines + [SetDecision(rules[i].action)];
    }
    assert rules[|rules|..] == [];
    lines := lines + [CloseBrace];
  }

  /** Where execution stands: outside the chain, in the branch taken, before it, or after it. */
  datatype Mode = Outside | InBranch | NotYet | Passed

  /** Executes the lines; the result is the decision at the end. */
  function Execute(lines: seq<VclLine>, decision: Action, mode: Mode, acl: Acls): Action {
    if lines == [] then decision
    else
      match lines[0]
      case SetDecision(a) => Execute(lines[1..], if mode == Outside || mode == InBranch then a else decision, mode, acl)
      case Comment => Execute(lines[1..], decision, mode, acl)
      case IfRule(id) => Execute(lines[1..], decision, if acl(id) then InBranch else NotYet, acl)
      case ElseIfRule(id) =>
        Execute(lines[1..], decision, if mode == NotYet then (if acl(id) then InBranch else NotYet) else Passed, acl)
      case CloseBrace => Execute(lines[1..], decision, Outside, acl)
  }

  lemma ExecuteBranch(rule: Rule, rest: seq<VclLine>, decision: Action, mode: Mode, acl: Acls)
    ensures var next := if mode == NotYet then (if acl(rule.id) then InBranch else NotYet) else Passed;
            Execute([ElseIfRule(rule.id), SetDecision(rule.action)] + rest, decision, mode, acl)
            == Execute(rest, if next == InBranch then rule.action else decision, next, acl)
  {
    var lines := [ElseIfRule(rule.id), SetDecision(rule.action)] + rest;
    assert lines[1..] == [SetDecision(rule.action)] + rest && lines[1..][1..] == rest;
  }

  lemma {:induction false} BranchesMeaning(rules: seq<Rule>, decision: Action, mode: Mode, acl: Acls)
    requires mode != Outside
    ensures Execute(VclBranches(rules), decision, mode, acl)
            == if mode != NotYet then decision
               else var m := FirstMatch(Matches(acl), rules); if m.Some? then m.value.action else decision
  {
    if rules == [] {
      assert VclBranches(rules)[1..] == [];
    } else {
      ExecuteBranch(rules[0], VclBranches(rules[1..]), decision, mode, acl);
      var next := if mode == NotYet then (if acl(rules[0].id) then InBranch else NotYet) else Passed;
      BranchesMeaning(rules[1..], if next == InBranch then rules[0].action else decision, next, acl);
    }
  }

  lemma ExecuteNothing(acl: Acls)
    ensures Execute([SetDecision(Bypass), Comment], Bypass, Outside, acl) == Bypass
  {
    var lines := [SetDecision(Bypass), Comment];
    assert lines[1..] == [Comment] && [Comment][1..] == [];
    assert Execute(lines, Bypass, Outside, acl) == Execute([Comment], Bypass, Outside, acl);
  }

  lemma ExecuteFirst(r: Rule, rest: seq<VclLine>, acl: Acls)
    ensures Execute([SetDecision(Bypass), IfRule(r.id), SetDecision(r.action)] + rest, Bypass, Outside, acl)
            == Execute(rest, if acl(r.id) then r.action else Bypass, if acl(r.id) then InBranch else NotYet, acl)
  {
    var lines := [SetDecision(Bypass), IfRule(r.id), SetDecision(r.action)] + rest;
    var after := lines[1..];
    assert after == [IfRule(r.id), SetDecision(r.action)] + rest;
    assert after[1..] == [SetDecision(r.action)] + rest && after[1..][1..] == rest;
    assert Execute(lines, Bypass, Outside, acl) == Execute(after, Bypass, Outside, acl);
    var mode := if acl(r.id) then InBranch else NotYet;
    assert Execute(after, Bypass, Outside, acl) == Execute(after[1..], Bypass, mode, acl);
  }

  /** The VCL chain decides cache exactly when the first matching active rule says so. */
  lemma VclReproducesFirstMatch(config: seq<Rule>, acl: Acls)
    ensures Execute(VclLines(ActiveRules(config)), Bypass, Outside, acl) == Cache <==> FirstMatchCaches(ActiveRules(config), acl)
  {
    var rules := ActiveRules(config);
    var lines := VclLines(rules);
    if rules == [] {
      ExecuteNothing(acl);
    } else {
      var r, rest := rules[0], VclBranches(rules[1..]);
      ExecuteFirst(r, rest, acl);
      BranchesMeaning(rules[1..], if acl(r.id) then r.action else Bypass, if acl(r.id) then InBranch else NotYet, acl);
    }
  }

  lemma {:induction false} FilterAll(p: Rule -> bool, s: seq<Rule>)
    requires forall i :: 0 <= i < |s| ==> p(s[i])
    ensures Filter(p, s) == s
  {
    if s != [] { FilterAll(p, s[1..]); }
  }

  /** On request-phase rules of one tier the compiled targets agree: a guarded line fires exactly when the chain says cache. */
  lemma TargetsAgree(config: seq<Rule>, tier: Tier, acl: Acls)
    requires forall i :: 0 <= i < |config| ==> config[i].tier == tier && RequestPhase(config[i].matchType)
    ensures SomeLineFires(GuardedLines(RequestRules(config, tier), [], false), acl, true)
            <==> Execute(VclLines(ActiveRules(config)), Bypass, Outside, acl) == Cache
  {
    var active := ActiveRules(config);
    forall i | 0 <= i < |active| ensures active[i].tier == tier && RequestPhase(active[i].matchType) {
      ActiveIn(config, active[i]);
    }
    FilterAll((r: Rule) => r.tier == tier && RequestPhase(r.matchType), active);
    GuardsReproduceFirstMatch(config, tier, false, acl, true);
    VclReproducesFirstMatch(config, acl);
  }

  lemma ActiveIn(config: seq<Rule>, r: Rule)
    requires r in ActiveRules(config)
    ensures r in config && r.enabled
  {
    var enabled := (x: Rule) => x.enabled;
    SortPermutes(RuleKey, Filter(enabled, config));
    assert r in multiset(ActiveRules(config));
    FilterCount(enabled, config, r);
    assert r in multiset(config);
  }
}
