/**
 * The cache-store condition that backend/app/services/cache_rules.py builds for response-phase rules
 * by gluing condition texts together.
 */
module CacheStore {
  import opened Common
  import opened StableSort
  import opened CacheRules
  import opened Lexer

  // ---------------------------------------------------------------- condition texts

  /** One criterion, as it is written: the status equals a code, lies in first * 100 .. 599, or the content type begins so. */
  datatype Test = StatusIs(code: string) | StatusFrom(first: char) | TypeBegins(prefix: string)

  /** A condition text as it reads: `||` separates products and `&&` joins factors, binding tighter. */
  datatype Text = Text(products: seq<Product>)

  datatype Product = Product(factors: seq<Factor>)

  datatype Factor = Criterion(test: Test) | NotParens(text: Text) | Parens(text: Text)

  /** Which criteria hold. */
  type Criteria = Test -> bool

  predicate Holds(t: Text, v: Criteria) {
    exists i | 0 <= i < |t.products| :: ProductHolds(t.products[i], v)
  }

  predicate ProductHolds(p: Product, v: Criteria) {
    forall i | 0 <= i < |p.factors| :: FactorHolds(p.factors[i], v)
  }

  predicate FactorHolds(f: Factor, v: Criteria) {
    match f
    case Criterion(test) => v(test)
    case NotParens(t) => !Holds(t, v)
    case Parens(t) => Holds(t, v)
  }

  /** The text `a && f`: the new factor joins the last product only. */
  function AndFactor(a: Text, f: Factor): Text
    requires a.products != []
  {
    var last := a.products[|a.products| - 1];
    Text(a.products[..|a.products| - 1] + [Product(last.factors + [f])])
  }

  // ---------------------------------------------------------------- the texts of rules

  /** str.split(",") */
  function SplitCommas(s: string): (parts: seq<string>)
    ensures |parts| >= 1
  {
    if s == "" then [""]
    else
      var rest := SplitCommas(s[1..]);
      if s[0] == ',' then [""] + rest else [[s[0]] + rest[0]] + rest[1..]
  }

  function StatusTest(code: string): Test {
    if |code| >= 2 && code[|code| - 2..] == "xx" then StatusFrom(code[0]) else StatusIs(code)
  }

  function TypeTest(pattern: string): Test {
    if |pattern| >= 2 && pattern[|pattern| - 2..] == "/*" then TypeBegins(pattern[..|pattern| - 2] + "/") else TypeBegins(pattern)
  }

  /** The criteria that the rule's condition joins with `||`. */
  function Tests(r: Rule): (tests: seq<Test>)
    ensures |tests| >= 1
  {
    if r.matchType == StatusCode then
      var codes := SplitCommas(r.pattern);
      seq(|codes|, i requires 0 <= i < |codes| => StatusTest(codes[i]))
    else [TypeTest(r.pattern)]
  }

  /** How many they are. */
  function Alternatives(r: Rule): (n: nat)
    ensures n >= 1
  {
    |Tests(r)|
  }

  /** The alt-th of them holds. */
  predicate PartHolds(r: Rule, alt: nat, v: Criteria)
    requires alt < Alternatives(r)
  {
    v(Tests(r)[alt])
  }

  function RuleText(r: Rule): Text {
    Text(seq(Alternatives(r), alt requires 0 <= alt < Alternatives(r) => Product([Criterion(Tests(r)[alt])])))
  }

  /** The rule's condition && !(bypass) for each bypass before it. */
  function Guarded(r: Rule, bypasses: seq<Rule>): (t: Text)
    ensures t.products != []
  {
    if bypasses == [] then RuleText(r)
    else AndFactor(Guarded(r, bypasses[..|bypasses| - 1]), NotParens(RuleText(bypasses[|bypasses| - 1])))
  }

  /** The parenthesised conditions of the cache rules, after the bypass rules `bypasses`. */
  function StoreTerms(rules: seq<Rule>, bypasses: seq<Rule>): seq<Product> {
    if rules == [] then []
    else if rules[0].action == Bypass then StoreTerms(rules[1..], bypasses + [rules[0]])
    else [Product([Parens(Guarded(rules[0], bypasses))])] + StoreTerms(rules[1..], bypasses)
  }

  function ResponseRules(config: seq<Rule>): seq<Rule> {
    Filter((r: Rule) => r.tier == Memory && !RequestPhase(r.matchType), ActiveRules(config))
  }

  /** No response rules, no cache rule among them, or a condition. */
  datatype StoreLine = Unconditional | StoresNothing | StoreIf(condition: Text)

  function StoreDirective(rules: seq<Rule>): StoreLine {
    if rules == [] then Unconditional
    else if StoreTerms(rules, []) == [] then StoresNothing
    else StoreIf(Text(StoreTerms(rules, [])))
  }

  /** emit_response_phase_cache_store_condition */
  method EmitCacheStoreCondition(config: seq<Rule>) returns (line: StoreLine)
    ensures line == StoreDirective(ResponseRules(config))
  {
    hide Guarded, ResponseRules;
    var rules := ResponseRules(config);
    if rules == [] {
      return Unconditional;
    }
    var conditions: seq<Product> := [];
    var precedingBypass: seq<Rule> := [];
    for i := 0 to |rules|
      invariant StoreTerms(rules, []) == conditions + StoreTerms(rules[i..], precedingBypass)
    {
      var rule := rules[i];
      assert rules[i..][1..] == rules[i + 1..];
      if rule.action == Bypass {
        precedingBypass := precedingBypass + [rule];
      } else {
        var text := AndNegations(rule, precedingBypass);
        conditions := conditions + [Product([Parens(text)])];
      }
    }
    assert rules[|rules|..] == [];
    line := if conditions == [] then StoresNothing else StoreIf(Text(conditions));
  }

  /** The rule's condition, and-ed with the negation of each preceding bypass. */
  method AndNegations(rule: Rule, bypasses: seq<Rule>) returns (text: Text)
    ensures text == Guarded(rule, bypasses)
  {
    text := RuleText(rule);
    for i := 0 to |bypasses|
      invariant text == Guarded(rule, bypasses[..i])
    {
      text := AndFactor(text, NotParens(RuleText(bypasses[i])));
      assert bypasses[..i + 1][..i] == bypasses[..i];
    }
    assert bypasses[..|bypasses|] == bypasses;
  }

  // ---------------------------------------------------------------- meaning

  /** A rule matches when one of its criteria holds. */
  predicate RuleMatches(r: Rule, v: Criteria) {
    exists alt | 0 <= alt < Alternatives(r) :: PartHolds(r, alt, v)
  }

  predicate FirstMatchStores(rules: seq<Rule>, v: Criteria) {
    var m := FirstMatch((r: Rule) => RuleMatches(r, v), rules);
    m.Some? && m.value.action == Cache
  }

  predicate StoreFires(rules: seq<Rule>, v: Criteria)
    requires rules != []
  {
    match StoreDirective(rules)
    case StoreIf(condition) => Holds(condition, v)
    case _ => false
  }

  predicate SomeMatches(rules: seq<Rule>, v: Criteria) {
    exists i | 0 <= i < |rules| :: RuleMatches(rules[i], v)
  }

  lemma RuleTextMeaning(r: Rule, v: Criteria)
    ensures Holds(RuleText(r), v) == RuleMatches(r, v)
  {
    var t := RuleText(r);
    assert forall i :: 0 <= i < |t.products| ==> t.products[i] == Product([Criterion(Tests(r)[i])]);
    forall i | 0 <= i < |t.products| ensures ProductHolds(t.products[i], v) == PartHolds(r, i, v) {
      assert t.products[i].factors[0] == Criterion(Tests(r)[i]);
    }
  }

  /** What the glued text means: any alternative but the last, or the last one with no bypass matching. */
  predicate GluedMeaning(r: Rule, bypasses: seq<Rule>, v: Criteria) {
    || (exists alt | 0 <= alt < Alternatives(r) - 1 :: PartHolds(r, alt, v))
    || (PartHolds(r, Alternatives(r) - 1, v) && !SomeMatches(bypasses, v))
  }

  lemma AndFactorShape(a: Text, f: Factor)
    requires a.products != []
    ensures |AndFactor(a, f).products| == |a.products|
    ensures forall i :: 0 <= i < |a.products| - 1 ==> AndFactor(a, f).products[i] == a.products[i]
    ensures AndFactor(a, f).products[|a.products| - 1] == Product(a.products[|a.products| - 1].factors + [f])
  {
  }

  lemma ProductAnd(p: Product, f: Factor, v: Criteria)
    ensures ProductHolds(Product(p.factors + [f]), v) == (ProductHolds(p, v) && FactorHolds(f, v))
  {
    var q := p.factors + [f];
    assert q[|p.factors|] == f && forall i :: 0 <= i < |p.factors| ==> q[i] == p.factors[i];
  }

  /** One product for each alternative; the last one is also blocked by the bypasses joined so far. */
  predicate Shape(t: Text, r: Rule, blocked: bool, v: Criteria) {
    && |t.products| == Alternatives(r)
    && (forall i | 0 <= i < Alternatives(r) - 1 :: ProductHolds(t.products[i], v) == PartHolds(r, i, v))
    && ProductHolds(t.products[Alternatives(r) - 1], v) == (PartHolds(r, Alternatives(r) - 1, v) && !blocked)
  }

  lemma RuleTextShape(r: Rule, v: Criteria)
    ensures Shape(RuleText(r), r, false, v)
  {
    var t := RuleText(r);
    forall i | 0 <= i < |t.products| ensures ProductHolds(t.products[i], v) == PartHolds(r, i, v) {
      assert t.products[i] == Product([Criterion(Tests(r)[i])]) && t.products[i].factors[0] == Criterion(Tests(r)[i]);
    }
  }

  lemma AndFactorShaped(t: Text, f: Factor, r: Rule, blocked: bool, v: Criteria)
    requires Shape(t, r, blocked, v)
    ensures Shape(AndFactor(t, f), r, blocked || !FactorHolds(f, v), v)
  {
    AndFactorShape(t, f);
    ProductAnd(t.products[|t.products| - 1], f, v);
  }

  lemma {:induction false} GuardedShape(r: Rule, bypasses: seq<Rule>, v: Criteria)
    ensures Shape(Guarded(r, bypasses), r, SomeMatches(bypasses, v), v)
  {
    hide Shape, RuleText, AndFactor, RuleMatches;
    if bypasses == [] {
      RuleTextShape(r, v);
    } else {
      var init, last := bypasses[..|bypasses| - 1], bypasses[|bypasses| - 1];
      GuardedShape(r, init, v);
      AndFactorShaped(Guarded(r, init), NotParens(RuleText(last)), r, SomeMatches(init, v), v);
      RuleTextMeaning(last, v);
      SomeMatchesSplit(init, last, v);
      assert bypasses == init + [last];
    }
  }

  lemma ShapeMeaning(t: Text, r: Rule, blocked: bool, v: Criteria)
    requires Shape(t, r, blocked, v)
    ensures Holds(t, v) <==> (exists alt :: 0 <= alt < Alternatives(r) - 1 && PartHolds(r, alt, v)) || (PartHolds(r, Alternatives(r) - 1, v) && !blocked)
  {
    hide PartHolds, Alternatives, ProductHolds;
    var n := Alternatives(r);
    if Holds(t, v) {
      var i :| 0 <= i < |t.products| && ProductHolds(t.products[i], v);
      if i < n - 1 { assert PartHolds(r, i, v); }
    }
    forall alt | 0 <= alt < n - 1 && PartHolds(r, alt, v) ensures Holds(t, v) { assert ProductHolds(t.products[alt], v); }
  }

  lemma SomeMatchesSplit(init: seq<Rule>, last: Rule, v: Criteria)
    ensures SomeMatches(init + [last], v) == (SomeMatches(init, v) || RuleMatches(last, v))
  {
    var all := init + [last];
    assert all[|init|] == last && forall i :: 0 <= i < |init| ==> all[i] == init[i];
  }

  lemma TermMeaning(r: Rule, bypasses: seq<Rule>, v: Criteria)
    ensures ProductHolds(Product([Parens(Guarded(r, bypasses))]), v) == GluedMeaning(r, bypasses, v)
  {
    hide Guarded, Shape, SomeMatches, PartHolds;
    GuardedShape(r, bypasses, v);
    ShapeMeaning(Guarded(r, bypasses), r, SomeMatches(bypasses, v), v);
    var p := Product([Parens(Guarded(r, bypasses))]);
    assert p.factors[0] == Parens(Guarded(r, bypasses));
  }

  lemma ConsHolds(p: Product, rest: seq<Product>, v: Criteria)
    ensures Holds(Text([p] + rest), v) == (ProductHolds(p, v) || Holds(Text(rest), v))
  {
    var all := Text([p] + rest);
    assert all.products[0] == p && forall i :: 0 <= i < |rest| ==> all.products[i + 1] == rest[i];
    if Holds(Text(rest), v) {
      var i :| 0 <= i < |rest| && ProductHolds(rest[i], v);
      assert ProductHolds(all.products[i + 1], v);
    }
    if Holds(all, v) {
      var i :| 0 <= i < |all.products| && ProductHolds(all.products[i], v);
      if i > 0 { assert ProductHolds(Text(rest).products[i - 1], v); }
    }
  }

  // ---------------------------------------------------------------- exactly when it is right

  /** A criterion of r other than the last holds: the negations joined to r's condition do not reach it. */
  predicate EscapesGuard(r: Rule, v: Criteria) {
    exists alt | 0 <= alt < Alternatives(r) - 1 :: PartHolds(r, alt, v)
  }

  predicate SomeEscapes(rules: seq<Rule>, v: Criteria) {
    exists i | 0 <= i < |rules| :: rules[i].action == Cache && EscapesGuard(rules[i], v)
  }

  /** Index of the first rule that matches, or the number of rules. */
  function FirstAt(rules: seq<Rule>, v: Criteria): (k: nat)
    ensures k <= |rules|
    ensures k < |rules| ==> RuleMatches(rules[k], v)
    ensures forall i :: 0 <= i < k ==> !RuleMatches(rules[i], v)
  {
    if rules == [] || RuleMatches(rules[0], v) then 0 else 1 + FirstAt(rules[1..], v)
  }

  /** The first matching rule is a bypass, and a cache rule after it matches by a criterion other than its last. */
  predicate Misfires(rules: seq<Rule>, v: Criteria) {
    var k := FirstAt(rules, v);
    k < |rules| && rules[k].action == Bypass && SomeEscapes(rules[k + 1..], v)
  }

  lemma {:induction false} FirstMatchIs(rules: seq<Rule>, v: Criteria)
    ensures var k := FirstAt(rules, v);
      FirstMatch((r: Rule) => RuleMatches(r, v), rules) == if k < |rules| then Some(rules[k]) else None
  {
    if rules != [] && !RuleMatches(rules[0], v) {
      FirstMatchIs(rules[1..], v);
    }
  }

  /** Once a bypass has matched, only escaping criteria fire. */
  lemma {:induction false} TermsAfterBypass(rules: seq<Rule>, bypasses: seq<Rule>, v: Criteria)
    requires SomeMatches(bypasses, v)
    ensures Holds(Text(StoreTerms(rules, bypasses)), v) <==> SomeEscapes(rules, v)
  {
    hide Guarded, RuleMatches, EscapesGuard, Holds;
    if rules == [] {
      NothingHolds(v);
    } else {
      var r, rest := rules[0], rules[1..];
      EscapesSplit(rules, v);
      if r.action == Bypass {
        SomeMatchesSplit(bypasses, r, v);
        TermsAfterBypass(rest, bypasses + [r], v);
      } else {
        TermsAfterBypass(rest, bypasses, v);
        TermMeaning(r, bypasses, v);
        GluedAfterBypass(r, bypasses, v);
        ConsHolds(Product([Parens(Guarded(r, bypasses))]), StoreTerms(rest, bypasses), v);
      }
    }
  }

  lemma NothingHolds(v: Criteria)
    ensures !Holds(Text([]), v)
  {
  }

  lemma EscapesSplit(rules: seq<Rule>, v: Criteria)
    requires rules != []
    ensures SomeEscapes(rules, v) <==> (rules[0].action == Cache && EscapesGuard(rules[0], v)) || SomeEscapes(rules[1..], v)
  {
    hide EscapesGuard;
    var rest := rules[1..];
    assert forall i :: 0 <= i < |rest| ==> rest[i] == rules[i + 1];
    if i :| 0 <= i < |rest| && rest[i].action == Cache && EscapesGuard(rest[i], v) {
      assert EscapesGuard(rules[i + 1], v);
    }
    if i :| 0 < i < |rules| && rules[i].action == Cache && EscapesGuard(rules[i], v) {
      assert EscapesGuard(rest[i - 1], v);
    }
  }

  lemma GluedAfterBypass(r: Rule, bypasses: seq<Rule>, v: Criteria)
    requires SomeMatches(bypasses, v)
    ensures GluedMeaning(r, bypasses, v) == EscapesGuard(r, v)
  {
  }

  lemma GluedBeforeBypass(r: Rule, bypasses: seq<Rule>, v: Criteria)
    requires !SomeMatches(bypasses, v)
    ensures GluedMeaning(r, bypasses, v) == RuleMatches(r, v)
  {
  }

  lemma FirstMatches(rules: seq<Rule>, v: Criteria)
    requires rules != [] && RuleMatches(rules[0], v)
    ensures FirstAt(rules, v) == 0
    ensures Misfires(rules, v) <==> rules[0].action == Bypass && SomeEscapes(rules[1..], v)
  {
  }

  lemma FirstIsSkipped(rules: seq<Rule>, v: Criteria)
    requires rules != [] && !RuleMatches(rules[0], v)
    ensures FirstAt(rules, v) == 1 + FirstAt(rules[1..], v)
    ensures Misfires(rules, v) <==> Misfires(rules[1..], v)
  {
    hide RuleMatches, SomeEscapes;
    var rest, k := rules[1..], FirstAt(rules[1..], v);
    if k < |rest| {
      assert rules[k + 2..] == rest[k + 1..] && rules[k + 1] == rest[k];
    }
  }

  predicate FirstCaches(rules: seq<Rule>, v: Criteria) {
    FirstAt(rules, v) < |rules| && rules[FirstAt(rules, v)].action == Cache
  }

  /** Before any bypass has matched, the terms fire as the first match says, or misfire. */
  lemma {:induction false} TermsMeaning(rules: seq<Rule>, bypasses: seq<Rule>, v: Criteria)
    requires !SomeMatches(bypasses, v)
    ensures Holds(Text(StoreTerms(rules, bypasses)), v) <==> FirstCaches(rules, v) || Misfires(rules, v)
  {
    hide Guarded, RuleMatches, SomeEscapes, Holds, Misfires, SomeMatches;
    if rules == [] {
      NothingHolds(v);
      NothingMisfires(v);
    } else {
      var r, rest := rules[0], rules[1..];
      if RuleMatches(r, v) { FirstMatches(rules, v); } else { FirstIsSkipped(rules, v); }
      if r.action == Bypass {
        SomeMatchesSplit(bypasses, r, v);
        if RuleMatches(r, v) {
          TermsAfterBypass(rest, bypasses + [r], v);
        } else {
          TermsMeaning(rest, bypasses + [r], v);
        }
      } else {
        TermsMeaning(rest, bypasses, v);
        TermMeaning(r, bypasses, v);
        GluedBeforeBypass(r, bypasses, v);
        ConsHolds(Product([Parens(Guarded(r, bypasses))]), StoreTerms(rest, bypasses), v);
      }
    }
  }

  lemma NothingMisfires(v: Criteria)
    ensures !Misfires([], v)
  {
  }

  /** For any truth values of the criteria, the cache-store condition reproduces first-match-wins exactly when it does not misfire. */
  lemma StoreReproducesFirstMatchExactlyWhen(rules: seq<Rule>, v: Criteria)
    requires rules != []
    ensures StoreFires(rules, v) == FirstMatchStores(rules, v) <==> !Misfires(rules, v)
    ensures Misfires(rules, v) ==> StoreFires(rules, v)
  {
    hide RuleMatches, SomeEscapes, StoreTerms;
    assert !SomeMatches([], v);
    TermsMeaning(rules, [], v);
    FirstMatchIs(rules, v);
    NothingHolds(v);
  }

  // ---------------------------------------------------------------- responses

  /** A response: its status code (section 15 of RFC 9110) and its content type. */
  datatype Response = Response(status: int, contentType: string)

  predicate Possible(resp: Response) {
    100 <= resp.status < 600
  }

  predicate AllDigits(s: string) {
    forall i | 0 <= i < |s| :: IsDigit(s[i])
  }

  predicate TestHolds(test: Test, resp: Response) {
    match test
    case StatusIs(code) => AllDigits(code) && resp.status == ParseNat(code)
    case StatusFrom(first) => IsDigit(first) && DigitValue(first) * 100 <= resp.status <= 599
    case TypeBegins(prefix) => prefix <= resp.contentType
  }

  function CriteriaOf(resp: Response): Criteria {
    (test: Test) => TestHolds(test, resp)
  }

  /** The content types that tell the rules apart: the prefixes they ask for, and none. */
  function TypesToTry(rules: seq<Rule>): set<string> {
    {""} + set i, k | 0 <= i < |rules| && 0 <= k < |Tests(rules[i])| && Tests(rules[i])[k].TypeBegins? :: Tests(rules[i])[k].prefix
  }

  /** The check a caller can make: no status code with one of these content types misfires. */
  predicate NeverMisfires(rules: seq<Rule>) {
    forall status: int, contentType: string | 100 <= status < 600 && contentType in TypesToTry(rules) ::
      !Misfires(rules, CriteriaOf(Response(status, contentType)))
  }

  /** The longest content type among those to try that the given one begins with. */
  lemma {:induction false} LongestPrefix(types: set<string>, t: string) returns (best: string)
    requires "" in types
    ensures best in types && best <= t
    ensures forall p :: p in types && p <= t ==> p <= best
  {
    if types == {""} {
      best := "";
    } else {
      var p :| p in types && p != "";
      best := LongestPrefix(types - {p}, t);
      if p <= t && |p| > |best| {
        forall q | q in types && q <= t ensures q <= p {
          if q != p { assert q in types - {p} && q <= best; }
          assert |q| <= |p| && q == t[..|q|] && p == t[..|p|];
        }
        best := p;
      } else {
        forall q | q in types && q <= t ensures q <= best {
          if q == p { assert |q| <= |best| && q == t[..|q|] && best == t[..|best|] && best[..|q|] == q; } else { assert q in types - {p}; }
        }
      }
    }
  }

  lemma SameTests(rules: seq<Rule>, resp: Response, best: string, i: nat, k: nat)
    requires i < |rules| && k < |Tests(rules[i])|
    requires best <= resp.contentType && forall p :: p in TypesToTry(rules) && p <= resp.contentType ==> p <= best
    ensures TestHolds(Tests(rules[i])[k], resp) == TestHolds(Tests(rules[i])[k], Response(resp.status, best))
  {
    var test := Tests(rules[i])[k];
    if test.TypeBegins? {
      assert test.prefix in TypesToTry(rules);
    }
  }

  lemma SameMatches(rules: seq<Rule>, resp: Response, best: string, i: nat)
    requires i < |rules|
    requires best <= resp.contentType && forall p :: p in TypesToTry(rules) && p <= resp.contentType ==> p <= best
    ensures var v, w := CriteriaOf(resp), CriteriaOf(Response(resp.status, best));
      RuleMatches(rules[i], v) == RuleMatches(rules[i], w) && EscapesGuard(rules[i], v) == EscapesGuard(rules[i], w)
  {
    hide TestHolds, Tests, TypesToTry;
    var v, w := CriteriaOf(resp), CriteriaOf(Response(resp.status, best));
    forall k | 0 <= k < Alternatives(rules[i]) ensures PartHolds(rules[i], k, v) == PartHolds(rules[i], k, w) {
      SameTests(rules, resp, best, i, k);
    }
  }

  /** Trying those content types decides for all. */
  lemma MisfireIsFound(rules: seq<Rule>, resp: Response, best: string)
    requires best <= resp.contentType && forall p :: p in TypesToTry(rules) && p <= resp.contentType ==> p <= best
    requires Misfires(rules, CriteriaOf(resp))
    ensures Misfires(rules, CriteriaOf(Response(resp.status, best)))
  {
    hide RuleMatches, EscapesGuard, TypesToTry;
    var v, w := CriteriaOf(resp), CriteriaOf(Response(resp.status, best));
    forall i | 0 <= i < |rules|
      ensures RuleMatches(rules[i], v) == RuleMatches(rules[i], w) && EscapesGuard(rules[i], v) == EscapesGuard(rules[i], w)
    {
      SameMatches(rules, resp, best, i);
    }
    var k := FirstAt(rules, v);
    assert FirstAt(rules, w) == k;
    var after := rules[k + 1..];
    var j :| 0 <= j < |after| && after[j].action == Cache && EscapesGuard(after[j], v);
    assert after[j] == rules[k + 1 + j] && EscapesGuard(after[j], w);
  }

  /**
   * The cache-store condition decides every response as the first matching rule does exactly when no status code misfires
   * with no content type or with one of those the rules name.
   */
  lemma EveryResponseExactlyWhen(rules: seq<Rule>)
    requires rules != []
    ensures (forall resp :: Possible(resp) ==> StoreFires(rules, CriteriaOf(resp)) == FirstMatchStores(rules, CriteriaOf(resp)))
       <==> NeverMisfires(rules)
  {
    hide Misfires, StoreFires, FirstMatchStores, TypesToTry;
    forall resp | Possible(resp)
      ensures StoreFires(rules, CriteriaOf(resp)) == FirstMatchStores(rules, CriteriaOf(resp)) <==> !Misfires(rules, CriteriaOf(resp))
    {
      StoreReproducesFirstMatchExactlyWhen(rules, CriteriaOf(resp));
    }
    if NeverMisfires(rules) {
      forall resp | Possible(resp) ensures !Misfires(rules, CriteriaOf(resp)) {
        EmptyTypeIsTried(rules);
        var best := LongestPrefix(TypesToTry(rules), resp.contentType);
        if Misfires(rules, CriteriaOf(resp)) {
          MisfireIsFound(rules, resp, best);
        }
      }
    } else {
      var status, contentType :| 100 <= status < 600 && contentType in TypesToTry(rules) && Misfires(rules, CriteriaOf(Response(status, contentType)));
      assert Possible(Response(status, contentType));
    }
  }

  lemma EmptyTypeIsTried(rules: seq<Rule>)
    ensures "" in TypesToTry(rules)
  {
  }

  /** The same for the rules of a configuration. */
  lemma ConfiguredStoreExactlyWhen(config: seq<Rule>)
    requires ResponseRules(config) != []
    ensures (forall resp :: Possible(resp) ==>
              StoreFires(ResponseRules(config), CriteriaOf(resp)) == FirstMatchStores(ResponseRules(config), CriteriaOf(resp)))
       <==> NeverMisfires(ResponseRules(config))
  {
    hide StoreFires, FirstMatchStores, NeverMisfires, ResponseRules;
    EveryResponseExactlyWhen(ResponseRules(config));
  }

  // ---------------------------------------------------------------- two configurations

  /** Bypass text/html, then cache 200 and 301. */
  const HTML_THEN_LIST := [
    Rule(1, 0, true, Memory, ContentType, "text/html", Bypass),
    Rule(2, 1, true, Memory, StatusCode, "200,301", Cache)]

  /** Bypass 404, then cache 200 and 301. */
  const STATUS_THEN_LIST := [
    Rule(1, 0, true, Memory, StatusCode, "404", Bypass),
    Rule(2, 1, true, Memory, StatusCode, "200,301", Cache)]

  lemma SplitStep(c: char, s: string)
    ensures SplitCommas([c] + s) == if c == ',' then [""] + SplitCommas(s) else [[c] + SplitCommas(s)[0]] + SplitCommas(s)[1..]
  {
    assert ([c] + s)[1..] == s;
  }

  /** A code is one part, and so is what is before a comma. */
  lemma {:induction false} SplitPlain(code: string, more: string)
    requires ',' !in code
    ensures SplitCommas(code) == [code] && SplitCommas(code + ("," + more)) == [code] + SplitCommas(more)
  {
    if code == "" {
      SplitStep(',', more);
      assert code + ("," + more) == [','] + more;
    } else {
      var c, rest := code[0], code[1..];
      SplitPlain(rest, more);
      SplitStep(c, rest);
      SplitStep(c, rest + ("," + more));
      assert code == [c] + rest && code + ("," + more) == [c] + (rest + ("," + more));
    }
  }

  lemma ListParts()
    ensures SplitCommas("200,301") == ["200", "301"] && SplitCommas("404") == ["404"]
  {
    SplitPlain("200", "301");
    SplitPlain("301", "");
    SplitPlain("404", "");
    assert "200,301" == "200" + ("," + "301");
  }

  lemma CodeValues()
    ensures ParseNat("200") == 200 && ParseNat("301") == 301 && ParseNat("404") == 404
  {
    assert ParseNat("2") == 2 && ParseNat("20") == 20 && ParseNat("3") == 3 && ParseNat("30") == 30 && ParseNat("4") == 4 && ParseNat("40") == 40;
  }

  lemma ListTests(r: Rule)
    requires r.matchType == StatusCode && (r.pattern == "200,301" || r.pattern == "404")
    ensures Tests(r) == if r.pattern == "404" then [StatusIs("404")] else [StatusIs("200"), StatusIs("301")]
  {
    ListParts();
  }

  /** The page that should not be stored is stored. */
  lemma HtmlPageIsStored()
    ensures var v := CriteriaOf(Response(200, "text/html")); StoreFires(HTML_THEN_LIST, v) && !FirstMatchStores(HTML_THEN_LIST, v)
  {
    hide SplitCommas;
    var rules, v := HTML_THEN_LIST, CriteriaOf(Response(200, "text/html"));
    CodeValues();
    ListTests(rules[1]);
    assert Tests(rules[0]) == [TypeBegins("text/html")];
    assert PartHolds(rules[0], 0, v) && PartHolds(rules[1], 0, v);
    assert EscapesGuard(rules[1], v);
    assert rules[1..][0] == rules[1];
    assert FirstAt(rules, v) == 0;
    StoreReproducesFirstMatchExactlyWhen(rules, v);
  }

  /** No response has two status codes, so the list after a status bypass is harmless. */
  lemma StatusListIsHarmless(resp: Response)
    ensures StoreFires(STATUS_THEN_LIST, CriteriaOf(resp)) == FirstMatchStores(STATUS_THEN_LIST, CriteriaOf(resp))
  {
    hide SplitCommas;
    var rules, v := STATUS_THEN_LIST, CriteriaOf(resp);
    CodeValues();
    ListTests(rules[0]);
    ListTests(rules[1]);
    assert RuleMatches(rules[0], v) ==> resp.status == 404;
    assert EscapesGuard(rules[1], v) ==> resp.status == 200;
    StoreReproducesFirstMatchExactlyWhen(rules, v);
  }
}
