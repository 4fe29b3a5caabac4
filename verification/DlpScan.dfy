/** The data-loss scanner (shared/dlp_core.py): rules over one text, and the early-exit walk over a JSON value. */
module DlpScan {
  import opened Common
  import opened Json

  /** A compiled regex: its matches in a text, and substitution of every match. */
  datatype Regex = Regex(findall: string -> seq<string>, sub: (string -> string, string) -> string)

  datatype Rule = Rule(
    name: string, detector: string, direction: string, action: string, regex: Regex,
    tokenPrefix: string, tokenTtl: int, applyTo: string)

  datatype Hit = Hit(rule: string, detector: string, action: string, count: nat)

  /** What surrounds a scan: MAX_SCAN_LENGTH, the direction, the rules and the optional tokenizer. */
  datatype Scan = Scan(
    limit: nat, direction: string, rules: seq<Rule>, tokenizer: Option<(string, string, int) -> string>)

  predicate MatchesDirection(ruleDirection: string, scanDirection: string) {
    ruleDirection == "both" || ruleDirection == scanDirection
  }

  function Cut(limit: nat, text: string): string {
    if |text| > limit then text[..limit] else text
  }

  /** The rule is for this direction and matches within the scanned part of the text. */
  predicate Fires(scan: Scan, rule: Rule, text: string) {
    MatchesDirection(rule.direction, scan.direction) && rule.regex.findall(Cut(scan.limit, text)) != []
  }

  predicate Blocks(scan: Scan, rule: Rule, text: string) {
    Fires(scan, rule, text) && rule.action == "block"
  }

  /** Some rule for this direction blocks the text. */
  predicate Blocked(scan: Scan, text: string) {
    exists i :: 0 <= i < |scan.rules| && Blocks(scan, scan.rules[i], text)
  }

  /** What one firing rule substitutes, on the text as the earlier rules left it. */
  function Substitute(scan: Scan, rule: Rule, text: string): string {
    if rule.action == "tokenize" && scan.tokenizer.Some? then
      rule.regex.sub(m => scan.tokenizer.value(m, rule.tokenPrefix, rule.tokenTtl), text)
    else rule.regex.sub(_ => "[REDACTED]", text)
  }

  predicate Rewrites(scan: Scan, rule: Rule, text: string) {
    Fires(scan, rule, text) && (rule.action == "redact" || rule.action == "tokenize")
  }

  /** All substitutions by these rules, in order; whether a rule fires depends on the original text only. */
  function Redacted(scan: Scan, rules: seq<Rule>, text: string): string {
    if rules == [] then text
    else
      var rule, before := rules[|rules| - 1], Redacted(scan, rules[..|rules| - 1], text);
      if Rewrites(scan, rule, text) then Substitute(scan, rule, before) else before
  }

  /** any(h.action == "block" for h in hits) */
  predicate ReportsBlock(hits: seq<Hit>) {
    exists i :: 0 <= i < |hits| && hits[i].action == "block"
  }

  function HitFor(scan: Scan, rule: Rule, text: string): Hit {
    Hit(rule.name, rule.detector, rule.action, |rule.regex.findall(Cut(scan.limit, text))|)
  }

  /** One hit for each of these rules that rewrites the text. */
  function RewriteHits(scan: Scan, rules: seq<Rule>, text: string): seq<Hit> {
    if rules == [] then []
    else
      var rule := rules[|rules| - 1];
      RewriteHits(scan, rules[..|rules| - 1], text) + (if Rewrites(scan, rule, text) then [HitFor(scan, rule, text)] else [])
  }

  /** Index of the first rule that blocks the text, or the number of rules. */
  function FirstBlock(scan: Scan, n: nat, text: string): (k: nat)
    requires n <= |scan.rules|
    ensures n <= k <= |scan.rules|
    ensures k < |scan.rules| ==> Blocks(scan, scan.rules[k], text)
    ensures forall i :: n <= i < k ==> !Blocks(scan, scan.rules[i], text)
    decreases |scan.rules| - n
  {
    if n == |scan.rules| || Blocks(scan, scan.rules[n], text) then n else FirstBlock(scan, n + 1, text)
  }

  /** The hits of one text: the rewriting rules before the first block, then that block. */
  function TextHits(scan: Scan, text: string): seq<Hit> {
    var k := FirstBlock(scan, 0, text);
    RewriteHits(scan, scan.rules[..k], text) + (if k < |scan.rules| then [HitFor(scan, scan.rules[k], text)] else [])
  }

  // ---------------------------------------------------------------- the program: one text

  method ScanText(scan: Scan, text: string) returns (modified: string, hits: seq<Hit>)
    ensures modified == if Blocked(scan, text) then text else Redacted(scan, scan.rules, text)
    ensures hits == TextHits(scan, text)
  {
    hits := [];
    modified := text;
    var anyBlock := false;
    var scanText := Cut(scan.limit, text);
    var i := 0;
    while i < |scan.rules|
      invariant 0 <= i <= |scan.rules| && !anyBlock
      invariant forall j :: 0 <= j < i ==> !Blocks(scan, scan.rules[j], text)
      invariant modified == Redacted(scan, scan.rules[..i], text) && hits == RewriteHits(scan, scan.rules[..i], text)
    {
      var rule := scan.rules[i];
      assert scan.rules[..i + 1][..i] == scan.rules[..i];
      i := i + 1;
      if !MatchesDirection(rule.direction, scan.direction) {
        continue;
      }
      var matches := rule.regex.findall(scanText);
      if matches == [] {
        continue;
      }
      if rule.action == "block" {
        anyBlock := true;
        hits := hits + [Hit(rule.name, rule.detector, "block", |matches|)];
        assert Blocks(scan, scan.rules[i - 1], text);
        FirstBlockIs(scan, text, i - 1);
        break;
      } else if rule.action == "redact" {
        modified := rule.regex.sub(_ => "[REDACTED]", modified);
        hits := hits + [Hit(rule.name, rule.detector, "redact", |matches|)];
      } else if rule.action == "tokenize" {
        if scan.tokenizer.Some? {
          modified := rule.regex.sub(m => scan.tokenizer.value(m, rule.tokenPrefix, rule.tokenTtl), modified);
        } else {
          modified := rule.regex.sub(_ => "[REDACTED]", modified);
        }
        hits := hits + [Hit(rule.name, rule.detector, "tokenize", |matches|)];
      }
    }
    if anyBlock {
      modified := text;
    } else {
      FirstBlockIs(scan, text, |scan.rules|);
      assert scan.rules[..|scan.rules|] == scan.rules;
    }
  }

  lemma FirstBlockIs(scan: Scan, text: string, k: nat)
    requires k <= |scan.rules| && (k < |scan.rules| ==> Blocks(scan, scan.rules[k], text))
    requires forall i :: 0 <= i < k ==> !Blocks(scan, scan.rules[i], text)
    ensures FirstBlock(scan, 0, text) == k
    ensures Blocked(scan, text) <==> k < |scan.rules|
  {
  }

  // ---------------------------------------------------------------- a JSON value

  /** The string values of a JSON value in walking order; keys are not among them. */
  function Leaves(v: Json): seq<string>
    decreases v
  {
    match v
    case Str(s) => [s]
    case Arr(items) => ItemLeaves(items)
    case Obj(fields) => FieldLeaves(fields)
    case _ => []
  }

  function ItemLeaves(items: seq<Json>): seq<string>
    decreases items
  {
    if items == [] then [] else Leaves(items[0]) + ItemLeaves(items[1..])
  }

  function FieldLeaves(fields: seq<Field>): seq<string>
    decreases fields
  {
    if fields == [] then [] else Leaves(fields[0].val) + FieldLeaves(fields[1..])
  }

  /** The value with f applied to every string value. */
  function MapStrings(f: string -> string, v: Json): Json
    decreases v
  {
    match v
    case Str(s) => Str(f(s))
    case Arr(items) => Arr(seq(|items|, i requires 0 <= i < |items| => MapStrings(f, items[i])))
    case Obj(fields) => Obj(seq(|fields|, i requires 0 <= i < |fields| => Field(fields[i].key, MapStrings(f, fields[i].val))))
    case _ => v
  }

  predicate AnyBlocked(scan: Scan, texts: seq<string>) {
    exists i :: 0 <= i < |texts| && Blocked(scan, texts[i])
  }

  /** The hits of the texts in order, up to and including the first blocked one. */
  function Collected(scan: Scan, texts: seq<string>): seq<Hit> {
    if texts == [] then []
    else TextHits(scan, texts[0]) + (if Blocked(scan, texts[0]) then [] else Collected(scan, texts[1..]))
  }

  lemma {:induction false} CollectedAppends(scan: Scan, a: seq<string>, b: seq<string>)
    ensures Collected(scan, a + b) == Collected(scan, a) + (if AnyBlocked(scan, a) then [] else Collected(scan, b))
    ensures AnyBlocked(scan, a + b) <==> AnyBlocked(scan, a) || AnyBlocked(scan, b)
  {
    hide TextHits, Blocked;
    assert forall i :: 0 <= i < |b| ==> (a + b)[|a| + i] == b[i];
    assert forall i :: 0 <= i < |a| ==> (a + b)[i] == a[i];
    if a == [] {
      assert a + b == b;
    } else {
      assert (a + b)[1..] == a[1..] + b;
      CollectedAppends(scan, a[1..], b);
      AnyBlockedSplits(scan, a);
    }
  }

  lemma AnyBlockedSplits(scan: Scan, texts: seq<string>)
    requires texts != []
    ensures AnyBlocked(scan, texts) <==> Blocked(scan, texts[0]) || AnyBlocked(scan, texts[1..])
  {
    hide Blocked;
    if i :| 0 < i < |texts| && Blocked(scan, texts[i]) {
      assert Blocked(scan, texts[1..][i - 1]);
    }
    if i :| 0 <= i < |texts[1..]| && Blocked(scan, texts[1..][i]) {
      assert Blocked(scan, texts[i + 1]);
    }
  }

  lemma BlockHitExactlyWhenBlocked(scan: Scan, text: string)
    ensures ReportsBlock(TextHits(scan, text)) <==> Blocked(scan, text)
  {
    var k := FirstBlock(scan, 0, text);
    FirstBlockIs(scan, text, k);
    RewriteHitsDoNotBlock(scan, scan.rules[..k], text);
    if k < |scan.rules| {
      assert TextHits(scan, text)[|RewriteHits(scan, scan.rules[..k], text)|].action == "block";
    } else {
      assert TextHits(scan, text) == RewriteHits(scan, scan.rules[..k], text);
    }
  }

  lemma {:induction false} RewriteHitsDoNotBlock(scan: Scan, rules: seq<Rule>, text: string)
    ensures forall i :: 0 <= i < |RewriteHits(scan, rules, text)| ==> RewriteHits(scan, rules, text)[i].action != "block"
  {
    if rules != [] {
      RewriteHitsDoNotBlock(scan, rules[..|rules| - 1], text);
    }
  }

  // ---------------------------------------------------------------- the program: a JSON value

  function RedactAll(scan: Scan, v: Json): Json {
    MapStrings(text => Redacted(scan, scan.rules, text), v)
  }

  lemma {:induction false} ItemLeavesGrow(items: seq<Json>, i: nat)
    requires i < |items|
    ensures ItemLeaves(items[..i + 1]) == ItemLeaves(items[..i]) + Leaves(items[i])
  {
    hide Leaves;
    if i == 0 {
      assert items[..1][1..] == [] && items[..0] == [];
    } else {
      ItemLeavesGrow(items[1..], i - 1);
      assert items[..i + 1][1..] == items[1..][..i] && items[..i][1..] == items[1..][..i - 1];
    }
  }

  lemma {:induction false} FieldLeavesGrow(fields: seq<Field>, i: nat)
    requires i < |fields|
    ensures FieldLeaves(fields[..i + 1]) == FieldLeaves(fields[..i]) + Leaves(fields[i].val)
  {
    hide Leaves;
    if i == 0 {
      assert fields[..1][1..] == [] && fields[..0] == [];
    } else {
      FieldLeavesGrow(fields[1..], i - 1);
      assert fields[..i + 1][1..] == fields[1..][..i] && fields[..i][1..] == fields[1..][..i - 1];
    }
  }

  /** What the walk has found so far: whether it has stopped, and every hit in order. */
  datatype Findings = Findings(anyBlock: bool, hits: seq<Hit>)

  /** The findings after walking further texts. */
  function Walked(scan: Scan, before: Findings, texts: seq<string>): Findings {
    if before.anyBlock then before else Findings(AnyBlocked(scan, texts), before.hits + Collected(scan, texts))
  }

  lemma WalkedOneMore(scan: Scan, before: Findings, a: seq<string>, b: seq<string>)
    ensures Walked(scan, Walked(scan, before, a), b) == Walked(scan, before, a + b)
  {
    hide Collected, AnyBlocked;
    CollectedAppends(scan, a, b);
  }

  lemma WalkedNothing(scan: Scan, before: Findings)
    ensures Walked(scan, before, []) == before
  {
  }

  lemma WalkedText(scan: Scan, before: Findings, text: string)
    requires !before.anyBlock
    ensures Walked(scan, before, [text]) == Findings(Blocked(scan, text), before.hits + TextHits(scan, text))
  {
    assert AnyBlocked(scan, [text]) <==> Blocked(scan, [text][0]);
    assert Collected(scan, [text]) == TextHits(scan, text);
  }

  /** The state that the nested walk shares. */
  class Walker {
    const scan: Scan
    var anyBlock: bool
    var allHits: seq<Hit>

    function Found(): Findings
      reads this
    {
      Findings(anyBlock, allHits)
    }

    constructor (scan: Scan)
      ensures this.scan == scan && Found() == Findings(false, [])
    {
      this.scan, anyBlock, allHits := scan, false, [];
    }

    method Walk(v: Json) returns (r: Json)
      modifies this
      ensures Found() == Walked(scan, old(Found()), Leaves(v))
      ensures old(anyBlock) ==> r == v
      ensures !anyBlock ==> r == RedactAll(scan, v)
      decreases v, 1
    {
      hide Walked, Collected, AnyBlocked, Redacted;
      if anyBlock {
        StoppedWalk(scan, Found(), Leaves(v));
        return v;
      }
      match v {
        case Str(s) => r := WalkText(s);
        case Arr(items) =>
          var results := WalkItems(items);
          r := Arr(results);
        case Obj(fields) =>
          var results := WalkFields(fields);
          r := Obj(results);
        case _ =>
          WalkedNothing(scan, Found());
          r := v;
      }
    }

    method WalkText(s: string) returns (r: Json)
      requires !anyBlock
      modifies this
      ensures Found() == Walked(scan, old(Found()), [s])
      ensures !anyBlock ==> r == Str(Redacted(scan, scan.rules, s))
    {
      hide Walked, Collected, AnyBlocked, Redacted, TextHits;
      var modified, hits := ScanText(scan, s);
      for i := 0 to |hits|
        invariant allHits == old(allHits) + hits[..i]
        invariant anyBlock <==> exists j :: 0 <= j < i && hits[j].action == "block"
      {
        if hits[i].action == "block" {
          anyBlock := true;
        }
        allHits := allHits + [hits[i]];
      }
      assert hits[..|hits|] == hits;
      BlockHitExactlyWhenBlocked(scan, s);
      WalkedText(scan, old(Found()), s);
      r := Str(modified);
    }

    method WalkItems(items: seq<Json>) returns (results: seq<Json>)
      modifies this
      ensures Found() == Walked(scan, old(Found()), ItemLeaves(items))
      ensures !anyBlock ==> |results| == |items| && forall j :: 0 <= j < |items| ==> results[j] == RedactAll(scan, items[j])
      decreases items, 0
    {
      hide Walked, Collected, AnyBlocked, Redacted, RedactAll, Leaves;
      results := [];
      WalkedNothing(scan, Found());
      for i := 0 to |items|
        invariant Found() == Walked(scan, old(Found()), ItemLeaves(items[..i]))
        invariant |results| == i
        invariant !anyBlock ==> forall j :: 0 <= j < i ==> results[j] == RedactAll(scan, items[j])
      {
        ghost var was := Found();
        var result := Walk(items[i]);
        results := results + [result];
        StopsForGood(scan, was, Leaves(items[i]));
        ItemLeavesGrow(items, i);
        WalkedOneMore(scan, old(Found()), ItemLeaves(items[..i]), Leaves(items[i]));
      }
      assert items[..|items|] == items;
    }

    method WalkFields(fields: seq<Field>) returns (results: seq<Field>)
      modifies this
      ensures Found() == Walked(scan, old(Found()), FieldLeaves(fields))
      ensures !anyBlock ==>
        |results| == |fields| && forall j :: 0 <= j < |fields| ==> results[j] == Field(fields[j].key, RedactAll(scan, fields[j].val))
      decreases fields, 0
    {
      hide Walked, Collected, AnyBlocked, Redacted, RedactAll, Leaves;
      results := [];
      WalkedNothing(scan, Found());
      for i := 0 to |fields|
        invariant Found() == Walked(scan, old(Found()), FieldLeaves(fields[..i]))
        invariant |results| == i
        invariant !anyBlock ==> forall j :: 0 <= j < i ==> results[j] == Field(fields[j].key, RedactAll(scan, fields[j].val))
      {
        ghost var was := Found();
        var result := Walk(fields[i].val);
        results := results + [Field(fields[i].key, result)];
        StopsForGood(scan, was, Leaves(fields[i].val));
        FieldLeavesGrow(fields, i);
        WalkedOneMore(scan, old(Found()), FieldLeaves(fields[..i]), Leaves(fields[i].val));
      }
      assert fields[..|fields|] == fields;
    }
  }

  lemma StoppedWalk(scan: Scan, before: Findings, texts: seq<string>)
    requires before.anyBlock
    ensures Walked(scan, before, texts) == before
  {
  }

  lemma StopsForGood(scan: Scan, before: Findings, texts: seq<string>)
    ensures before.anyBlock ==> Walked(scan, before, texts).anyBlock
  {
  }

  method ScanJsonStrings(scan: Scan, v: Json) returns (data: Json, hits: seq<Hit>)
    ensures data == if AnyBlocked(scan, Leaves(v)) then v else RedactAll(scan, v)
    ensures hits == Collected(scan, Leaves(v))
  {
    var walker := new Walker(scan);
    var modified := walker.Walk(v);
    hits := walker.allHits;
    data := if walker.anyBlock then v else modified;
  }

  // ---------------------------------------------------------------- the program: a message

  /** Serialization of a whole value, for rules that apply to all text. */
  datatype Codec = Codec(dumps: Json -> string, loads: string -> Option<Json>)

  datatype Outcome = Outcome(blocked: bool, modified: bool, hits: seq<Hit>, data: Json)

  /** The rules for the scan's direction. */
  function Applicable(scan: Scan, rules: seq<Rule>): seq<Rule> {
    if rules == [] then []
    else
      var rule := rules[|rules| - 1];
      Applicable(scan, rules[..|rules| - 1]) + (if MatchesDirection(rule.direction, scan.direction) then [rule] else [])
  }

  lemma {:induction false} ApplicableAppends(scan: Scan, a: seq<Rule>, b: seq<Rule>)
    ensures Applicable(scan, a + b) == Applicable(scan, a) + Applicable(scan, b)
  {
    if b == [] {
      assert a + b == a;
    } else {
      assert (a + b)[..|a + b| - 1] == a + b[..|b| - 1];
      ApplicableAppends(scan, a, b[..|b| - 1]);
    }
  }

  lemma {:induction false} FilteredRedacted(scan: Scan, rules: seq<Rule>, text: string)
    ensures Redacted(scan, Applicable(scan, rules), text) == Redacted(scan, rules, text)
    ensures RewriteHits(scan, Applicable(scan, rules), text) == RewriteHits(scan, rules, text)
  {
    if rules != [] {
      var rule, before := rules[|rules| - 1], rules[..|rules| - 1];
      FilteredRedacted(scan, before, text);
      if MatchesDirection(rule.direction, scan.direction) {
        assert Applicable(scan, rules)[..|Applicable(scan, before)|] == Applicable(scan, before);
      } else {
        assert Applicable(scan, rules) == Applicable(scan, before);
      }
    }
  }

  lemma {:induction false} SameRulesElsewhere(scan: Scan, other: seq<Rule>, rules: seq<Rule>, text: string)
    ensures Redacted(scan.(rules := other), rules, text) == Redacted(scan, rules, text)
    ensures RewriteHits(scan.(rules := other), rules, text) == RewriteHits(scan, rules, text)
  {
    if rules != [] {
      SameRulesElsewhere(scan, other, rules[..|rules| - 1], text);
    }
  }

  lemma {:induction false} ApplicableMembers(scan: Scan, rules: seq<Rule>, rule: Rule)
    ensures rule in Applicable(scan, rules) <==> rule in rules && MatchesDirection(rule.direction, scan.direction)
  {
    if rules != [] {
      ApplicableMembers(scan, rules[..|rules| - 1], rule);
      assert rules == rules[..|rules| - 1] + [rules[|rules| - 1]];
    }
  }

  /** Dropping the rules for the other direction first changes no verdict, no redaction and no hit. */
  lemma FilteringChangesNothing(scan: Scan, text: string)
    ensures var narrowed := scan.(rules := Applicable(scan, scan.rules));
            Blocked(narrowed, text) == Blocked(scan, text)
    ensures var narrowed := scan.(rules := Applicable(scan, scan.rules));
            Redacted(narrowed, narrowed.rules, text) == Redacted(scan, scan.rules, text)
    ensures TextHits(scan.(rules := Applicable(scan, scan.rules)), text) == TextHits(scan, text)
  {
    hide Redacted, RewriteHits, Applicable;
    var rules := Applicable(scan, scan.rules);
    var narrowed := scan.(rules := rules);
    FilteredRedacted(scan, scan.rules, text);
    SameRulesElsewhere(scan, rules, rules, text);
    var k := FirstBlock(scan, 0, text);
    FirstBlockIs(scan, text, k);
    var before := Applicable(scan, scan.rules[..k]);
    FilteredRedacted(scan, scan.rules[..k], text);
    SameRulesElsewhere(scan, rules, before, text);
    ApplicableAppends(scan, scan.rules[..k], scan.rules[k..]);
    assert scan.rules == scan.rules[..k] + scan.rules[k..];
    assert rules[..|before|] == before;
    forall i | 0 <= i < |before| ensures !Blocks(narrowed, rules[i], text) {
      ApplicableMembers(scan, scan.rules[..k], before[i]);
      assert before[i] in before;
    }
    if k < |scan.rules| {
      ApplicableStarts(scan, scan.rules[k..]);
      assert rules[|before|] == scan.rules[k];
    } else {
      NoneApplicable(scan);
      assert rules == before;
    }
    FirstBlockIs(narrowed, text, |before|);
  }

  lemma ApplicableStarts(scan: Scan, rules: seq<Rule>)
    requires rules != [] && MatchesDirection(rules[0].direction, scan.direction)
    ensures Applicable(scan, rules) != [] && Applicable(scan, rules)[0] == rules[0]
  {
    assert rules == [rules[0]] + rules[1..];
    ApplicableAppends(scan, [rules[0]], rules[1..]);
    assert [rules[0]][..0] == [];
  }

  lemma NoneApplicable(scan: Scan)
    ensures Applicable(scan, []) == []
  {
  }

  lemma {:induction false} FilteredCollected(scan: Scan, texts: seq<string>)
    ensures var narrowed := scan.(rules := Applicable(scan, scan.rules));
            AnyBlocked(narrowed, texts) == AnyBlocked(scan, texts) && Collected(narrowed, texts) == Collected(scan, texts)
  {
    hide Blocked, TextHits, Applicable;
    forall i | 0 <= i < |texts| ensures Blocked(scan.(rules := Applicable(scan, scan.rules)), texts[i]) == Blocked(scan, texts[i]) {
      FilteringChangesNothing(scan, texts[i]);
    }
    if texts != [] {
      FilteringChangesNothing(scan, texts[0]);
      FilteredCollected(scan, texts[1..]);
    }
  }

  lemma {:induction false} FilteredRedactAll(scan: Scan, v: Json)
    ensures RedactAll(scan.(rules := Applicable(scan, scan.rules)), v) == RedactAll(scan, v)
    decreases v
  {
    hide Redacted, Applicable;
    match v
    case Str(s) => FilteringChangesNothing(scan, s);
    case Arr(items) =>
      forall i | 0 <= i < |items| ensures RedactAll(scan.(rules := Applicable(scan, scan.rules)), items[i]) == RedactAll(scan, items[i]) {
        FilteredRedactAll(scan, items[i]);
      }
    case Obj(fields) =>
      forall i | 0 <= i < |fields| ensures RedactAll(scan.(rules := Applicable(scan, scan.rules)), fields[i].val) == RedactAll(scan, fields[i].val) {
        FilteredRedactAll(scan, fields[i].val);
      }
    case _ =>
  }

  lemma {:induction false} NothingRedacted(scan: Scan, v: Json)
    requires scan.rules == []
    ensures RedactAll(scan, v) == v
    decreases v
  {
    match v
    case Arr(items) => forall i | 0 <= i < |items| ensures RedactAll(scan, items[i]) == items[i] { NothingRedacted(scan, items[i]); }
    case Obj(fields) => forall i | 0 <= i < |fields| ensures RedactAll(scan, fields[i].val) == fields[i].val { NothingRedacted(scan, fields[i].val); }
    case _ =>
  }

  lemma {:induction false} NothingCollected(scan: Scan, texts: seq<string>)
    requires scan.rules == []
    ensures !AnyBlocked(scan, texts) && Collected(scan, texts) == []
  {
    if texts != [] {
      NothingCollected(scan, texts[1..]);
      assert scan.rules[..0] == [];
    }
  }

  lemma NoRules(scan: Scan, v: Json)
    requires scan.rules == []
    ensures !AnyBlocked(scan, Leaves(v)) && Collected(scan, Leaves(v)) == [] && RedactAll(scan, v) == v
  {
    NothingCollected(scan, Leaves(v));
    NothingRedacted(scan, v);
  }

  /** A block is among the hits exactly when one of the texts is blocked. */
  lemma {:induction false} BlockReportedExactlyWhen(scan: Scan, texts: seq<string>)
    ensures ReportsBlock(Collected(scan, texts)) <==> AnyBlocked(scan, texts)
  {
    hide Blocked, TextHits;
    if texts != [] {
      AnyBlockedSplits(scan, texts);
      BlockHitExactlyWhenBlocked(scan, texts[0]);
      BlockReportedExactlyWhen(scan, texts[1..]);
      ReportsAppend(TextHits(scan, texts[0]), Collected(scan, texts[1..]));
      if Blocked(scan, texts[0]) {
        assert Collected(scan, texts) == TextHits(scan, texts[0]);
      }
    }
  }

  lemma ReportsAppend(a: seq<Hit>, b: seq<Hit>)
    ensures ReportsBlock(a + b) <==> ReportsBlock(a) || ReportsBlock(b)
  {
    assert forall i :: 0 <= i < |a| ==> (a + b)[i] == a[i];
    assert forall i :: 0 <= i < |b| ==> (a + b)[|a| + i] == b[i];
  }

  method ScanAllText(scan: Scan, codec: Codec, v: Json) returns (data: Json, hits: seq<Hit>)
    ensures hits == TextHits(scan, codec.dumps(v))
    ensures var text := codec.dumps(v); var redacted := Redacted(scan, scan.rules, text);
            data == if Blocked(scan, text) || redacted == text || codec.loads(redacted) == None then v else codec.loads(redacted).value
  {
    var text := codec.dumps(v);
    var modified: string;
    modified, hits := ScanText(scan, text);
    BlockHitExactlyWhenBlocked(scan, text);
    data := v;
    var blocked := ReportsBlock(hits);
    if !(hits != [] && blocked) && modified != text {
      match codec.loads(modified) {
        case Some(parsed) => data := parsed;
        case None =>
      }
    }
  }

  predicate AllText(rules: seq<Rule>) {
    exists i :: 0 <= i < |rules| && rules[i].applyTo == "all_text"
  }

  /** scan_request and scan_response: the same steps in the two directions. */
  method ScanMessage(scan: Scan, codec: Codec, v: Json) returns (result: Outcome)
    ensures var allText := AllText(Applicable(scan, scan.rules));
            result.blocked <==> if allText then Blocked(scan, codec.dumps(v)) else AnyBlocked(scan, Leaves(v))
    ensures result.modified <==> result.data != v
    ensures result.blocked ==> result.data == v
    ensures !result.blocked && !AllText(Applicable(scan, scan.rules)) ==> result.data == RedactAll(scan, v)
    ensures var redacted := Redacted(scan, scan.rules, codec.dumps(v));
            !result.blocked && AllText(Applicable(scan, scan.rules)) ==>
              result.data == if redacted == codec.dumps(v) || codec.loads(redacted) == None then v else codec.loads(redacted).value
    ensures result.hits == if AllText(Applicable(scan, scan.rules)) then TextHits(scan, codec.dumps(v)) else Collected(scan, Leaves(v))
  {
    var rules := Applicable(scan, scan.rules);
    var narrowed := scan.(rules := rules);
    FilteringChangesNothing(scan, codec.dumps(v));
    FilteredCollected(scan, Leaves(v));
    FilteredRedactAll(scan, v);
    if rules == [] {
      NoRules(narrowed, v);
      return Outcome(false, false, [], v);
    }
    var modified, hits;
    if AllText(rules) {
      modified, hits := ScanAllText(narrowed, codec, v);
      BlockHitExactlyWhenBlocked(narrowed, codec.dumps(v));
    } else {
      modified, hits := ScanJsonStrings(narrowed, v);
      BlockReportedExactlyWhen(narrowed, Leaves(v));
    }
    var blocked := ReportsBlock(hits);
    result := Outcome(blocked, modified != v, hits, modified);
  }

  // ---------------------------------------------------------------- what the walk means

  /** The hits of scanning every text, with no early exit. */
  function Exhaustive(scan: Scan, texts: seq<string>): seq<Hit> {
    if texts == [] then [] else TextHits(scan, texts[0]) + Exhaustive(scan, texts[1..])
  }

  /** Stopping at the first block changes no verdict, and drops hits only after that block. */
  lemma {:induction false} EarlyExitRefinesExhaustive(scan: Scan, texts: seq<string>)
    ensures Collected(scan, texts) <= Exhaustive(scan, texts)
    ensures ReportsBlock(Exhaustive(scan, texts)) <==> AnyBlocked(scan, texts)
    ensures !AnyBlocked(scan, texts) ==> Collected(scan, texts) == Exhaustive(scan, texts)
  {
    hide Blocked, TextHits, ReportsBlock;
    if texts == [] {
      NoHitsNoBlock();
    } else {
      EarlyExitRefinesExhaustive(scan, texts[1..]);
      BlockHitExactlyWhenBlocked(scan, texts[0]);
      AnyBlockedSplits(scan, texts);
      ReportsAppend(TextHits(scan, texts[0]), Exhaustive(scan, texts[1..]));
    }
  }

  lemma NoHitsNoBlock()
    ensures !ReportsBlock([])
  {
  }

  /** Equal but for string values: same keys, same lengths, same other leaves. */
  predicate SameShape(a: Json, b: Json)
    decreases a
  {
    match (a, b)
    case (Str(_), Str(_)) => true
    case (Arr(xs), Arr(ys)) => |xs| == |ys| && forall i :: 0 <= i < |xs| ==> SameShape(xs[i], ys[i])
    case (Obj(fs), Obj(gs)) => |fs| == |gs| && forall i :: 0 <= i < |fs| ==> fs[i].key == gs[i].key && SameShape(fs[i].val, gs[i].val)
    case _ => a == b
  }

  function Each(f: string -> string, texts: seq<string>): seq<string> {
    if texts == [] then [] else [f(texts[0])] + Each(f, texts[1..])
  }

  lemma {:induction false} EachAppends(f: string -> string, a: seq<string>, b: seq<string>)
    ensures Each(f, a + b) == Each(f, a) + Each(f, b)
  {
    if a == [] {
      assert a + b == b;
    } else {
      var first, rest := [f(a[0])], Each(f, a[1..]);
      EachAppends(f, a[1..], b);
      assert (a + b)[0] == a[0] && (a + b)[1..] == a[1..] + b;
      assert Each(f, a + b) == first + (rest + Each(f, b));
      assert first + (rest + Each(f, b)) == (first + rest) + Each(f, b);
    }
  }

  /** Redaction changes string values only, each to its own redaction and in place. */
  lemma {:induction false} OnlyStringsChange(f: string -> string, v: Json)
    ensures SameShape(v, MapStrings(f, v))
    ensures Leaves(MapStrings(f, v)) == Each(f, Leaves(v))
    decreases v, 1
  {
    match v
    case Str(_) => assert Each(f, []) == [];
    case Arr(items) =>
      ItemsChange(f, items);
      forall i | 0 <= i < |items| ensures SameShape(items[i], MapStrings(f, items[i])) { OnlyStringsChange(f, items[i]); }
    case Obj(fields) =>
      FieldsChange(f, fields);
      forall i | 0 <= i < |fields| ensures SameShape(fields[i].val, MapStrings(f, fields[i].val)) { OnlyStringsChange(f, fields[i].val); }
    case _ =>
  }

  lemma {:induction false} ItemsChange(f: string -> string, items: seq<Json>)
    ensures ItemLeaves(seq(|items|, i requires 0 <= i < |items| => MapStrings(f, items[i]))) == Each(f, ItemLeaves(items))
    decreases items, 0
  {
    hide MapStrings, Leaves;
    if items != [] {
      var rest := items[1..];
      var mapped := seq(|items|, i requires 0 <= i < |items| => MapStrings(f, items[i]));
      OnlyStringsChange(f, items[0]);
      ItemsChange(f, rest);
      assert mapped[1..] == seq(|rest|, i requires 0 <= i < |rest| => MapStrings(f, rest[i]));
      EachAppends(f, Leaves(items[0]), ItemLeaves(rest));
    }
  }

  lemma {:induction false} FieldsChange(f: string -> string, fields: seq<Field>)
    ensures FieldLeaves(seq(|fields|, i requires 0 <= i < |fields| => Field(fields[i].key, MapStrings(f, fields[i].val)))) == Each(f, FieldLeaves(fields))
    decreases fields, 0
  {
    hide MapStrings, Leaves;
    if fields != [] {
      var rest := fields[1..];
      var mapped := seq(|fields|, i requires 0 <= i < |fields| => Field(fields[i].key, MapStrings(f, fields[i].val)));
      OnlyStringsChange(f, fields[0].val);
      FieldsChange(f, rest);
      assert mapped[1..] == seq(|rest|, i requires 0 <= i < |rest| => Field(rest[i].key, MapStrings(f, rest[i].val)));
      EachAppends(f, Leaves(fields[0].val), FieldLeaves(rest));
    }
  }

  /** Only the first limit characters decide the verdict and the hits: a match beyond them is missed. */
  lemma OnlyTheCutDecides(scan: Scan, a: string, b: string)
    requires Cut(scan.limit, a) == Cut(scan.limit, b)
    ensures Blocked(scan, a) == Blocked(scan, b) && TextHits(scan, a) == TextHits(scan, b)
  {
    hide Cut, RewriteHits;
    var k := FirstBlock(scan, 0, a);
    FirstBlockIs(scan, a, k);
    FirstBlockIs(scan, b, k);
    SameCutSameHits(scan, scan.rules[..k], a, b);
  }

  lemma {:induction false} SameCutSameHits(scan: Scan, rules: seq<Rule>, a: string, b: string)
    requires Cut(scan.limit, a) == Cut(scan.limit, b)
    ensures RewriteHits(scan, rules, a) == RewriteHits(scan, rules, b)
  {
    hide Cut;
    if rules != [] {
      SameCutSameHits(scan, rules[..|rules| - 1], a, b);
    }
  }

  predicate KnownAction(action: string) {
    action == "block" || action == "redact" || action == "tokenize"
  }

  /** A text without hits is one that no rule with a known action matches, and it is returned as it was. */
  lemma CleanExactlyWhen(scan: Scan, text: string)
    ensures TextHits(scan, text) == []
       <==> forall i :: 0 <= i < |scan.rules| ==> !(KnownAction(scan.rules[i].action) && Fires(scan, scan.rules[i], text))
    ensures TextHits(scan, text) == [] ==> Redacted(scan, scan.rules, text) == text
  {
    hide Fires;
    var k := FirstBlock(scan, 0, text);
    NoRewriteExactlyWhen(scan, scan.rules[..k], text);
    if k == |scan.rules| {
      assert scan.rules[..k] == scan.rules;
    }
  }

  lemma {:induction false} NoRewriteExactlyWhen(scan: Scan, rules: seq<Rule>, text: string)
    ensures RewriteHits(scan, rules, text) == [] <==> forall i :: 0 <= i < |rules| ==> !Rewrites(scan, rules[i], text)
    ensures RewriteHits(scan, rules, text) == [] ==> Redacted(scan, rules, text) == text
  {
    hide Rewrites;
    if rules != [] {
      var n := |rules| - 1;
      NoRewriteExactlyWhen(scan, rules[..n], text);
      assert forall i :: 0 <= i < n ==> rules[..n][i] == rules[i];
    }
  }
}
