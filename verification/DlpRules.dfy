/** What each kind of data-loss rule does to a text, in terms of its regex and its own fields. */
module DlpRules {
  import opened Common
  import opened Json
  import opened DlpScan

  /** The part of the text that is searched: all of it up to the limit. */
  predicate Searched(limit: nat, text: string, part: string) {
    if |text| <= limit then part == text else |part| == limit && part <= text
  }

  /** The rule is for this direction or for both, and finds something in the searched part. */
  predicate Finds(scan: Scan, rule: Rule, part: string) {
    (rule.direction == "both" || rule.direction == scan.direction) && rule.regex.findall(part) != []
  }

  lemma FiresExactlyWhen(scan: Scan, rule: Rule, text: string, part: string)
    requires Searched(scan.limit, text, part)
    ensures Fires(scan, rule, text) <==> Finds(scan, rule, part)
    ensures Cut(scan.limit, text) == part
  {
    if |text| > scan.limit { assert text[..|part|] == part; }
  }

  /** A text is blocked exactly when a block rule finds something in the searched part. */
  lemma BlockedExactlyWhen(scan: Scan, text: string, part: string)
    requires Searched(scan.limit, text, part)
    ensures Blocked(scan, text) <==> exists rule :: rule in scan.rules && rule.action == "block" && Finds(scan, rule, part)
  {
    hide Fires, Finds;
    forall rule | rule in scan.rules ensures Fires(scan, rule, text) <==> Finds(scan, rule, part) {
      FiresExactlyWhen(scan, rule, text, part);
    }
    if rule :| rule in scan.rules && rule.action == "block" && Finds(scan, rule, part) {
      var i :| 0 <= i < |scan.rules| && scan.rules[i] == rule;
      assert Blocks(scan, scan.rules[i], text);
    }
  }

  /** The result is the text with every match of the rule's regex replaced by [REDACTED]. */
  ghost predicate RedactedBy(rule: Rule, text: string, result: string) {
    exists f :: result == rule.regex.sub(f, text) && forall m :: f(m) == "[REDACTED]"
  }

  /** The result is the text with every match of the rule's regex replaced by what the tokenizer gives for it. */
  ghost predicate TokenizedBy(rule: Rule, tokenizer: (string, string, int) -> string, text: string, result: string) {
    exists f :: result == rule.regex.sub(f, text) && forall m :: f(m) == tokenizer(m, rule.tokenPrefix, rule.tokenTtl)
  }

  lemma LastWrites(scan: Scan, rule: Rule, text: string)
    ensures if rule.action == "tokenize" && scan.tokenizer.Some?
            then TokenizedBy(rule, scan.tokenizer.value, text, Substitute(scan, rule, text))
            else RedactedBy(rule, text, Substitute(scan, rule, text))
  {
    if rule.action == "tokenize" && scan.tokenizer.Some? {
      var f := m => scan.tokenizer.value(m, rule.tokenPrefix, rule.tokenTtl);
      assert Substitute(scan, rule, text) == rule.regex.sub(f, text);
    } else {
      var f: string -> string := _ => "[REDACTED]";
      assert Substitute(scan, rule, text) == rule.regex.sub(f, text);
    }
  }

  /**
   * A text that one redact or tokenize rule alone rewrites has that rule's matches replaced: by [REDACTED], or by tokens
   * if the rule tokenizes and there is a tokenizer.
   */
  lemma {:induction false} OneRuleWrites(scan: Scan, rules: seq<Rule>, i: nat, text: string)
    requires i < |rules| && Rewrites(scan, rules[i], text)
    requires forall j :: 0 <= j < |rules| && j != i ==> !Rewrites(scan, rules[j], text)
    ensures rules[i].action == "redact" || (rules[i].action == "tokenize" && scan.tokenizer == None)
      ==> RedactedBy(rules[i], text, Redacted(scan, rules, text))
    ensures rules[i].action == "tokenize" && scan.tokenizer.Some?
      ==> TokenizedBy(rules[i], scan.tokenizer.value, text, Redacted(scan, rules, text))
  {
    hide Rewrites, RedactedBy, TokenizedBy, Substitute;
    var n := |rules| - 1;
    var before := rules[..n];
    assert forall j :: 0 <= j < n ==> before[j] == rules[j];
    if i < n {
      OneRuleWrites(scan, before, i, text);
    } else {
      NoneWrites(scan, before, text);
      LastWrites(scan, rules[n], text);
    }
  }

  lemma {:induction false} NoneWrites(scan: Scan, rules: seq<Rule>, text: string)
    requires forall j :: 0 <= j < |rules| ==> !Rewrites(scan, rules[j], text)
    ensures Redacted(scan, rules, text) == text
  {
    if rules != [] { NoneWrites(scan, rules[..|rules| - 1], text); }
  }

  /** Two rules that rewrite a text do so one after the other, the second on what the first left. */
  lemma TwoRulesWriteInOrder(scan: Scan, first: Rule, second: Rule, text: string)
    requires Rewrites(scan, first, text) && Rewrites(scan, second, text)
    ensures Redacted(scan, [first, second], text) == Substitute(scan, second, Redacted(scan, [first], text))
  {
    assert [first, second][..1] == [first] && [first][..0] == [];
  }

  /** One rule gives at most one hit, with its own name, detector and action, and the number of its matches in the searched part. */
  lemma HitsOfOneRule(scan: Scan, rule: Rule, text: string, part: string)
    requires scan.rules == [rule] && Searched(scan.limit, text, part)
    ensures TextHits(scan, text) == if KnownAction(rule.action) && Finds(scan, rule, part)
                                    then [Hit(rule.name, rule.detector, rule.action, |rule.regex.findall(part)|)] else []
  {
    FiresExactlyWhen(scan, rule, text, part);
    var k := if Blocks(scan, rule, text) then 0 else 1;
    FirstBlockIs(scan, text, k);
    assert scan.rules[..0] == [] && [rule][..1] == [rule] && [rule][..0] == [];
    assert RewriteHits(scan, [], text) == [];
  }

  /** Rules of other directions, other actions, or without a match leave no trace. */
  lemma SilentRules(scan: Scan, text: string, part: string)
    requires Searched(scan.limit, text, part)
    requires forall rule :: rule in scan.rules ==> !KnownAction(rule.action) || !Finds(scan, rule, part)
    ensures !Blocked(scan, text) && TextHits(scan, text) == [] && Redacted(scan, scan.rules, text) == text
  {
    hide Finds, Fires;
    forall i | 0 <= i < |scan.rules| ensures !(KnownAction(scan.rules[i].action) && Fires(scan, scan.rules[i], text)) {
      FiresExactlyWhen(scan, scan.rules[i], text, part);
      assert scan.rules[i] in scan.rules;
    }
    CleanExactlyWhen(scan, text);
  }

  // ---------------------------------------------------------------- where strings are found

  /** The string value at a place. */
  function StringAt(v: Json, place: Place): Option<string> {
    match NodeAt(v, place)
    case Some(Str(s)) => Some(s)
    case _ => None
  }

  lemma {:induction false} ItemLeavesAt(items: seq<Json>, text: string)
    ensures text in ItemLeaves(items) <==> exists i :: 0 <= i < |items| && text in Leaves(items[i])
  {
    hide Leaves;
    if items != [] {
      ItemLeavesAt(items[1..], text);
      if i :| 0 <= i < |items[1..]| && text in Leaves(items[1..][i]) { assert text in Leaves(items[i + 1]); }
      if i :| 0 < i < |items| && text in Leaves(items[i]) { assert text in Leaves(items[1..][i - 1]); }
    }
  }

  lemma {:induction false} FieldLeavesAt(fields: seq<Field>, text: string)
    ensures text in FieldLeaves(fields) <==> exists i :: 0 <= i < |fields| && text in Leaves(fields[i].val)
  {
    hide Leaves;
    if fields != [] {
      FieldLeavesAt(fields[1..], text);
      if i :| 0 <= i < |fields[1..]| && text in Leaves(fields[1..][i].val) { assert text in Leaves(fields[i + 1].val); }
      if i :| 0 < i < |fields| && text in Leaves(fields[i].val) { assert text in Leaves(fields[1..][i - 1].val); }
    }
  }

  /** A text that is scanned stands somewhere in the value. */
  lemma {:induction false} ScannedStandsSomewhere(v: Json, text: string) returns (place: Place)
    requires text in Leaves(v)
    ensures StringAt(v, place) == Some(text)
    decreases v
  {
    match v
    case Str(_) => place := [];
    case Arr(items) =>
      ItemLeavesAt(items, text);
      var i :| 0 <= i < |items| && text in Leaves(items[i]);
      var inner := ScannedStandsSomewhere(items[i], text);
      place := [i] + inner;
      assert place[1..] == inner;
    case Obj(fields) =>
      FieldLeavesAt(fields, text);
      var i :| 0 <= i < |fields| && text in Leaves(fields[i].val);
      var inner := ScannedStandsSomewhere(fields[i].val, text);
      place := [i] + inner;
      assert place[1..] == inner;
  }

  /** Every string value, however deep in lists and objects, is scanned. */
  lemma {:induction false} EveryStringIsScanned(v: Json, place: Place)
    requires StringAt(v, place).Some?
    ensures StringAt(v, place).value in Leaves(v)
    decreases v
  {
    match v
    case Str(_) =>
    case Arr(items) =>
      EveryStringIsScanned(items[place[0]], place[1..]);
      ItemLeavesAt(items, StringAt(v, place).value);
    case Obj(fields) =>
      EveryStringIsScanned(fields[place[0]].val, place[1..]);
      FieldLeavesAt(fields, StringAt(v, place).value);
  }

  /** A value is blocked exactly when the string at some place in it is. */
  lemma ValueBlockedExactlyWhen(scan: Scan, v: Json)
    ensures AnyBlocked(scan, Leaves(v)) <==> exists place :: StringAt(v, place).Some? && Blocked(scan, StringAt(v, place).value)
  {
    hide Blocked, Leaves, StringAt;
    if i :| 0 <= i < |Leaves(v)| && Blocked(scan, Leaves(v)[i]) {
      var place := ScannedStandsSomewhere(v, Leaves(v)[i]);
      assert Blocked(scan, StringAt(v, place).value);
    }
    if place :| StringAt(v, place).Some? && Blocked(scan, StringAt(v, place).value) {
      EveryStringIsScanned(v, place);
      var i :| 0 <= i < |Leaves(v)| && Leaves(v)[i] == StringAt(v, place).value;
      assert Blocked(scan, Leaves(v)[i]);
    }
  }

  /** Redaction leaves strings where they are, each redacted by itself. */
  lemma {:induction false} RedactedInPlace(scan: Scan, v: Json, place: Place)
    ensures StringAt(RedactAll(scan, v), place)
         == match StringAt(v, place) case Some(s) => Some(Redacted(scan, scan.rules, s)) case None => None
    decreases v
  {
    hide Redacted;
    match v
    case Arr(items) => if place != [] && place[0] < |items| { RedactedInPlace(scan, items[place[0]], place[1..]); }
    case Obj(fields) => if place != [] && place[0] < |fields| { RedactedInPlace(scan, fields[place[0]].val, place[1..]); }
    case _ =>
  }

  /** The message is scanned as one text exactly when some rule for its direction asks for that. */
  lemma ScannedAsTextExactlyWhen(scan: Scan)
    ensures AllText(Applicable(scan, scan.rules))
       <==> exists rule :: rule in scan.rules && rule.applyTo == "all_text" && (rule.direction == "both" || rule.direction == scan.direction)
  {
    var rules := Applicable(scan, scan.rules);
    forall rule ensures rule in rules <==> rule in scan.rules && MatchesDirection(rule.direction, scan.direction) {
      ApplicableMembers(scan, scan.rules, rule);
    }
    if i :| 0 <= i < |rules| && rules[i].applyTo == "all_text" {
      assert rules[i] in rules;
    }
    if rule :| rule in scan.rules && rule.applyTo == "all_text" && (rule.direction == "both" || rule.direction == scan.direction) {
      assert rule in rules;
      var i :| 0 <= i < |rules| && rules[i] == rule;
    }
  }
}
