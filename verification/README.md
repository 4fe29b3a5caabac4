# Verification of the gateway and cache core

This project models the parts of the repository whose correctness rests on more than one function, and proves what those
parts are for. Run `dafny verify dfyconfig.toml` here to check all of it.

- **Expression language** (`shared/expression_core.py`). The lexer and the recursive-descent parser are written as the
  source's loops and position-advancing methods, each tied to a function. The parser is proved equivalent to a grammar of
  derivation trees, and to report each syntax error at the first token that cannot go on. Two printers (one fully
  parenthesised, one that relies on `not` > `and` > `or` and is proved shortest) are undone by parsing, on tokens and on
  text. The operators mean what laws about evaluated comparisons say. The disjunctive normal form is compared with the
  evaluator, both read leaf by leaf, and its size is bounded tightly.
- **Translation to HAProxy** (`backend/app/services/security_rules.py`). The leaves of the normal form become fragments
  over opaque tests, refusals included; the emitted condition is compared with what the tree says of the same tests.
- **Concurrent gateway state** (`mcp-gateway/ratelimit.py`, `mcp-gateway/stdio_proxy.py`). The sliding-window limiter, the
  counter-based slot lease and the request/response correlator are state machines of atomic store steps or event-loop
  turns. The class methods perform the steps; the lemmas speak about every run. SlidingWindowRace allows any clock and any
  expiry and bounds the stored set; RaceAdmissions has a monotone clock and the key's own expiry and bounds admitted calls.
- **Ordered cache rules** (`backend/app/services/cache_rules.py`). Guarded `cache-use` and `use-server` lines, the VCL
  chain and the `cache-store` condition are compared with first-match-wins for every truth assignment, and the last of
  them for every response.
- **Policies and namespacing** (`mcp-gateway/policy.py`, `mcp-gateway/protocol.py`). List-time filtering against call-time
  checks, routing against the prefixed names and percent-encoded URIs that were listed, and both together from the list
  entry a client sees to the server its call reaches.
- **Tree and worklist algorithms**: the `$ref` closure (`mcp-server/tools.py`), learned schemas
  (`backend/app/services/api_armor_schemas.py`), the early-exit data-loss scan (`shared/dlp_core.py`) and counter deltas
  per time bucket (`backend/app/services/cache_metrics.py`).

Where the code differs from what its documentation or comments say, the model follows the code:

- `to_dnf` read with `evaluate_leaf` disagrees with the evaluator under an odd number of negations of a literal, because
  `evaluate_leaf` ignores `negated` there: `not true` evaluates to false and its normal form holds. The translation to
  HAProxy never shows this, since it refuses every tree with a literal.
- The translation drops a negation on `!=` and `!~` comparisons of static fields (`not (f != "x")` is emitted like
  `f != "x"`) and on no other leaf. Where a field is absent, `f = "x"` and `f != "x"` are both false to the evaluator,
  while one of the two emitted tests always holds.
- Ordered cache rules are reproduced exactly by the two guarded forms and the VCL chain. The `cache-store` condition
  renders a comma list as an unparenthesised `||`, so it goes wrong on just those responses whose first match is a bypass
  rule and that meet a criterion other than the last of a later cache rule: with bypass `text/html` before cache
  `200,301`, an HTML page with status 200 is stored. A list of status codes after a bypass of another code is harmless.
- The cache-store condition writes a status class such as `2xx` as the range from its first code to 599, so it means the
  class only for `5xx`; VCL reads every class as its hundred codes. A single rule that caches `2xx` stores errors as well.
- Fields of risk rulesets are translated leaf by leaf, but determining the phase does not know them: an expression with one
  is refused unless a response field comes before it.
- `n_object` is reported as the largest count sampled in a step, not as the last one.
- The limiter's count and add are two round trips. With k callers in between, the stored set stays within limit + k - 1
  entries, but callers that read the same time can write the same member: admitted calls in a window stay within
  limit + k - 1 if no two counts read the same time, and within k * limit otherwise. All three bounds are attained.
- The slot counter has a lease of five minutes set once. It is exact throughout a run if and only if the key never expires
  while a slot is out; after an expiry, as many slots as were out then can be held beyond the limit, and the counter ends
  that far below zero.
- `_standalone_schema` follows references out of objects only, collapses any reference to its last path segment, and
  replaces a schema's own `$defs` when it attaches anything.
- A learned schema can reject bodies it was learned from: arrays keep the first body's items and length, and a type
  conflict that is not in the last observation leaves a nested type list, which is no valid schema.
- Tool listing evaluates policies without arguments, so an expression over `mcp.arg` can hide a tool that is callable.

Standards: JSON Schema Validation 2020-12 (sections 6.1, 6.3, 6.4 and 6.5) for what a schema accepts, RFC 3986
(sections 2.1 and 2.3) for percent-encoding, RFC 9110 (section 15) for status codes, and UTF-8 as RFC 3629 defines it.

## Model

| member | source | states |
|---|---|---|
| Lexer.Tokenize | shared/expression_core.py:45-145 | The loop over the text returns what the character-by-character specification reads, including the position of the first bad character; round trip and placement are proved about that specification |
| Lexer.StringLoop | shared/expression_core.py:84-101 | The inner loop finds the closing quote and the unescaped body, or reports that there is none |
| Lexer.SpanLoop | shared/expression_core.py:102-140 | The digit and word loops stop at the longest run of the class and inside the text |
| Lexer.NextToken | shared/expression_core.py:52-143 | The order of the branches: every position yields the token, the skip or the error the specification names |
| Lexer.NumberToken | shared/expression_core.py:102-108 | Optional minus sign, longest run of digits, its integer value |
| Lexer.ListRefToken | shared/expression_core.py:109-122 | The reference split at its first colon, or the position of a malformed one |
| Lexer.AsNumberToken | shared/expression_core.py:123-130 | A word that starts with AS and a digit is a string token of exactly those digits |
| Lexer.WordToken | shared/expression_core.py:131-142 | Keywords whatever their case, identifiers as they are written |
| Lexer.ScanIsPlaced | shared/expression_core.py:45-145 | For every text: token positions strictly increase, lie inside it, and one end marker comes last |
| LexerRoundTrip.ReadToken | shared/expression_core.py:45-145 | Every well-formed token is read back from its own text, whatever follows the space after it |
| LexerRoundTrip.TokenizeUndoesRender | shared/expression_core.py:45-145 | Tokenizing any rendered list of well-formed tokens gives the same tokens at the places where they were written, plus one end marker |
| LexerSpelling.AsNumberSpellings | shared/expression_core.py:123-130 | as64500, AS64500 and "AS64500" are one token, for any digits and mix of case |
| LexerSpelling.QuoteSpellings | shared/expression_core.py:84-101 | A text without quotes and backslashes is the same token between double and between single quotes |
| LexerSpelling.KeywordSpellings | shared/expression_core.py:131-142 | A keyword is that keyword however its letters are written |
| LexerSpelling.NamesAreKept | shared/expression_core.py:131-142 | Any other word of letters, digits, dots and underscores is one name, kept as it is written |
| LexerSpelling.ListReferenceIsRead | shared/expression_core.py:109-122 | $type:name is one token, split at the first colon, for all types and names of the allowed characters |
| LexerSpelling.LongOperatorsAreRead | shared/expression_core.py:75-79 | Operators of two characters are read as such whatever follows |
| LexerSpelling.ShortOperatorsAreRead | shared/expression_core.py:80-83 | So are the others, except that > and < take an equals sign with them |
| LexerSpelling.PunctuationIsRead | shared/expression_core.py:55-74 | Parentheses, brackets and commas, whatever follows |
| LexerSpelling.BlanksAreSkipped | shared/expression_core.py:52-54 | White space before a text only moves its tokens |
| Parser.ParseOr | shared/expression_core.py:194-201 | On success at least one token is consumed, what is left is a suffix that still ends in the one end marker; termination by remaining tokens and level |
| Parser.ParseAnd | shared/expression_core.py:203-210 | As for `or`: progress, no step past the end marker |
| Parser.ParseNot | shared/expression_core.py:212-217 | As for `or`: progress, no step past the end marker |
| Parser.ParsePrimary | shared/expression_core.py:219-230 | As for `or`, through parentheses, literals and conditions |
| Parser.ParseCondition | shared/expression_core.py:232-293 | As for `or`, through fields, bracket keys, operators, membership and bare fields |
| Parser.TokenParser.ParseAll | shared/expression_core.py:187-192 | The object's result, error position included, and its final place are those of the specification |
| Parser.TokenParser.OrLevel | shared/expression_core.py:194-201 | The loop over `or` collects exactly the children of the specification and leaves the place where it stopped |
| Parser.TokenParser.AndLevel | shared/expression_core.py:203-210 | The same for `and` |
| Parser.TokenParser.NotLevel | shared/expression_core.py:212-217 | The same for `not` |
| Parser.TokenParser.Primary | shared/expression_core.py:219-230 | The same for parentheses, literals and conditions |
| Parser.TokenParser.Condition | shared/expression_core.py:232-293 | The same for conditions |
| Parser.TokenParser.Operator | shared/expression_core.py:259-293 | The same for what follows a field, including the branch for bare boolean fields |
| Parser.TokenParser.In | shared/expression_core.py:295-320 | The same for list references and bracketed lists |
| Parser.TokenParser.Values | shared/expression_core.py:306-317 | The loop over comma-separated values |
| Parser.TokenParser.Advance | shared/expression_core.py:176-179 | The place moves by one token and never past the end marker |
| Parser.ParseExpression | shared/expression_core.py:323-338 | Blank text, bad characters and syntax errors are told apart; otherwise the tree of the specification |
| Grammar.ParserIsComplete | shared/expression_core.py:187-320 | Every derivation of the grammar is accepted, with exactly its tree |
| GrammarSound.ParserMatchesGrammar | shared/expression_core.py:187-320 | The parser yields a tree if and only if the grammar derives all the tokens before the end marker with that tree |
| GrammarSound.ParsedIsCanonical | shared/expression_core.py:194-210 | Parsed `and` and `or` nodes have at least two children, at every depth |
| ParseErrors.ErrorIsNotPremature | shared/expression_core.py:187-320 | The tokens up to the one an error is reported at decide it: whatever follows them, it is the same error at the same place |
| ParseErrors.ErrorIsAtFirstBadToken | shared/expression_core.py:187-320 | A syntax error is reported at exactly the first token with which what was read cannot go on: the tokens before it begin some accepted expression, and with it they begin none |
| ParseErrors.ReportedPosition | shared/expression_core.py:323-338 | For every text that is refused by the parser, the reported position is that of this token |
| Printer.ParseUndoesPrinters | shared/expression_core.py:187-320 | For every expressible tree, parsing the tokens of either printer returns that tree |
| ShortestPrinter.MinimalParentheses | shared/expression_core.py:194-230 | No text of a tree has fewer tokens than the minimal printer's: every valid derivation of the tree has at least as many |
| Printer.TextRoundTrip | shared/expression_core.py:323-338 | Rendering any derivation that can be written to text, then lexing and parsing it, gives its tree |
| Printer.ParseExpressionUndoesPrint | shared/expression_core.py:323-338 | For every tree that can be written: parsing its printed text returns it |
| Printer.PrintIsInjective | shared/expression_core.py:323-338 | Two trees with the same printed text are the same tree |
| Dnf.ToDnf | shared/expression_core.py:356-381 | Recursion and product loops compute the specification whose meaning is proved below |
| Dnf.NegateToDnf | shared/expression_core.py:384-407 | The same for the negated form |
| Dnf.CrossLoop | shared/expression_core.py:371-376 | One round of the product loop pairs every group so far with every group of the next child, in order |
| Dnf.CrossHolds | shared/expression_core.py:369-377 | The product of two forms holds exactly when both hold, however leaves are read |
| Dnf.ToggleComplements | shared/expression_core.py:404-407 | Toggling `negated` complements a leaf, missing fields and type mismatches included, if and only if it is no literal |
| Dnf.FormIsPushed | shared/expression_core.py:356-407 | On every tree and for every reading of leaves as true or false, both normal forms mean the tree with the negations pushed down to the leaves and applied there by toggling |
| Dnf.FormMeaning | shared/expression_core.py:356-407 | Read with evaluate_leaf, both normal forms mean the tree (or its negation) with the literals under an odd number of negations flipped |
| Dnf.FlipOddIdentity | shared/expression_core.py:452-453 | Flipping changes nothing if and only if no literal stands under an odd number of negations |
| Dnf.DnfPreservesMeaning | shared/expression_core.py:356-553 | Without such a literal some group has all its terms true exactly when the evaluator says true |
| Dnf.DnfAgreesExactlyWhen | shared/expression_core.py:356-553 | For every tree: the form of each subtree, taken with its polarity, agrees with the evaluator in every context if and only if no literal stands under an odd number of negations |
| Dnf.NotTrueIsMisread | shared/expression_core.py:452-453 | `not true` evaluates to false while its normal form, read with evaluate_leaf, holds in every context |
| DnfSize.SizeBound | shared/expression_core.py:356-407 | The cube of the number of groups is at most 3 to the number of leaves, for both forms |
| DnfSize.SizeBoundAttained | shared/expression_core.py:368-377 | Conjunctions of k three-way disjunctions meet the bound with equality, for every k |
| DnfSize.GroupsAreShaped | shared/expression_core.py:356-407 | No group has more terms than the tree has leaves, and every term is a leaf |
| Translation.Translate | backend/app/services/security_rules.py:670-697 | The loops return the phase and the translated groups of the normal form, or the first refusal, of the specification whose meaning and phase are proved below |
| Translation.TranslateTerms | backend/app/services/security_rules.py:681-689 | One group: every leaf translated in order, or the first refusal |
| TranslationMeaning.LeafReading | backend/app/services/security_rules.py:398-628 | For every leaf: `negated` never decides whether it is translated, and complements what it is translated to exactly when it is not a `!=` or `!~` of a static field |
| TranslationMeaning.FormMentionsLeaves | shared/expression_core.py:356-407 | Every leaf of the tree appears in its normal form, toggled under an odd number of negations, so no refusal is missed |
| TranslationMeaning.LiteralsAreRefused | backend/app/services/security_rules.py:398-712 | A tree with `true` or `false` anywhere in it is refused, whatever the field tables and the database hold |
| TranslationMeaning.AcceptedTranslates | backend/app/services/security_rules.py:670-697 | Acceptance means that every leaf has a translation and the condition is that of the whole normal form |
| TranslationMeaning.TranslationAgreesExactlyWhen | backend/app/services/security_rules.py:398-697 | On every accepted tree: the emitted form of each subtree, taken with its polarity, means what the subtree says of all samples if and only if no `!=` or `!~` comparison of a static field is oddly negated |
| TranslationMeaning.FiresAsEvaluated | backend/app/services/security_rules.py:670-697 | Without such a comparison the condition fires exactly when the evaluator says true, given samples that agree with the context on the leaves |
| TranslationMeaning.DroppedNegationIsMisread | backend/app/services/security_rules.py:545-575 | Every negated `!=` or `!~` comparison of a static field fires as if it were not negated |
| TranslationMeaning.AbsentFieldsCannotAgree | shared/expression_core.py:445-553 | On an absent field no samples give both `=` and `!=` the value the evaluator gives them |
| TranslationPhase.PhaseIsDecidedInOrder | backend/app/services/security_rules.py:699-712 | The phase is decided by the first field from the left that is not a known request field: response if it is a response field, refusal if it is unknown, request if there is none |
| TranslationPhase.AcceptedPhaseExactlyWhen | backend/app/services/security_rules.py:699-712 | An accepted tree is of the response phase if and only if some leaf is on a response field, and of the request phase if and only if all leaves are on request fields |
| TranslationPhase.UnknownFieldsAreRefused | backend/app/services/security_rules.py:699-712 | A tree with a field that is no static one is refused unless a response field comes before it, whatever the lookup of risk rulesets finds |
| TranslatedLeaves.OperatorAcceptedExactlyWhen | backend/app/services/security_rules.py:421-577 | A comparison of a static or ruleset field is translated if and only if its operator applies to its constant |
| TranslatedLeaves.RefusedExactlyWhenNeverTrue | backend/app/services/security_rules.py:421-577 | So the translation refuses exactly the comparisons that the evaluator finds false in every context |
| TranslatedLeaves.LiteralsAcceptedExactlyWhen | backend/app/services/security_rules.py:579-593 | A list of literals is translated if and only if it is not empty and holds texts only, or none |
| TranslatedLeaves.ListAcceptedExactlyWhen | backend/app/services/security_rules.py:595-660 | A list reference is translated if and only if its type is known, the list exists, and a pattern list is asked of a text field |
| TranslatedLeaves.NegativeOperatorsComplement | backend/app/services/security_rules.py:526-577 | `!=` and `!~` are emitted as the complements of `=` and `~` |
| TranslatedLeaves.BooleanComparisons | backend/app/services/security_rules.py:508-516 | `f = true` is emitted like the bare field and `f = false` as its complement |
| TranslatedLeaves.SchemesExclude | backend/app/services/security_rules.py:482-491 | Of the schemes http and https exactly one is emitted as true, and nothing else is accepted |
| TranslatedLeaves.TestsTellApart | backend/app/services/security_rules.py:421-577 | Comparisons of one field share a test only if they have the same constant, and operators that are equal or complements |
| TranslatedLeaves.QueryTests | backend/app/services/security_rules.py:494-505 | Query parameters are compared for equality with a text only, each key and text by its own test |
| TranslatedLeaves.AgreementExtends | backend/app/services/security_rules.py:526-577 | Where a field has a value, samples that agree with the evaluator on `=` and `~` agree on `!=` and `!~` |
| TranslatedLeaves.PositiveLeavesAreTheirTests | backend/app/services/security_rules.py:398-628 | Every leaf without a negation of its own is emitted as its test, uncomplemented |
| TranslatedLeaves.LeafAgrees | backend/app/services/security_rules.py:398-628 | A translated leaf, `!=` and `!~` included, agrees with the evaluator where the field has a value and the tests on its fetch read the field |
| TranslatedLeaves.FiresAsRead | backend/app/services/security_rules.py:670-697 | So the condition of an accepted tree fires exactly when the evaluator says true, if no `!=` or `!~` of a static field is oddly negated |
| Compilation.CompiledTextAgrees | shared/expression_core.py:323-407 | Any text that parses has a normal form of leaves within the bound, which agrees with the evaluator, read with evaluate_leaf, unless a literal is oddly negated |
| Compilation.MisreadTextExists | shared/expression_core.py:323-453 | The exception is reachable from text: the printed `not true` parses, evaluates to false and has a form that holds |
| Compilation.LiteralTextIsRefused | backend/app/services/security_rules.py:670-712 | Any text that parses to a tree with a literal is refused by the translation |
| Compilation.AcceptedTextFiresAsEvaluated | backend/app/services/security_rules.py:670-697 | Any text that parses and is accepted, without an oddly negated `!=` or `!~` of a static field, fires exactly when it evaluates to true, where samples and context agree on the leaves |
| Compilation.NotUnequalTextIsMisread | backend/app/services/security_rules.py:545-560 | The printed `not (f != s)` on a static field parses, is accepted, and fires as `f != s` reads, whatever the samples |
| Expression.EvaluateFrame | shared/expression_core.py:445-553 | Two contexts that resolve the mentioned fields alike give the same evaluation |
| Expression.ResolveFrame | shared/expression_core.py:414-442 | Replacing one dotted context entry affects only fields that name it |
| OperatorLaws.IntegerLaws | shared/expression_core.py:479-497 | On a field with an integer: `>` turns true just above its constant, `<=` is its complement, `>=`, `<`, `=` and `!=` follow from these |
| OperatorLaws.GreaterThanGrows | shared/expression_core.py:488-489 | `>` stays true as the value grows and as the constant shrinks |
| OperatorLaws.TextLaws | shared/expression_core.py:498-513 | `=`, `starts_with`, `ends_with` and `contains` hold exactly when the text is p, p + t, t + p, or t + p + u |
| OperatorLaws.TextComplements | shared/expression_core.py:502-507 | `!=` and `!~` are the complements of `=` and `~` |
| OperatorLaws.AbsentFields | shared/expression_core.py:455-538 | On an absent field every condition is false, and true when negated in place |
| OperatorLaws.AppliesExactlyWhenSatisfiable | shared/expression_core.py:474-515 | An operator applies to a constant if and only if some context makes the comparison true |
| OperatorLaws.BooleanLaws | shared/expression_core.py:474-478 | `f = true` is the bare field, `f = false` its negation |
| OperatorLaws.BareFieldLaws | shared/expression_core.py:455-458 | A bare field is false on False, 0, empty text and the empty dictionary only |
| OperatorLaws.ExistsLaws | shared/expression_core.py:460-463 | `exists` holds of everything but absence and the empty text |
| OperatorLaws.TextMembership | shared/expression_core.py:519-525 | Membership in a list of texts is equality with one of them |
| OperatorLaws.IntegerMembership | shared/expression_core.py:519-525 | On integers and truth values, so is membership in a list of integers |
| OperatorLaws.BooleanMembership | shared/expression_core.py:519-525 | A truth value in a list stands for itself, for 1 or 0, and for its text |
| OperatorLaws.ListMembership | shared/expression_core.py:527-535 | A list reference asks for the value in the list of that type and name |
| OperatorLaws.BracketFieldResolves | shared/expression_core.py:424-430 | base["key"] is the text of the entry under the key, for any base of name characters and any one-line key, and absent without an entry |
| OperatorLaws.DottedPathResolves | shared/expression_core.py:432-442 | A dotted name is looked up part by part in nested dictionaries, to any depth, and is absent where the path breaks off |
| SlidingWindow.Limiter.Check | mcp-gateway/ratelimit.py:54-81 | One uninterrupted check: the verdict, the remaining count and the whole new set with its expiry |
| SlidingWindow.LimiterRefinesReference | mcp-gateway/ratelimit.py:54-81 | After any run with a nondecreasing clock, the pruned and expiring set admits exactly what a limiter that keeps the full history would |
| SlidingWindow.StepTracks | mcp-gateway/ratelimit.py:65-79 | The counted size equals the admissions in the window, and one check keeps set and history in step |
| SlidingWindow.PrunedIsLive | mcp-gateway/ratelimit.py:68-78 | The key's expiry at window + 5 seconds never removes an entry that pruning would keep |
| SlidingWindow.MembersNeverCollide | mcp-gateway/ratelimit.py:75-77 | Uninterrupted checks never write a member that is already in the set, so `zadd` always adds |
| SlidingWindow.WindowGuarantee | mcp-gateway/ratelimit.py:54-81 | Over every run, any interval (t - window, t] holds at most the limit of admissions |
| SlidingWindow.RemainingIsExact | mcp-gateway/ratelimit.py:65-81 | The remaining count that an admitted call reports is exactly how many more calls with its limit are admitted at that moment |
| SlidingWindowRace.OvershootBound | mcp-gateway/ratelimit.py:67-79 | With counting and adding as separate steps, at most k callers between them, any clock and any expiry: set entries plus additions still to come stay within limit + k - 1 |
| SlidingWindowRace.OvershootAttained | mcp-gateway/ratelimit.py:67-79 | For every limit and k some run reaches limit + k - 1 set entries |
| SlidingWindowRace.InterleavedMembersCollide | mcp-gateway/ratelimit.py:75-77 | Two callers that count at the same moment write one member: two admissions, one entry |
| RaceAdmissions.RunIsSound | mcp-gateway/ratelimit.py:67-79 | In every interleaving: expiry removes nothing that pruning would keep, and members of the current moment carry counts below the set's size |
| RaceAdmissions.RunIsCovered | mcp-gateway/ratelimit.py:67-79 | If at most q callers wait with one member, the admissions in any window are at most q per live entry plus the callers in between that have not added |
| RaceAdmissions.AdmissionBound | mcp-gateway/ratelimit.py:54-81 | With at most k callers in between, q of them with one member, any window of any run admits at most q * (limit - 1) + k calls |
| RaceExtremes.MemberExactlyWhen | mcp-gateway/ratelimit.py:67-79 | The set holds a member if and only if it was added and neither pruned nor expired since |
| RaceExtremes.AddCollidesExactlyWhen | mcp-gateway/ratelimit.py:75-77 | An addition finds its member in the set if and only if an earlier approval at the same reading with the same count was added and neither pruned nor expired since |
| RaceExtremes.DistinctReadingsNeverCollide | mcp-gateway/ratelimit.py:75-77 | If no two counts read the same time, every addition makes a new entry |
| RaceExtremes.DistinctReadingsBound | mcp-gateway/ratelimit.py:54-81 | Then any window admits at most limit + k - 1 calls |
| RaceExtremes.DistinctReadingsBoundAttained | mcp-gateway/ratelimit.py:54-81 | For every limit and k some run with distinct readings admits that many |
| RaceExtremes.AnyReadingsBound | mcp-gateway/ratelimit.py:54-81 | Whatever the readings, any window admits at most k * limit calls |
| RaceExtremes.AnyReadingsBoundAttained | mcp-gateway/ratelimit.py:54-81 | For every limit and k some run admits that many |
| SlotLease.SlotStore.AcquireSlot | mcp-gateway/ratelimit.py:143-175 | Uninterrupted, it takes a slot exactly when the counter is below the limit and otherwise leaves the state as it was; with a limit of 0 or less it allows and counts nothing |
| SlotLease.RunAccounted | mcp-gateway/ratelimit.py:143-197 | Over every interleaving, expiry included: counter plus lost counts equals holders plus rejections not yet taken back |
| SlotLease.SlotSafety | mcp-gateway/ratelimit.py:143-197 | If the lease outlives the slots: counter == holders + rejected, holders never exceed the limit, and the counter is 0 when all have finished |
| SlotLease.RejectedExactlyWhenFull | mcp-gateway/ratelimit.py:164-170 | An INCR is rejected if and only if holders and rejections in flight already reach the limit |
| SlotLease.LossIsWhatWasOut | mcp-gateway/ratelimit.py:164-166 | The gap between counter and slots out is, at any time, what was out when the key last expired |
| SlotLease.CounterIsExactExactlyWhen | mcp-gateway/ratelimit.py:143-197 | Over every run: the counter equals holders plus rejections in flight throughout if and only if the key never expires while a slot is out |
| SlotLease.CounterReturnsExactlyWhen | mcp-gateway/protocol.py:768-801 | When all requests have finished the counter is back at 0 if and only if nothing was out when the key last expired |
| SlotLease.LimitCanBeExceededExactlyWhen | mcp-gateway/ratelimit.py:143-175 | From any reachable state, without further expiry: the limit plus what was out at the last expiry can be held at once and never more, so the limit can be exceeded if and only if something was out then |
| SlotLease.ExpiryBreaksTheLimit | mcp-gateway/ratelimit.py:165-166 | A run with limit 1 in which expiry lets two holders in and leaves the counter at -1 |
| StdioCorrelation.StdioProcess.FinishStart | mcp-gateway/stdio_proxy.py:68-88 | The whole new state when a spawn ends, in any state, since two overlapping starts both pass the check |
| StdioCorrelation.StdioProcess.BeginRequest | mcp-gateway/stdio_proxy.py:193-200 | The whole new state: next id, future, table entry and the caller's own id remembered |
| StdioCorrelation.StdioProcess.OnLine | mcp-gateway/stdio_proxy.py:158-163 | A line takes its entry out of the table and completes its future unless that is done already |
| StdioCorrelation.StdioProcess.FailAll | mcp-gateway/stdio_proxy.py:118-121 | The loop fails exactly the pending futures that are not done |
| StdioCorrelation.StdioProcess.OnReaderExit | mcp-gateway/stdio_proxy.py:171-177 | The whole new state when a read loop ends |
| StdioCorrelation.StdioProcess.FinishStop | mcp-gateway/stdio_proxy.py:117-123 | The whole new state when stop() ends |
| StdioCorrelation.RunConsistent | mcp-gateway/stdio_proxy.py:55-219 | Every state of every run, overlapping starts included, keeps fresh ids, an exact table and right replies |
| StdioCorrelation.IdsNeverReused | mcp-gateway/stdio_proxy.py:195-196 | Any two calls of a run, across restarts, have different internal ids |
| StdioCorrelation.CompletedAtMostOnce | mcp-gateway/stdio_proxy.py:160-175 | A done future never changes again, nor does an answered call |
| StdioCorrelation.LineCompletesItsCall | mcp-gateway/stdio_proxy.py:159-163 | A line that carries the id of a waiting call resolves that call's future and no other |
| StdioCorrelation.OtherLinesCompleteNothing | mcp-gateway/stdio_proxy.py:159-166 | A line with another id, or none, leaves the call waiting |
| StdioCorrelation.ResponsesReachTheirCallers | mcp-gateway/stdio_proxy.py:210-213 | A delivered response is the line that carried the call's internal id, under the caller's original id |
| StdioCorrelation.ResolvedCallsAreAnswered | mcp-gateway/stdio_proxy.py:210-219 | A call that wakes at a future with a line is answered with that line, and at a failed one with its reason, under the id its caller gave |
| StdioCorrelation.RequestsAreAnswered | mcp-gateway/stdio_proxy.py:180-213 | From request to answer: a caller that began with an id, whose line arrives and who wakes, gets that line under that id |
| StdioCorrelation.RepliedExactlyWhen | mcp-gateway/stdio_proxy.py:193-219 | Over every run, a call has a reply if and only if a step answered it so: failed write, cancellation, timeout, line or failure |
| StdioCorrelation.WriteErrorExactlyWhen | mcp-gateway/stdio_proxy.py:202-207 | A caller gets the write error if and only if its own write failed, and is abandoned if and only if it was cancelled |
| StdioCorrelation.LatestStepDecides | mcp-gateway/stdio_proxy.py:55-125 | Whether there is a process, whether it runs and whether it is initialized is what the latest step about it says |
| StdioCorrelation.ReadersAreCounted | mcp-gateway/stdio_proxy.py:68-88 | Every start leaves a read loop behind until one exits |
| StdioCorrelation.WaitersArePending | mcp-gateway/stdio_proxy.py:199-219 | Every call that still waits is in the table under its own id |
| StdioCorrelation.NobodyIsLeftWaiting | mcp-gateway/stdio_proxy.py:117-177 | A reader exit or stop() fails every future that is waited for, each with its own reason, and no call waits on |
| StdioCorrelation.AlwaysReady | mcp-gateway/stdio_proxy.py:140-219 | In every reachable state a live reader can take any line, a request can begin exactly when there is a process, and a call in each phase can go on as that phase does |
| StableSort.SortedFirstMatchIsBest | mcp-gateway/policy.py:89-125 | The first match in a stably sorted list is the match with the least key, and among those the earliest |
| StableSort.SortedIsUnique | backend/app/services/cache_rules.py:141-141 | With distinct keys the sorted list depends only on which elements there are |
| CacheRules.ActiveRulesIgnoreOrder | backend/app/services/cache_rules.py:136-141 | With distinct ids the evaluation order does not depend on the order in which rules are stored |
| CacheRules.EmitHaproxyCacheRules | backend/app/services/cache_rules.py:265-328 | The loops emit the ACLs, if they are asked for, the guarded lines and the remarks, and the flag is true exactly when some request rule caches |
| CacheRules.EmitDiskUseServer | backend/app/services/cache_rules.py:444-500 | The loop emits the guarded use-server lines of the disk tier and returns their conditions |
| CacheRules.EmitVclDecision | backend/app/services/cache_rules.py:205-223 | The emitted lines form the if / else-if chain, with the comment in place of an empty chain |
| CacheRules.GuardsReproduceFirstMatch | backend/app/services/cache_rules.py:265-328 | For every rule list and truth assignment: some line fires if and only if the first matching request rule of the tier caches and the extra condition holds |
| CacheRules.VclReproducesFirstMatch | backend/app/services/cache_rules.py:205-223 | Executing the chain line by line ends in "cache" if and only if the first matching active rule says so |
| CacheRules.TargetsAgree | backend/app/services/cache_rules.py:205-500 | On one tier of request-phase rules the guarded lines and the chain decide alike |
| RulePrecedence.GuardsFollowPriority | backend/app/services/cache_rules.py:136-328 | From the stored rules: let rule i be enabled, of the tier, about the request and matching, with no other such rule of smaller priority, or of equal priority and smaller id. A guarded line fires if and only if rule i caches (and the extra condition holds); without such a rule none fires |
| RulePrecedence.VclFollowsPriority | backend/app/services/cache_rules.py:136-223 | The same for the VCL chain, over all enabled rules |
| RulePrecedence.StoreFollowsPriority | backend/app/services/cache_rules.py:136-377 | The same for the cache-store condition, over the enabled memory rules about the response, wherever it does not misfire |
| RulePrecedence.ResponseRulesExactlyWhen | backend/app/services/cache_rules.py:344-350 | There is a condition if and only if an enabled memory rule is about the response |
| RulePrecedence.SomeRuleDecides | backend/app/services/cache_rules.py:136-141 | Where some rule applies, exactly one decides |
| CacheStore.EmitCacheStoreCondition | backend/app/services/cache_rules.py:331-377 | The loop builds the text of the condition, concatenation taken literally |
| CacheStore.StoreReproducesFirstMatchExactlyWhen | backend/app/services/cache_rules.py:352-377 | For every rule list and all truth values of the criteria: the condition decides as the first match if and only if no misfire, that is, not when the first match is a bypass and a later cache rule meets a criterion other than its last; in a misfire the response is stored |
| CacheStore.EveryResponseExactlyWhen | backend/app/services/cache_rules.py:352-433 | The condition is right for every response, with one status and one content type, if and only if none of the codes 100 to 599 misfires with no content type or with one that the rules name |
| CacheStore.ConfiguredStoreExactlyWhen | backend/app/services/cache_rules.py:344-433 | The same for the response rules of any stored configuration |
| CacheStore.HtmlPageIsStored | backend/app/services/cache_rules.py:352-433 | Bypass `text/html`, then cache `200,301`: an HTML page with status 200 is stored |
| CacheStore.StatusListIsHarmless | backend/app/services/cache_rules.py:352-433 | Bypass `404`, then cache `200,301`: every response is decided as the first match says |
| RulePrecedence.ContentTypeMatches | backend/app/services/cache_rules.py:408-421 | A content type pattern matches the types that begin with it, image/* those that begin with image/ |
| RulePrecedence.StatusListMatches | backend/app/services/cache_rules.py:423-440 | A comma list matches the responses that one of its codes or classes covers |
| RulePrecedence.ClassesAgreeExactlyWhen | backend/app/services/cache_rules.py:185-203 | A class such as 2xx means the same in the cache-store condition and in VCL if and only if it is 5xx |
| RulePrecedence.ErrorsAreStored | backend/app/services/cache_rules.py:430-440 | With the single rule that caches 2xx, every response from 200 on is stored, errors included |
| Policy.PolicyEngine.LoadPolicies | mcp-gateway/policy.py:54-91 | Disabled and unparsable policies are dropped and the rest sorted stably by priority |
| Policy.PolicyEngine.EvaluatePolicy | mcp-gateway/policy.py:99-131 | The search loop returns the decision of the loaded list, with its two defaults |
| Policy.PolicyEngine.FilterList | mcp-gateway/policy.py:199-277 | The result is the sublist, in order, of the items whose own list-time decision shows them |
| Policy.LeastPriorityThenPositionWins | mcp-gateway/policy.py:54-125 | The raw bundle is decided by the matching policy of least priority, earliest in the bundle |
| Policy.NoMatchDenies | mcp-gateway/policy.py:105-131 | No match denies, and no policies at all allow |
| Policy.VisibleExactlyWhenNotDenied | mcp-gateway/policy.py:222-224 | Listing and calling judge a result alike if and only if its action is one of the four legal ones |
| Policy.ResourcesAndPromptsListedIffCallable | mcp-gateway/policy.py:157-277 | With legal actions a resource or prompt is listed if and only if the call-time check does not deny it |
| Policy.DecisionIgnoresArgs | mcp-gateway/expression.py:51-88 | Without `mcp.arg` in any expression the decision is the same for all arguments |
| Policy.ToolsListedIffCallable | mcp-gateway/policy.py:134-225 | With legal actions and no `mcp.arg`, a tool is listed if and only if a call with any arguments is not denied |
| Policy.ArgsCanHideCallableTools | mcp-gateway/policy.py:210-224 | A bundle over `mcp.arg` that hides a tool which is callable with some arguments |
| PolicyLaws.DecidingPolicyWins | mcp-gateway/policy.py:54-125 | In the bundle's own fields: the enabled policy whose expression is true, with the least priority and then the earliest, gives its action, its name and the two skip flags |
| PolicyLaws.UndecidedBundles | mcp-gateway/policy.py:99-131 | Without such a policy a bundle denies, and an empty bundle allows |
| PolicyLaws.DisabledPoliciesDoNotMatter | mcp-gateway/policy.py:61-69 | Taking out a disabled policy changes no decision, unless it was the only one: that turns deny into allow |
| PolicyLaws.RequestFields | mcp-gateway/expression.py:50-88 | Which part of the request each field name stands for |
| PolicyLaws.CallerFields | mcp-gateway/expression.py:50-88 | Which part of the caller each field name stands for |
| PolicyLaws.KeyedFields | mcp-gateway/expression.py:50-88 | mcp.arg["key"] and auth.claim["key"] are the texts of the arguments and claims, for any one-line key |
| PolicyLaws.DottedClaims | mcp-gateway/expression.py:79-83 | The claims sub, iss and aud by their dotted names, empty where they are missing |
| PolicyLaws.WrittenPolicyDecides | mcp-gateway/policy.py:54-131 | A policy written down as text decides as its expression evaluates, and denies where it does not apply |
| PolicyLaws.ArgumentThreshold | mcp-gateway/policy.py:54-131 | The written policy `mcp.arg["key"] > k` allows exactly the calls whose argument is read as an integer above k |
| Percent.DecodeUndoesEncode | mcp-gateway/protocol.py:226-244 | UTF-8 decoding undoes encoding on every string |
| Percent.UnquoteUndoesQuote | mcp-gateway/protocol.py:226-244 | Percent-decoding undoes percent-encoding on every string, non-ASCII ones included |
| Percent.QuoteIsWellQuoted | mcp-gateway/protocol.py:226-244 | Quoted text is unreserved characters and percent triplets with upper-case digits, and nothing else |
| Percent.QuoteIsIdentityExactlyWhen | mcp-gateway/protocol.py:226-244 | Quoting leaves a text as it is if and only if all its characters are unreserved |
| Percent.UnquoteKeepsPlainText | mcp-gateway/protocol.py:226-244 | Unquoting leaves a text without percent signs as it is |
| Namespacing.PrefixListItems | mcp-gateway/protocol.py:247-258 | The loop renames every entry, in order, and records server and original name in its metadata |
| Namespacing.SplitUndoesPrefixExactlyWhen | mcp-gateway/protocol.py:221-223 | Splitting at the first `__` undoes prefixing, for every name, if and only if the namespace has no `__` and does not end in `_` |
| Namespacing.PrefixedNamesAreInjective | mcp-gateway/protocol.py:221-223 | Under such namespaces different tools never get the same prefixed name |
| Namespacing.UnwrapUndoesWrapExactlyWhen | mcp-gateway/protocol.py:226-244 | Unwrapping undoes wrapping, for every URI, if and only if the namespace has no slash |
| Namespacing.WrappedUrisAreInjective | mcp-gateway/protocol.py:226-244 | Different resources of slash-free namespaces get different wrapped URIs |
| Namespacing.SplitExactlyWhen | mcp-gateway/protocol.py:622-637 | A name is split into namespace and rest if and only if it is that prefix of that rest, the namespace without two underscores in a row or one at its end; it is refused if and only if it has no two in a row |
| Namespacing.UnwrapExactlyWhen | mcp-gateway/protocol.py:231-244 | A URI of the form mcp://namespace/rest is unwrapped into them, and every other one is left as it is |
| Namespacing.EntriesRecordTheirOrigin | mcp-gateway/protocol.py:247-258 | Prefixed entries record server and original name, and keep all other metadata |
| Namespacing.RoutingUndoesListing | mcp-gateway/protocol.py:622-637 | A listed tool, prompt or resource is routed back to its namespace and original name under exactly those conditions |
| Gateway.ListedNameIsRouted | mcp-gateway/protocol.py:465-694 | The name or URI under which an entry is listed is routed to its namespace and original name |
| Gateway.ListedExactlyWhenForwarded | mcp-gateway/protocol.py:465-694 | From end to end: an entry is listed if and only if a call of its listed name is forwarded to its own server under its original name, and otherwise the call is forwarded nowhere |
| RefClosure.LastSegmentOfReference | mcp-server/tools.py:164-168 | A component reference of any slash-free name resolves to that name |
| RefClosure.NameSet.constructor | mcp-server/tools.py:183-183 | The set that collection adds to starts empty |
| RefClosure.CollectComponentRefs | mcp-server/tools.py:164-173 | The names added to the passed-in set are exactly those referred to anywhere in the node |
| RefClosure.EveryReferenceIsCollected | mcp-server/tools.py:164-173 | Every reference to a component is collected, at any place in objects and lists |
| RefClosure.CollectedNameStands | mcp-server/tools.py:164-173 | Nothing else is: each collected name is referred to at some place |
| RefClosure.ResolveRefs | mcp-server/tools.py:182-195 | The worklist terminates with exactly the names at the end of some chain of references from the schema, whatever order the sets are listed in |
| RefClosure.StandaloneSchema | mcp-server/tools.py:176-203 | The rewritten schema, with `$defs` of exactly the reachable components, each rewritten, if there are any |
| RefClosure.RewriteMovesNames | mcp-server/tools.py:149-161 | Rewriting leaves no component reference and turns each into a definition reference of the same name, keeping those that were there |
| RefClosure.RewriteChangesReferencesOnly | mcp-server/tools.py:149-161 | Rewriting keeps keys, order, lengths and every value that is no component reference |
| RefClosure.DefinitionsAreRewrittenComponents | mcp-server/tools.py:197-202 | Looking up a name finds the rewritten component if it is reachable, and nothing otherwise |
| RefClosure.NoComponentRefLeftExactlyWhen | mcp-server/tools.py:149-203 | No component reference is left if and only if no reachable component is itself named `$ref` and holds one |
| RefClosure.CompleteExactlyWhen | mcp-server/tools.py:191-202 | For any schema and components: every rewritten reference to a component finds its definition if and only if whatever a reachable list component refers to is reachable some other way |
| RefClosure.SelfContainedExactlyWhen | mcp-server/tools.py:176-203 | If nothing used `#/$defs/` before and no component is named `$ref`, the same condition decides for every definition reference of the result |
| RefClosure.OwnDefinitionSurvivesExactlyWhen | mcp-server/tools.py:198-202 | A schema's own definition is still found if and only if the schema refers to no component directly |
| SchemaLearning.MergeSchemas | backend/app/services/api_armor_schemas.py:338-373 | The loop over copied properties computes the pointwise merge, in whatever order the keys come |
| SchemaLearning.LearnedSchema.Observe | backend/app/services/api_armor_schemas.py:257-308 | The stored row is always the fold of infer and merge over the whole history, with its sample count |
| SchemaCoverage.InferAcceptsLike | backend/app/services/api_armor_schemas.py:311-335 | What an inferred schema accepts, said of sample and value alone |
| SchemaCoverage.LearnObjects | backend/app/services/api_armor_schemas.py:350-362 | Learned properties are the keys ever seen, each learned from just the values under it; required keys are those of every body |
| SchemaCoverage.LearnedBoundIsReached | backend/app/services/api_armor_schemas.py:363-371 | A learned text bound is tight: no observed text is longer, and one is as long |
| SchemaCoverage.MergedTextBounds | backend/app/services/api_armor_schemas.py:363-371 | Merging text schemas takes bounds of the two, and accepts what either accepts |
| SchemaCoverage.MergedTypes | backend/app/services/api_armor_schemas.py:343-346 | Two different types become the pair of them, and a schema without a type makes the merged one accept everything |
| SchemaCoverage.EarlyConflictIsFatal | backend/app/services/api_armor_schemas.py:343-346 | A type conflict before the last observation leaves a schema that accepts no value, whatever follows |
| SchemaCoverage.HistoryIsCoveredExactlyWhen | backend/app/services/api_armor_schemas.py:257-373 | For every history: all bodies are accepted if and only if each path of keys saw one type with arrays like its first, or a second type only in its last observation |
| SchemaCoverage.TypeStableHistoryIsCovered | backend/app/services/api_armor_schemas.py:257-373 | Array-free bodies in which no path is seen with two types are all accepted |
| SchemaCoverage.CoverageIsNotMonotone | backend/app/services/api_armor_schemas.py:343-346 | A history that is covered, and one more body after which nothing is accepted |
| DlpScan.ScanText | shared/dlp_core.py:154-199 | Text unchanged if some rule for the direction blocks it, else the rule-ordered substitutions; one hit per firing rule up to the first block |
| DlpScan.Walker.Walk | shared/dlp_core.py:209-227 | The stateful walk finds the hits of the string values in order up to the first block, and rewrites every string if there is none |
| DlpScan.ScanJsonStrings | shared/dlp_core.py:202-232 | The original value if any string value is blocked, else every string redacted in place |
| DlpScan.ScanAllText | shared/dlp_core.py:235-257 | The serialized text is scanned, and the original returned when it is blocked, unchanged or no longer parses |
| DlpScan.ScanMessage | shared/dlp_core.py:260-324 | Verdict, data on every branch and hits in terms of all the rules, although only those of the direction are passed on; blocked messages are never modified |
| DlpScan.BlockReportedExactlyWhen | shared/dlp_core.py:217-231 | A block is among the hits if and only if some text, cut at the limit, matches a block rule for the direction |
| DlpScan.EarlyExitRefinesExhaustive | shared/dlp_core.py:212-232 | Compared with scanning every string: the same verdict, the same hits when nothing blocks, otherwise a prefix of them |
| DlpScan.OnlyStringsChange | shared/dlp_core.py:216-227 | Keys, lengths and non-string leaves stay, and the strings are redacted one by one in place |
| DlpScan.FilteringChangesNothing | shared/dlp_core.py:272-281 | Dropping the rules of the other direction first changes no verdict, redaction or hit |
| DlpScan.OnlyTheCutDecides | shared/dlp_core.py:165-171 | Texts that agree up to the limit have the same verdict and hits |
| DlpScan.CleanExactlyWhen | shared/dlp_core.py:167-199 | No hits if and only if no rule with a known action fires, and then the text is returned as it was |
| DlpRules.BlockedExactlyWhen | shared/dlp_core.py:154-199 | A text is blocked if and only if a block rule for its direction, or for both, finds something in the first limit characters |
| DlpRules.OneRuleWrites | shared/dlp_core.py:179-195 | A text that one redact or tokenize rule alone rewrites has that rule's matches replaced by [REDACTED], or by the tokens for them |
| DlpRules.TwoRulesWriteInOrder | shared/dlp_core.py:179-195 | Of two rules that rewrite, the second works on what the first left |
| DlpRules.HitsOfOneRule | shared/dlp_core.py:173-195 | One rule gives at most one hit, with its own name, detector and action and the number of its matches |
| DlpRules.SilentRules | shared/dlp_core.py:167-199 | Rules for the other direction, of unknown action or without a match leave no trace |
| DlpRules.EveryStringIsScanned | shared/dlp_core.py:209-227 | Every string value, at any place in lists and objects, is scanned |
| DlpRules.ScannedStandsSomewhere | shared/dlp_core.py:209-227 | Nothing else is scanned: each scanned text stands at some place |
| DlpRules.ValueBlockedExactlyWhen | shared/dlp_core.py:202-232 | A value is blocked if and only if the string at some place in it is |
| DlpRules.RedactedInPlace | shared/dlp_core.py:209-227 | Redaction leaves each string at its place, redacted by itself |
| DlpRules.ScannedAsTextExactlyWhen | shared/dlp_core.py:278-280 | A message is scanned as one text if and only if some rule for its direction asks for that |
| CacheMetrics.BucketContains | backend/app/services/cache_metrics.py:175-178 | A sample lies within the step that starts at its bucket |
| MetricsRows.BucketExactlyWhen | backend/app/services/cache_metrics.py:175-178 | A multiple of the step is the bucket of exactly the times from there to the next one |
| MetricsRows.SameBucketExactlyWhen | backend/app/services/cache_metrics.py:175-178 | Two times share a bucket if and only if no multiple of the step lies after one and not after the other |
| CacheMetrics.AddBackend | backend/app/services/cache_metrics.py:288-322 | The loop deposits one delta per in-window sample that has a predecessor, into that sample's bucket |
| CacheMetrics.AddDisk | backend/app/services/cache_metrics.py:365-405 | The same for the global disk series, whose first sample deposits its object count only |
| CacheMetrics.Deduplicate | backend/app/services/cache_metrics.py:327-363 | One reading per second, the componentwise maximum of its rows |
| CacheMetrics.GroupByBackend | backend/app/services/cache_metrics.py:263-265 | Every backend's samples in order, backends in order of first appearance |
| CacheMetrics.GetCacheMetrics | backend/app/services/cache_metrics.py:205-470 | Rows list every bucket once in time order, and the totals are those of all deposits |
| CacheMetrics.BucketsHoldEveryDeposit | backend/app/services/cache_metrics.py:449-470 | Summing buckets loses and repeats no deposit |
| MetricsRows.RowsAreSteps | backend/app/services/cache_metrics.py:205-470 | Rows start at multiples of the step, at least a step apart; there is one for each step in which something was sampled, and it holds the deltas of exactly the samples from its start to the next step |
| MetricsRows.BucketHoldsItsStep | backend/app/services/cache_metrics.py:288-405 | The same, bucket by bucket |
| MetricsRows.ObjectsAreTheLargest | backend/app/services/cache_metrics.py:404-404 | The object count of a step is the largest sampled in it |
| MetricsRows.SeriesHoldsOwnSamples | backend/app/services/cache_metrics.py:263-265 | A backend's series holds its own samples, each as often as it was sampled |
| MetricsRows.BackendsAreThoseSampled | backend/app/services/cache_metrics.py:263-265 | The backends are those sampled, each once |
| MetricsRows.SecondExactlyWhen | backend/app/services/cache_metrics.py:340-340 | Rows are joined if and only if they fall into one second |
| MetricsRows.DiskReadingsAreSeconds | backend/app/services/cache_metrics.py:327-366 | The disk series has one reading for each second with disk counters, in time order |
| MetricsRows.SourcesAreSeparate | backend/app/services/cache_metrics.py:311-404 | HAProxy samples feed no disk counts, disk samples no HAProxy counts, and a first disk sample its object count only |
| MetricsRows.CompressionSaves | backend/app/services/cache_metrics.py:303-311 | Without a restart, bytes saved by compression are what went in less what came out, never negative |
| MetricsRows.DiskSaves | backend/app/services/cache_metrics.py:375-402 | Without a restart, bytes served from disk are what clients got less what backends sent, and none while nothing is looked up |
| MetricsConservation.GainTelescopes | backend/app/services/cache_metrics.py:294-322 | A monotone series gains its last reading minus the last reading before the window (or its first) |
| MetricsConservation.GainNeverExceedsEvents | backend/app/services/cache_metrics.py:195-202 | With resets the count never exceeds the true events, and equals them if and only if every reset shows as a drop and lost nothing |
| MetricsConservation.QueryCountsGains | backend/app/services/cache_metrics.py:205-470 | The totals are the gains of the counters in the window, independent of the bucket width |
| MetricsConservation.QueryConservesCounters | backend/app/services/cache_metrics.py:205-470 | Without resets an HAProxy total is, summed over the backends, last reading minus baseline reading |
| MetricsConservation.QueryConservesDisk | backend/app/services/cache_metrics.py:324-470 | Without resets the disk totals are last reading minus baseline of the deduplicated series |
| MetricsConservation.RepeatedRowsDoNotMatter | backend/app/services/cache_metrics.py:324-363 | The disk series depends only on what was sampled in each second, not on how many rows repeat it or in which order |

## Left out

- Lexer.Tokenize: letters, digits, white space and case are those of ASCII, because Python's Unicode classes are tables; the same holds for `\w` in bracket fields.
- Lexer.NextToken: ASCII classes, and an error is its position only.
- Lexer.NumberToken: ASCII digits.
- Lexer.AsNumberToken: ASCII digits.
- Lexer.WordToken: ASCII letters and case.
- Lexer.ListRefToken: ASCII names, and an error is its position only.
- TranslationMeaning.TranslationAgreesExactlyWhen: the tests in braces are opaque, HTTPS as `{ ssl_fc }` or its complement among them, and so are the field tables and the list database; it is stated for each subtree because a neighbour can mask a wrong part.
- TranslatedLeaves.FiresAsRead: that HAProxy's tests read a field as the evaluator does is its premise (for example, `-m found` and `exists` differ on empty values); absent fields are the subject of AbsentFieldsCannotAgree.
- Expression.EvaluateFrame: `int()`, `str()` and `re.search` are arbitrary total functions, so exceptions other than the ones the evaluator catches (bad regexes, infinite floats) are not modelled; lists are total membership functions, and no list resolver is present in policy contexts.
- CacheRules.GuardsReproduceFirstMatch: a request criterion is an arbitrary truth value per rule id, so how paths, extensions, methods and query strings are rendered is not compared between the targets.
- SlidingWindow.WindowGuarantee: the clock does not run backwards and one uninterrupted check is one step; racing checks are the subject of SlidingWindowRace, RaceAdmissions and RaceExtremes.
- RaceAdmissions.AdmissionBound: the clock does not run backwards over the commands of one key.
- CacheStore.EmitCacheStoreCondition: the text is read with `&&` binding tighter than `||`; content-type patterns contain no braces, a response has one content type, and whether HAProxy accepts the text is not modelled.
- SlotLease.SlotSafety: in runs the limit is positive; with a limit of 0 the source takes no slot and the handler still decrements.
- StdioCorrelation.RunConsistent: line ids are integers; other JSON ids that Python would look up as an equal key (1.0, true) are not modelled, and cancelling a caller is the step Abandons, which leaves its table entry behind as the source does.
- Policy.PolicyEngine.EvaluatePolicy: exceptions during evaluation, log flags and missing dictionary keys of a policy are not modelled.
- Gateway.ListedExactlyWhenForwarded: looking up servers, team checks and the prompts of skills, which no policy judges, are not modelled.
- Percent.UnquoteUndoesQuote: on bytes that are not valid UTF-8 the model writes one U+FFFD per byte, where Python may write fewer; such bytes never come from quoting.
- Namespacing.PrefixListItems: an entry is its name and metadata as values; the source shares the metadata dictionary with the upstream entry.
- RefClosure.StandaloneSchema: objects are sequences of entries with Python's key order; updating a key in place is modelled on values.
- SchemaLearning.LearnedSchema.Observe: schemas edited by hand between observations are not modelled, and a schema with a list inside its type list is taken to validate nothing.
- DlpScan.ScanText: a regex is its match list and its substitution, the tokenizer a function; compiling rules and the heuristic against slow patterns are not modelled.
- CacheMetrics.GetCacheMetrics: the rows come in the order of the query; the choice of a default step, rates, percentages and the two Lua counters (the disk code again with other names) are not modelled, and times are whole microseconds.
- MetricsConservation.QueryConservesCounters: a failed sample is stored as an empty dictionary and reads as zero, that is as a reset; it is covered by GainNeverExceedsEvents only.
- Valkey failures with their fail-open and fail-closed settings, HTTP, subprocesses, SQL and files: replaced by abstract state and atomic steps.
- Handlers, request schemas, database models, the frontend and deployment: plumbing around the modelled functions.
- `shared/guardrails_core.py`: the same walker as the data-loss scan.
- Circuit breaker, authentication lockout, alert cooldown, user cache, leader lease and deploy change mapping are not modelled.
