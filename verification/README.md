# Rule matcher of the YAML config parser, in Dafny

This project models the rule-matching core of the PHP class `ConfigDataParser`.
That core is `searchMatches` together with its private helper `areCoincidences`.

The input is a configuration document that has already been parsed into a
generic tree, plus query parameters. The document holds an ordered list of
`links`. Each link has a compound condition `k` and a value `v`. The document
may also have a fallback `def`.

The matcher walks the links in document order. For each link it AND-combines
the per-key conditions of `k`, stopping at the first one that fails. A
condition can be:

- a scalar, matched by equality;
- a list, matched by membership or intersection;
- a `from`/`to` range with inclusive bounds;
- a `NOT` wrapper, one level deep.

The result is one of:

- the first match;
- every match, in document order;
- the `def` fallback;
- null.

With `withKeys`, the result holds whole links instead of their `v` values.

The model is functional. The PHP loop is also written out as a method and
proved to compute the same thing.

- `values.dfy` (`Values`): the tree as PHP sees it. There is one `Arr`
  constructor holding ordered `(key, value)` entries, with integer or string
  keys. A YAML sequence is the array with keys `0, 1, …`. The module also
  defines `isset`, `?? null`, `foreach`, the values of an array, and PHP
  `empty()`.
- `conditions.dfy` (`Conditions`): `areCoincidences` (`Coincides`), and the
  one-level `NOT` unwrapping its caller performs (`ConditionHolds`).
- `matcher.dfy` (`Matcher`): the verdict of one link; the scan over the links
  stated as "first decisive link" and "filter of matching links"; the `def`
  fallback; and `SearchMatches`, with lemmas for each mode.
- `matcher_loop.dfy` (`MatcherLoop`): the loops of lines 79–130, proved equal
  to `SearchMatches`.
- `scenarios.dfy` (`Scenarios`): worked examples. They cover the `env`
  document with a fallback, the range `{from: 10, to: 20}`, list conditions,
  and a bare key given as the parameters.

The result is a discriminated `Answer = Nothing | One(v) | Many(vs)` instead of
PHP's mixed value. `AsPhp` maps an answer back to the PHP return value.

The source file declares `strict_types=1`, and `areCoincidences` takes
`string $key`. So an integer key inside a link's `k` throws a `TypeError` when
evaluation reaches it. The model returns this as `Outcome.Threw(key)`.

## Model

| member | source | states |
|---|---|---|
| Values.Lookup | src/ConfigDataParser.php:76 | `$a[$k] ?? null`: a key that is present gives the value of its first entry, a non-null result is a value stored under that key, and an absent key gives null |
| Conditions.CoincidesMeaning | src/ConfigDataParser.php:139-160 | a missing or null parameter never coincides; a range checks `from` and/or `to` inclusively (both when both are set); a list condition asks for membership of a scalar parameter or a shared value with a list parameter; a scalar condition asks for membership in a list parameter or strict equality with a scalar one |
| Conditions.NotInverts | src/ConfigDataParser.php:90-100 | for a non-null `c`, `{NOT: c}` holds exactly when `c` does not coincide (`{NOT: null}` fails the `isset` and is read as a one-entry list condition) |
| Conditions.NotHoldsOnMissingKey | src/ConfigDataParser.php:92-100 | the inversion also applies to the missing-parameter `false`, so a `NOT` condition on an absent key matches |
| Conditions.DoubleNotActsAsNot | src/ConfigDataParser.php:92-95 | negation unwraps only one level: `{NOT: {NOT: c}}` with a scalar `c` behaves like `{NOT: c}`, not like `c` |
| Matcher.AsPhp | src/ConfigDataParser.php:108-130 | "nothing" is PHP null, a single answer is that value itself, and a list answer is the PHP list with keys `0..n-1` holding exactly its items in order |
| Matcher.MissingValueLooksLikeNothing | src/ConfigDataParser.php:110 | a matching link without `v` and no match at all are different answers that PHP returns as the same null |
| Matcher.ConditionsVerdictMeaning | src/ConfigDataParser.php:87-106 | a link's conditions match exactly when every `(key, condition)` pair holds; evaluation throws exactly when it reaches an integer key with every earlier pair held, and it reports that key |
| Matcher.LinkVerdictMeaning | src/ConfigDataParser.php:83-106 | a link without `k` is skipped; otherwise it matches exactly when every pair holds, and throws exactly when an integer key is reached |
| Matcher.EmptyConditionsMatch | src/ConfigDataParser.php:87-89 | a link whose `k` iterates nothing matches, because `$found` starts true |
| Matcher.FirstDecisive | src/ConfigDataParser.php:82-111 | first-match mode stops at the first link that matches or throws: every earlier link failed to match, and that link did not fail |
| Matcher.FirstRaising | src/ConfigDataParser.php:82-120 | collect-all mode throws at the first link that throws: no earlier link throws |
| Matcher.MatchIndices | src/ConfigDataParser.php:113-118 | the positions collected are strictly increasing (document order), each is a match, and every match is among them |
| Matcher.MatchIndicesCount | src/ConfigDataParser.php:113-118 | one position is collected per matching link |
| Matcher.GatherMeaning | src/ConfigDataParser.php:113-118 | the k-th collected item is the contribution of the k-th matching link |
| Matcher.GatherNoMatch | src/ConfigDataParser.php:113-122 | with no match nothing is collected, so `$matches` stays null |
| Matcher.Collected | src/ConfigDataParser.php:113-119 | the collected list has one entry per matching link, and entry k is `v` (or the whole link) of the k-th matching link |
| Matcher.SearchMatches | src/ConfigDataParser.php:69-131 | empty parameters give null for every document; scalar parameters give the direct top-level lookup, or null when it is absent; collect-all mode never returns an empty list; first-match mode never gives a `Many` answer (though a `v` or `def` that is itself a sequence comes back as a PHP list), and collect-all mode on a parameter array never gives a `One` answer |
| Matcher.FirstMatchWins | src/ConfigDataParser.php:108-111 | in first-match mode, when link i matches and all earlier links fail, the result is `v` of link i, or link i itself with `withKeys` |
| Matcher.FirstMatchIgnoresLater | src/ConfigDataParser.php:108-111 | in first-match mode, once a prefix of the links decides the result, links appended after it change nothing |
| Matcher.CollectAllMatches | src/ConfigDataParser.php:113-119 | in collect-all mode, when some link matches and none throws, the result lists every matching link's contribution in document order, as many as there are matching links |
| Matcher.NothingMatchedFallsBack | src/ConfigDataParser.php:122-130 | when no link matches: with `def` unset the result is null; otherwise it is `def` (first-match) or `[def]` (collect-all), wrapped as `{k: 'def', v: def}` with `withKeys` |
| Matcher.IntegerKeyThrows | src/ConfigDataParser.php:89-97 | an integer condition key reached after only failing links throws the TypeError in either mode |
| MatcherLoop.EvaluateLink | src/ConfigDataParser.php:83-106 | the inner `foreach` with `$invert` and `break` computes the link's verdict |
| MatcherLoop.GatherStep | src/ConfigDataParser.php:113-118 | appending one link extends the collected list by its contribution exactly when it matches |
| MatcherLoop.WalkLinks | src/ConfigDataParser.php:79-130 | the outer loop, with `$matches` starting null, returns what the functional scan decides from the links' verdicts |
| MatcherLoop.MatchLinksLoop | src/ConfigDataParser.php:79-130 | the outer loop computes the functional rule matching over the links |
| MatcherLoop.SearchMatchesLoop | src/ConfigDataParser.php:69-131 | the whole method, written as the PHP walks it, equals `SearchMatches` |
| Scenarios.EnvLinkVerdict | src/ConfigDataParser.php:89-106 | the link `{k: {env: e}}` matches the parameters `{env: p}` exactly when `e` is `p` |
| Scenarios.EnvProdScenario | src/ConfigDataParser.php:108-111 | `{env: prod}` selects `A` from the `env` document |
| Scenarios.EnvQaScenario | src/ConfigDataParser.php:122-124 | `{env: qa}` matches nothing and returns `def`, which is `C` |
| Scenarios.EnvDevScenario | src/ConfigDataParser.php:113-119 | `{env: dev}` in collect-all mode returns `[B]` |
| Scenarios.DirectLookupScenario | src/ConfigDataParser.php:75-77 | the bare key `def` returns the document's `def` in either mode |
| Scenarios.RangeScenario | src/ConfigDataParser.php:146-147 | with `{from: 10, to: 20}`, 9 fails, 10 and 20 match, and 21 fails |
| Scenarios.ListScenario | src/ConfigDataParser.php:153-155 | `[a, b, c]` matches the scalar `b` and the list `[b, z]`, but not the list `[x, z]` |

## Left out

- `parseConfigYamlFile` and `findByParams` (lines 30-60) are left out. They probe the file system for `.yaml` and `.yml`, call the Symfony YAML parser, and throw `LogicException`. The model takes the parsed tree as input. The constructor and `configDir` go with them.
- Conditions.Coincides: PHP's loose comparisons are replaced by typed ones. `>=` and `<=` in ranges hold only between two integers; strings and mixed kinds never satisfy a bound, whereas PHP compares them. `in_array` uses structural equality instead of `==`. `array_intersect` compares values structurally instead of by string cast, so for example `1` and `"1"` do not match here. Conditions.CoincidesMeaning states this restricted meaning.
- Floating-point values are not modelled. The tree has null, booleans, integers, strings and arrays.
- PHP turns decimal-integer string keys such as `"5"` into integer keys. The model does not. Such keys are expected to be given as `IntKey` already.
- PHP arrays cannot hold a key twice. The model's entry lists can, and a lookup reads the first entry with the key.
- Notices and warnings are not modelled: a matching link without `v` (read as null), and `foreach` over a scalar `links` or `k` (iterates nothing).
- `searchMatches` declares `array $cfgData`, so `SearchMatches` requires an array document. The TypeError PHP raises for anything else is not modelled.
- Nested `NOT` is not generalised. Only one level is unwrapped, as in the source, and `DoubleNotActsAsNot` records the consequence.
