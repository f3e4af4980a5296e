# Verified model of systemd-creds-openbao

systemd-creds-openbao serves systemd credentials from OpenBao. A rule list decides which unit may
read which secret, a generated policy tells OpenBao what the daemon needs, a cache covers outages,
and a reload swaps configuration and token under requests in flight. This project models those
four parts, and the retry and response limits they rest on, and proves what they promise.

`dafny verify dfyconfig.toml` checks all of it.

## Rules and the generated policy

`Text`, `Glob` and `Template` hold the string operations: `path.Match` as the relation its
documentation describes, splitting and joining, single-pass replacement. `Config` has placeholders,
pinning and validation, `Resolver` the plan of a request, `Policy` the grants. Strings are sequences
of code points. `GlobForms` says what the usual forms of glob match, `Validation` which rules are
accepted, `NormalPaths` which paths a server's normalization leaves alone, which are those that are
read.

The policy splits a rule's path and expands each segment with what its globs pin. The resolver
expands the whole path with what the request has. `Coverage` proves that the two agree: every read
planned for a validated rule list is covered by a granted path, `+` standing for one segment. This
needs one condition. PinnedValues takes the pinned `{prefix}` from the glob's own text, so `a.b@*`
pins `a`, while a.b@x.service has the prefix `a.b`. `Config.PinnedPrefixExact` says as an if and
only if for which globs the pinned prefix is right. `CoverageExact.ReadCoverageExact` says for which
requests a rule's path covers its read, and `CoverageExact.PlannedReadGrantExact` the same of planned
reads and grants: those for which the rule spells no pinned `{prefix}` out, or the request has the
one it pins. `Examples` has a rule that passes validation and a planned read it is not granted.

`PrefixIsPinnable` reads off the glob: it pins nothing, is literal, has no suffix dot before its
first `@`, or the rest of its text has a dot exactly when every name it matches does (and, without
one in the text, no name it matches can have one). A glob with `*.service` after the `@` always is.

`Braces` and `JoinedPlaceholders` treat pinned text that reads as a placeholder. Validated globs have
no braces, so this happens exactly when a brace pair of the path that is no placeholder encloses text
that expands to a placeholder's name, as in `{u{credential}}` with the credential `nit`. That is
also exactly when expanding twice differs from expanding once, and, for a rule whose globs determine
its whole read, when the policy path is not that read.

## The cache

`CacheHistory` says, from the list of events alone, what is remembered and served. `StaleCache` is
the cache as a class with its data on the heap. Each method is one critical section, so a Read is
`BeginRead`, any time, `FinishRead`, and any number of them interleave with `Swap` and
`SweepExpired`. `Valid()` ties the fields to the history, which is the refinement. `JsonHeap` is
the deep copy, and `CacheHistory.FallbackExact` says in plain comparisons when an outage is answered
and with what. `Errors` is the classification of errors, and `ReadPath` puts ReadSecret,
classifyForbidden and the cache together.

A success is remembered by finish order, and stamped with its finish time. One that overlaps any
refusal, of any secret, is not stored, and the older entry stays.

## Reload and revocation

`Reload` is a timed state machine of any number of requests and reloads. A request loads the serving
configuration, gets its deadline, later takes the cache's client, and may end with a probe of its
own. A reload swaps the server, then the cache, then schedules the old client's revocation, and
requests may step in between. `Service` is the state main.go keeps and refines that machine: it
accounts for every client that was ever made.

Nothing bounds how long a request may take between loading the configuration and arming its deadline,
or between arming and taking the client. `Reload.ReadingIsCoveredExact` says of any reachable state
which requests can have their client revoked under them, `Reload.SafeTimeoutsExact` of any list of
configurations whether that can happen in any run of it. `Reload.PromptlyArmedExact` adds the
hypothesis that the deadline is armed by the time the configuration is replaced, and then the time
between the reloads counts as well.

## Token lifecycle

`Lifecycle` is the loop beside any number of signalling readers as a state machine, `TokenLoop` the
loop's code on the client's fields, taking only the machine's steps. `Backoff` is the schedule, and
`LimitBody` the limit on response bodies.

## Where code and comments differ

- go/internal/config/config.go:141-146 says that literal text before the `@` pins `{prefix}`. It
  does not when that text has a suffix of its own and the rest of the glob leaves open whether the
  name has one (`Config.PinnedPrefixExact`).
- go/internal/config/config.go:213-217 rules out that pinned text reads as a placeholder. A path
  can still close literal braces around pinned text (`Examples.PinnedTextCanSpellAPlaceholder`).
  `JoinedPlaceholders.HasPlaceholderExact` says when. The grant is then wider than the read, never
  narrower.
- go/cmd/systemd-creds-openbao/main.go:290-294 says that every request that can hold the old client
  has finished by its revocation. The wait compares two timeouts, and a request older than both
  configurations can have a longer one. Whenever it does, some run revokes the client under it, at
  whatever distance the reloads are (`Reload.RevokedByTimeoutsExact`).

## Model

| member | source | states |
|---|---|---|
| Glob.MatchGlobBackslashIsOrdinary | go/internal/config/config.go:179-187 | For every pattern and name, MatchGlob is the glob semantics in which a backslash is an ordinary character, inside classes and outside, with the same malformed patterns |
| Glob.ParseDoubled | go/internal/config/config.go:185-187 | Doubling every backslash and parsing with path.Match's escapes gives the terms that parsing the pattern without escapes gives, for every pattern |
| Glob.LiteralGlobMatchesItself | go/internal/config/config.go:248-250 | A glob without `*`, `?` or `[` is valid and matches exactly one name, itself |
| Glob.MatchesLiteralHead | go/internal/config/config.go:147-150 | Terms that start with literal text match the names that start with it and whose rest the other terms match |
| Glob.MatchableExact | go/internal/config/config.go:185-187 | Whether some unit name or credential ID matches a glob at all can be told from its terms, both ways |
| Glob.ForcedCharIsMatched | go/internal/config/config.go:185-187 | A character one term of the glob insists on is in every slash-free name the glob matches |
| Glob.MatchedCharIsPermitted | go/internal/config/config.go:185-187 | A character in a matched name is one some term of the glob lets through |
| GlobForms.StarGlob | go/internal/config/config.go:179-187 | HEAD*TAIL with literal ends matches exactly the names that start and end so, without a slash between |
| GlobForms.QuestionGlob | go/internal/config/config.go:179-187 | HEAD?TAIL matches exactly one character other than a slash between them |
| GlobForms.ClassGlob | go/internal/config/config.go:179-187 | HEAD[LO-HI...]TAIL, and with `^` its negation, matches exactly one character in some range, or in none |
| GlobForms.UnclosedGlob | go/internal/config/config.go:179-187 | A class that is never closed makes the glob malformed for every name |
| GlobForms.LiteralCharIsMatched | go/internal/config/config.go:232-246 | A character of the glob outside any class is in every name it matches, so one no unit name has matches no unit |
| Text.JoinSplit | go/internal/policy/policy.go:113-128 | Splitting a path at `/` and joining it gives it back |
| Text.SplitJoin | go/internal/policy/policy.go:113-128 | Joining slash-free segments and splitting gives them back |
| Text.SplitConcat | go/internal/policy/policy.go:105-108 | Splitting MOUNT/data/PATH splits its parts |
| Config.PlaceholderValuesMeaning | go/internal/config/config.go:117-139 | The five values read off a unit name NAME.TYPE: the whole, NAME, and NAME as PREFIX@INSTANCE, where a unit without `@` has no instance |
| Config.PrefixOfTemplate | go/internal/config/config.go:126-139 | `{prefix}` of HEAD@TAIL is HEAD when TAIL has a dot, and otherwise HEAD without a suffix of its own |
| Config.Replacer | go/internal/config/config.go:169-177 | The pairs are exactly the placeholders that have a value, each with it |
| Config.ReplaceIsExpand | go/internal/config/config.go:165-177 | Replacing with those pairs, in whatever order, replaces each placeholder that has a value once and leaves all else |
| Config.PlaceholdersExpand | go/internal/config/config.go:112-139 | Each of the five placeholders, written out, expands to its value for the request |
| Braces.SubstituteToken | go/internal/config/config.go:165-177 | A placeholder with a value is replaced by it, and the expansion goes on behind it |
| Template.SubstituteCommutesWithJoin | go/internal/policy/policy.go:113-128 | Expanding the segments and joining them is expanding the joined text, for any values |
| Template.SubstituteCommutesWithSplit | go/internal/policy/policy.go:113-128 | Splitting an expanded text is expanding the segments, when no value has a `/` |
| Template.PartialIsFinal | go/internal/policy/policy.go:110-121 | Text with no placeholder left after a partial expansion is already what every full expansion that agrees with it makes of it |
| Template.FreeTokenSurvives | go/internal/config/config.go:165-177 | A placeholder without a value is still there after expansion |
| Template.LengthTellsValuesApart | go/internal/policy/policy.go:110-121 | Two expansions that differ in the length of one value differ in length exactly by whether the text mentions it |
| Config.PinnedPrefixExact | go/internal/config/config.go:141-163 | The pinned `{prefix}` is that of every unit the glob matches if and only if PrefixIsPinnable holds of the glob |
| Config.DotOutsideClassIsPinnable | go/internal/config/config.go:141-163 | A template glob with a dot outside any class after its first `@`, such as `*.service`, is pinnable |
| Config.ContradictingUnit | go/internal/config/config.go:141-163 | A glob that is not pinnable has a matching unit whose `{prefix}` is not the pinned text |
| Config.PinnedButPrefixHolds | go/internal/config/config.go:147-163 | Every pinned value other than `{prefix}` is that of every matching request, with no side condition |
| Config.PinnedValuesSound | go/internal/config/config.go:141-163 | For a pinnable glob every pinned value is the value of every matching request |
| Config.PinnedExact | go/internal/config/config.go:141-163 | Pinning is complete: `{credential}` is kept exactly for a credential glob without syntax, `{prefix}` exactly when the unit glob or its text before the first `@` has none, the others exactly when the unit glob has none |
| Config.LiteralGlobsPinAll | go/internal/config/config.go:147-163 | Two globs without syntax pin all five placeholders to the values of the one request they match |
| Config.TemplateGlobPinsPrefix | go/internal/config/config.go:147-163 | A template glob with plain text before its first `@` pins `{prefix}` to that text, when the text has no dot or the rest has one |
| Config.RequestValuesSlashFree | go/internal/credserver/peer.go:28-40 | No placeholder value of a request NewRequest accepts has a `/` |
| Config.CheckSegments | go/internal/config/config.go:316-327 | Accepts exactly the paths without an empty, `.` or `..` segment, which are exactly those that normalization leaves alone |
| NormalPaths.NormalizeExact | go/internal/config/config.go:316-319 | Normalization changes a path if and only if it has an empty, `.` or `..` segment |
| Config.CheckGlobBackslash | go/internal/config/config.go:189-211 | The one-flag scan reports a doubled backslash, then a backslash after an unclosed `[`, and nothing else |
| Validation.ClassBackslashExact | go/internal/config/config.go:189-211 | In a well-formed glob the scan finds a backslash in a class if and only if a class of the parsed glob has one as the end of a range |
| Validation.UnitGlobCharExact | go/internal/config/config.go:225-246 | The characters a unit glob may have are those of unit names and those of glob syntax |
| Validation.CheckLiteralExact | go/internal/config/config.go:329-369 | A path or mount passes exactly when it has no empty, `.`, `..` or `+` segment, does not end in `*` and has no control character |
| Validation.CheckGlobExact | go/internal/config/config.go:492-511 | A glob passes exactly when it is well-formed and has no brace, no doubled backslash and none in a class |
| Validation.ValidRuleExact | go/internal/config/config.go:491-570 | validate accepts exactly the rules with such globs, such a path and mount before and after pinning, and a consistent backend and format |
| Policy.EmitInPlace | go/internal/policy/policy.go:115-127 | Every segment of the array becomes its pinned expansion, or `+` when a placeholder is left, and the flag is set when one of those was more than a lone placeholder |
| Policy.PolicyPath | go/internal/policy/policy.go:102-129 | The array loop computes the path and the widening flag of the segment-wise definition |
| Policy.WidenedExact | go/internal/policy/policy.go:123-126 | A segment is widened if and only if a placeholder is left in it that shares it with other text |
| Policy.Grants | go/internal/policy/policy.go:55-71 | The grants answer the first ask for each path, in order and no others, each is widened when any rule with its path widens it, and no path is granted twice |
| Policy.AddGrant | go/internal/policy/policy.go:61-69 | One more ask extends the grant its path has, found through the index, or appends one, and index and list stay in agreement |
| Policy.GrantsAreUnique | go/internal/policy/policy.go:55-71 | That description of the grants admits one list only |
| Policy.AskIsGranted | go/internal/policy/policy.go:55-57 | Every rule's path is granted |
| Resolver.Match | go/internal/secrets/resolver.go:111-122 | Finds the first rule whose two globs match, or says truly that none does |
| Resolver.PlanRead | go/internal/secrets/resolver.go:45-72 | Plans the read the first matching rule expands to, refuses a bad path before a bad mount, and fails for want of a rule exactly when none matches. No segment of a planned path or mount is empty, `.` or `..` |
| Resolver.PlanMeaning | go/internal/secrets/resolver.go:53-65 | A path is refused if and only if an empty, `.` or `..` segment is in its expansion, a mount likewise after the path |
| Resolver.PlannedField | go/internal/secrets/resolver.go:67-70 | The planned field is none for JSON, the rule's own text when it has no placeholder, and the credential ID for `{credential}` |
| Resolver.NewRequestExact | go/internal/credserver/peer.go:28-40 | A request is accepted exactly when both parts are names globs can be matched with |
| Wildcards.ReadIsNormalExact | go/internal/secrets/fuzz_test.go:17-24 | A read is let through if and only if normalizing the API path it asks for changes nothing |
| Resolver.PlanRule | go/internal/secrets/resolver.go:53-71 | The same past the match, through the pairs of the one replacer |
| Coverage.ReadSegments | go/internal/secrets/resolver.go:50-65 | The segments of a planned read are the expanded segments of the rule's template |
| Coverage.PolicySegments | go/internal/policy/policy.go:113-128 | Splitting the policy path gives the emitted segments: no `/` comes out of a glob some request matches |
| Coverage.SegmentCovered | go/internal/policy/policy.go:110-127 | An emitted segment is `+` or the segment the request reads |
| Coverage.RuleCoversItsReads | go/internal/policy/policy.go:102-129 | The policy path of a valid, pinnable rule covers the read of every request the rule matches |
| Coverage.PolicyCoversEveryPlannedRead | go/internal/secrets/fuzz_test.go:17-24 | For every validated rule list and every request, a path the policy grants covers the planned read, given that the serving rule is pinnable |
| Wildcards.PlusIsFreePlaceholder | go/internal/config/config.go:354-369 | An emitted segment of a valid rule is `+` exactly when a placeholder is left in it after pinning |
| Wildcards.PolicyPathHasPlusIff | go/internal/config/config.go:354-369 | The policy path has a `+` segment exactly when the read template keeps a placeholder after pinning |
| Wildcards.PolicyPathHasNoTrailingStar | go/internal/config/config.go:354-369 | The policy path of a valid rule is not empty and never ends in `*` |
| Wildcards.PolicyPathIsGrantable | go/internal/config/config.go:342-352 | The policy path of a valid rule has no empty, `.` or `..` segment and no control character |
| Wildcards.NoPinnedPlus | go/internal/config/config.go:532-545 | No literal or fully pinned segment of a valid rule is `+` |
| Wildcards.PathWithoutPlusIsTheRead | go/internal/policy/policy.go:110-121 | A policy path without wildcard is the one path every matching request reads, given a pinnable `{prefix}` |
| Wildcards.ValidationPredictsPlan | go/internal/config/config.go:534-545 | When pinning leaves no placeholder in path and mount, no request the rule matches is refused over a segment, given a pinnable `{prefix}` |
| CoverageExact.ReadCoverageExact | go/internal/policy/policy.go:110-129 | For a valid rule and any request it matches, the policy path covers the read if and only if no fully pinned segment mentions `{prefix}`, or the request's `{prefix}` is the pinned one |
| CoverageExact.PlannedReadGrantExact | go/internal/secrets/fuzz_test.go:17-24 | For a validated rule list and a planned read, the serving rule has a grant, which covers the read under exactly that condition |
| CoverageExact.PlanUnderPolicy | go/internal/secrets/fuzz_test.go:17-24 | Grants and Plan run on one rule list: a planned read carries the first matching rule, whose grant covers it under exactly that condition, and always when the rule is pinnable |
| CoverageExact.GrantedExact | go/internal/policy/policy.go:55-71 | The grants cover a read if and only if the path of some rule does |
| CoverageExact.RuleCoverageExact | go/internal/policy/policy.go:110-129 | A valid rule's policy path covers all that the rule expands to, including reads Plan refuses, if and only if its `{prefix}` is pinnable, or no fully pinned segment mentions `{prefix}`, or no credential ID matches |
| CoverageExact.UnspelledPrefixIsCovered | go/internal/policy/policy.go:110-129 | Without a fully pinned segment that mentions `{prefix}`, coverage needs no condition on the unit glob |
| CoverageExact.ContradictionIsUncovered | go/internal/policy/policy.go:110-129 | With one, a request whose `{prefix}` differs in length from the pinned one reads a path the rule's policy path does not cover |
| Examples.CoverageNeedsPinnablePrefix | go/internal/config/config.go:147-161 | The validated rule unit `a.b@*`, path `x/{prefix}` reads x/a.b for a.b@x.service, and none of its grants covers that |
| Braces.ExpansionContainsExact | go/internal/config/config.go:165-177 | With brace-free values, an expansion contains a placeholder if and only if the template mentions it and it has no value, or a brace pair of the template that is no placeholder encloses text that expands to its name |
| Braces.TwoStagesExact | go/internal/config/config.go:165-177 | Expanding with some of the values first changes the result if and only if such a brace pair joins a placeholder that has a value |
| Braces.TwoStages | go/internal/config/config.go:165-177 | Where none does, expanding in two stages is expanding once, whatever the second values contain |
| JoinedPlaceholders.PinnedBraceFree | go/internal/config/config.go:213-223 | No pinned value of a valid rule has a brace |
| JoinedPlaceholders.HasPlaceholderExact | go/internal/policy/policy.go:131-135 | What hasPlaceholder finds in an expansion, told from the template: a mentioned placeholder without value, or a joined one |
| JoinedPlaceholders.PlusSegmentExact | go/internal/policy/policy.go:115-127 | A segment becomes `+` if and only if it mentions a placeholder the globs leave free or joins one |
| JoinedPlaceholders.WildcardPathExact | go/internal/policy/policy.go:110-129 | The policy path of a valid rule has a `+` segment if and only if the read mentions a free placeholder or a segment joins one |
| JoinedPlaceholders.DeterminedPathExact | go/internal/config/config.go:213-217 | A rule whose globs determine its whole read is granted exactly that read if and only if no segment joins a placeholder, given a pinnable `{prefix}` |
| JoinedPlaceholders.LiteralRuleExact | go/internal/policy/policy.go:110-121 | A valid rule with plain globs matches one request. Its policy path has a `+` segment if and only if a segment joins a placeholder under that request's values, and is otherwise the path that request reads |
| JoinedPlaceholders.ExpandPinnedAgainExact | go/internal/config/config.go:165-168 | Expanding the pinned text again for a request with brace-free names gives the request's own expansion if and only if no brace pair joins |
| JoinedPlaceholders.ExpandTwiceExact | go/internal/config/config.go:165-177 | Expanding twice is expanding once if and only if no brace pair joins a placeholder that has a value |
| Examples.PinnedTextCanSpellAPlaceholder | go/internal/config/config.go:213-223 | The validated rule path `x/{u{credential}}`, credential `nit` reads x/{unit} for every request, its policy path is `x/+`, and expanding twice reads another path |
| Errors.ClassificationByRoot | go/internal/bao/client.go:224-275 | Both classifications, over every wrapped chain, by the error at its end and whether a token fault or a url.Error is around it |
| Errors.StatusClassification | go/internal/bao/client.go:236-271 | An answer with status c and no token fault is retryable if and only if c >= 500 or c == 429, and authoritative if and only if neither |
| Errors.LoginClassification | go/internal/bao/client.go:277-288 | A login over a chain with a certificate error is never retried, any other exactly as a read is, and the two differ |
| Errors.WrappersAreTransparent | go/internal/bao/client.go:224-288 | Any number of plain wrappers changes no classification and no status |
| Errors.RetryableOrAuthoritative | go/internal/bao/client.go:253-275 | No error is both, and neither is exactly a refused redirect or an unnamed error without a url.Error, with no token fault around it |
| Errors.ForbiddenIsTheAnswerIffTokenIsGood | go/internal/bao/client.go:317-342 | A 403 is OpenBao's answer about the secret exactly when lookup-self succeeded, and the lifecycle is signalled exactly when lookup-self was refused with 403 |
| ReadPath.MissingIsAuthoritative | go/internal/bao/client.go:98-118 | A missing secret, as a response without data or wrapped in any number of errors by the KV client, and a deleted version count as OpenBao's answer on either backend, without a signal |
| ReadPath.PayloadIsFetched | go/internal/bao/client.go:98-126 | Data is handed on with its lease in nanoseconds, and with none when OpenBao gave none |
| JsonHeap.CloneData | go/internal/bao/stale.go:104-113 | The copy says what the original says and lies in objects that did not exist before, for any nesting |
| JsonHeap.CloneValue | go/internal/bao/stale.go:115-128 | The same for one value |
| JsonHeap.ShowsOneThing | go/internal/bao/stale.go:104-128 | Data stored in given objects says one thing only, so equal contents is what the copy promises |
| CacheHistory.RemembersAfter | go/internal/bao/stale.go:163-208 | How the remembered successes change with one event: dropped ones go, a stored one replaces its key's |
| CacheHistory.ResidentAfter | go/internal/bao/stale.go:163-208 | A success stays resident through one more event exactly when that event neither replaces nor drops it |
| CacheHistory.RefusalsBetween | go/internal/bao/stale.go:35-41 | Two values of the refusal counter are equal exactly when no refusal finished between them |
| CacheHistory.NoResurfacing | go/internal/bao/stale.go:180-187 | Whatever is served stale comes from a read that began after every refusal of that secret that had finished by then |
| CacheHistory.FallbackExact | go/internal/bao/stale.go:131-208 | An outage is answered with a success if and only if that was fetched with the fallback on and no refusal meanwhile, no stored success and no refusal of its secret followed, and at every check since and now its age is within the max age in force and its lease |
| CacheHistory.LastInstall | go/internal/bao/stale.go:144-150 | The max age and the client in force are those of the last Swap |
| CacheHistory.StaleAnswersAreFresh | go/internal/bao/stale.go:54-63 | A stale answer is at most max age old and within its lease when that is positive, and none is given with the fallback off |
| CacheHistory.DisabledRemembersNothing | go/internal/bao/stale.go:144-154 | Nothing is remembered while max age is not positive |
| CacheHistory.EntriesAreReclaimed | go/internal/bao/stale.go:65-68 | On a monotone clock with a sweep or Swap at most d ago, no entry is older than it may be served for plus d, through any sequence of Swaps |
| StaleCache.Cache.constructor | go/internal/bao/stale.go:70-85 | A new cache has the given client and max age and no entries |
| StaleCache.Cache.BeginRead | go/internal/bao/stale.go:163-168 | Hands out the client in force and the refusal count and changes no entry |
| StaleCache.Cache.FinishRead | go/internal/bao/stale.go:170-208 | Returns the fresh data, the refusal, or a copy of exactly the entry the history says may be served, records the event, counts a stale answer, and keeps the cache's data apart from every caller's |
| StaleCache.Cache.FinishFetched | go/internal/bao/stale.go:172-179 | A success is stored exactly when the history says so, as a copy |
| StaleCache.Cache.FinishRefused | go/internal/bao/stale.go:180-187 | A refusal drops the entry of its secret and counts |
| StaleCache.Cache.FinishUnanswered | go/internal/bao/stale.go:188-207 | An outage is answered from the entry within its limit, else drops it |
| StaleCache.Cache.Swap | go/internal/bao/stale.go:144-158 | Installs client and max age, and keeps exactly the entries whose age is within the new max age, when that is positive, and within their lease |
| StaleCache.Cache.SweepExpired | go/internal/bao/stale.go:89-102 | Keeps exactly the entries whose age is within the max age and their lease |
| StaleCache.Cache.EntriesAreTheResidents | go/internal/bao/stale.go:27-52 | After every interleaving, a secret has an entry exactly when some success for it is resident in the history, with that success's data, finish time and lease |
| StaleCache.Cache.DisabledIsEmpty | go/internal/bao/stale.go:144-154 | No entry exists while the fallback is off |
| StaleCache.Cache.NothingLingers | go/internal/bao/stale.go:65-68 | No entry is older than it may be served for plus the time since the last sweep or Swap |
| StaleCache.StoredIsCounterTest | go/internal/bao/stale.go:173-174 | The counter comparison in Read holds exactly when no refusal of any secret finished during the read |
| ReadPath.FinishForbidden | go/internal/bao/stale.go:180-207 | A 403 for a secret that could still be served drops its entry if and only if lookup-self succeeded, and is answered from it otherwise |
| ReadPath.FinishStatus | go/internal/bao/client.go:224-275 | For any other status c, a servable entry is still there and is the answer if and only if c >= 500 or c == 429 |
| ReadPath.FallbackServes | go/internal/bao/stale.go:188-199 | An outage of a secret whose data was kept and is within its limits is answered with that data |
| ReadPath.UnansweredRead | go/internal/bao/stale.go:163-208 | A whole Read without an answer serves the entry in objects of its own |
| ReadPath.StoredIsServed | go/internal/bao/stale.go:172-197 | A stored success is what an outage right after it is served |
| ReadPath.ServeAfterTampering | go/internal/bao/stale.go:172-197 | A caller overwrites the data a fresh Read returned, and the next outage is still served what OpenBao sent |
| Reload.InvStep | go/cmd/systemd-creds-openbao/main.go:284-299 | Every step of a request, a reload or the clock keeps the invariant that bounds each use of a client |
| Reload.ReachableInv | go/cmd/systemd-creds-openbao/main.go:284-299 | So it holds in every reachable state |
| Reload.SnapshotsAreNearTheirClient | go/cmd/systemd-creds-openbao/main.go:284-289 | A request's configuration is at most one generation newer than its client: the swap window pairs new rules with the old client |
| Reload.WaitedForIsCovered | go/cmd/systemd-creds-openbao/main.go:290-294 | The deadline is inside the wait for a request from the replaced or the new configuration, for one with no longer timeout, and for an older one that armed its deadline by the time its configuration was replaced and has a timeout of at most the wait plus the time since |
| Reload.CoveredUseEndsByDue | go/cmd/systemd-creds-openbao/main.go:290-299 | A request whose deadline is inside the wait is done, probe included, when the revocation is due |
| Reload.NoUseAfterRevoke | go/cmd/systemd-creds-openbao/main.go:290-299 | In every reachable state, no request the wait is for reads with a revoked client, and a probe meets the revocation at most at the instant it times out |
| Reload.RevocationExact | go/cmd/systemd-creds-openbao/main.go:290-299 | In every reachable state, some continuation revokes a replaced client under a request that uses it if and only if the revocation is due, or overdue, before the use must end |
| Reload.ReadingIsCoveredExact | go/cmd/systemd-creds-openbao/main.go:290-299 | For a request still reading, that is if and only if its deadline is not inside the wait |
| Reload.RevokedByTimesExact | go/cmd/systemd-creds-openbao/main.go:290-299 | For any list of timeouts, any older generation, any arming time and any scheduling time: some run revokes the client under such a request if and only if arming time plus timeout is past the wait |
| Reload.RevokedByTimeoutsExact | go/cmd/systemd-creds-openbao/main.go:290-299 | With no word on times, if and only if the request's timeout exceeds both that the wait compares |
| Reload.PromptlyArmedExact | go/cmd/systemd-creds-openbao/main.go:290-299 | Among requests armed by the time their configuration was replaced, if and only if the timeout exceeds the larger of the two by more than the time since the replacement |
| Reload.SafeTimeoutsExact | go/cmd/systemd-creds-openbao/main.go:290-299 | No run of a list of timeouts revokes any client in use if and only if no earlier timeout exceeds both of a later pair of neighbours |
| Service.Authenticate | go/cmd/systemd-creds-openbao/main.go:355-385 | Goes on exactly while it logs in and the file's section has changed. The first turn that does not decides: a failed login fails the start, else the client returned is live, built from the returned configuration's section, and that configuration is the last one that loaded. Every other client made is stopped and revoked |
| Service.Service.Reload | go/cmd/systemd-creds-openbao/main.go:237-301 | A configuration is adopted whole or not at all, exactly when it loads and the login succeeds before the timer fires, a login that lost the race is revoked, and the old client's revocation is due after the larger timeout plus the probe's |
| Service.Service.RevokeDue | go/cmd/systemd-creds-openbao/main.go:295-299 | The revocation timer revokes the replaced client and is a step of the reload machine |
| Service.Service.ClientsInUseAreLive | go/cmd/systemd-creds-openbao/main.go:284-299 | The newest client is never stopped or revoked under its requests, and an older one is not revoked under a request the wait is for |
| Service.TracksReload | go/cmd/systemd-creds-openbao/main.go:284-299 | With any requests between the swaps, a reload leaves one timer per replaced and unrevoked client, due when the machine says |
| Lifecycle.PendingIsOutstanding | go/internal/bao/client.go:347-366 | The slot is full exactly when some signal was sent since it was last emptied |
| Lifecycle.NoLostSignal | go/internal/bao/client.go:506-573 | Every signal is still in the slot, or a login began after it, or one must begin before the next wait, unless the client was canceled |
| Lifecycle.LoginBeforeNextWait | go/internal/bao/client.go:563-573 | From such a point every continuation without a login stays short of the next wait |
| Lifecycle.RejectionsNeedSignals | go/internal/bao/client.go:351-385 | Rejections acted on never exceed signals sent |
| Lifecycle.RejectionLoginsNeedSignals | go/internal/bao/client.go:506-573 | Logins whose wait ended in a rejection never exceed signals sent |
| Lifecycle.OneLoginPerWait | go/internal/bao/client.go:506-573 | Logins never exceed waits that ended, and a static token is never logged in for |
| Lifecycle.RejectionIsAboutTheTimeSinceTheDrain | go/internal/bao/client.go:358-366 | A rejection acts on a signal sent after the last drain |
| Lifecycle.LateSignalCostsALogin | go/internal/bao/client.go:566-571 | A signal between the drain and the new token does lead to one more login: the run that shows it |
| Lifecycle.BackoffFollowsFailures | go/internal/bao/client.go:545-552 | The loop's backoff is the shared schedule over consecutive renewal failures, reset by any other end of a wait |
| TokenLoop.TokenClient.SignalReauth | go/internal/bao/client.go:347-356 | A signal leaves the slot full and is one step of the machine |
| TokenLoop.TokenClient.DrainReauth | go/internal/bao/client.go:358-366 | A drain leaves the slot empty and is one step of the machine |
| TokenLoop.TokenClient.Wait | go/internal/bao/client.go:509-552 | A wait and what follows it up to the decision take only steps of the machine, double the backoff up to its cap after a renewal failure and reset it otherwise |
| TokenLoop.TokenClient.EndWait | go/internal/bao/client.go:531-552 | The same from the end of the wait on |
| TokenLoop.TokenClient.LogIn | go/internal/bao/client.go:563-573 | Drain and login leave in the slot only a signal sent after the drain |
| TokenLoop.TokenClient.Turn | go/internal/bao/client.go:503-573 | One turn takes only steps of the machine, and says exactly when another follows, with which token, slot and backoff |
| Backoff.BackoffClosedForm | go/internal/bao/client.go:182-186 | Waits double from one second, are a minute from the seventh on, and are always within those |
| Backoff.TotalWait | go/internal/bao/client.go:182-220 | The first n waits sum to 2^n - 1 seconds for n up to 6 and to 63 + 60 (n - 6) after |
| Backoff.WithRetry | go/internal/bao/client.go:188-220 | Returns the first success, or the first failure that fail-fast finds not worth a retry or by which the caller gave up, having waited the schedule between attempts and no more |
| LimitBody.LimitBody.Read | go/internal/bao/transport.go:94-112 | With any of the limit left, the same bytes and the same error that the body gives for the smaller of the buffer and what is left, and TooLarge without a byte from then on |
| LimitBody.LimitBody.Drain | go/internal/bao/transport.go:94-112 | A caller that reads on gets content within the limit whole and then its end, the body's own failure as such, and for longer content TooLarge after limit + 1 bytes. limit + 1 bytes pass only when the end of file comes with the last of them |
| LimitBody.Fetch | go/internal/bao/transport.go:26-42 | With the declared length checked first, a body whose declared length is honest passes only within the limit |

## Left out

- PolicyCoversEveryPlannedRead: asks that the serving rule's `{prefix}` is pinnable, since without it the property is false (CoverageNeedsPinnablePrefix). PlannedReadGrantExact has the exact condition for the grant of the serving rule. Whether another rule of the list happens to cover the read is GrantedExact's condition on that rule.
- PlanUnderPolicy: states full coverage under the same condition, and beside it the exact one for the serving rule's own grant.
- RuleCoverageExact: counts what the rule expands to, also where Plan refuses it, so for planned reads its condition is sufficient and not necessary. ReadCoverageExact and PlannedReadGrantExact are exact for each request.
- WaitedForIsCovered: the gap between reloads helps only a request that armed its deadline by the replacement. RevokedByTimesExact has the exact bound for any arming time.
- NoUseAfterRevoke: leaves the instant at which a probe times out and the revocation is due, where either may come first.
- ClientsInUseAreLive: the same instant.
- NothingLingers: assumes a sweep or Swap at most d ago. That the ticker fires is not part of the model.
- WithRetry: over a finite list of attempts, with StillRetrying when the list ends, since the loop itself may run for ever.
- Authenticate: over a finite list of turns, for the same reason.
- Turn: the login it contains succeeds or is canceled. The attempts inside are WithRetry's.
- Wait: a canceled client always ends the wait as canceled. Which of two ready channels a select takes is not modelled beyond that, and a signal consumed by a canceled wait stays in the slot.
- Reload: a revocation timer does not go off between the two swaps of one reload in the Service class. In the state machine of the Reload module it may go off at any time.
- FinishRead: the response and its classification are an argument. HTTP, TLS, redirects and the OpenBao client library are not part of this model.
- Fetch: checkDowngrade, which refuses a redirect from https to http, is not modelled.
- MatchGlobBackslashIsOrdinary: is about path.Match's documented relation. Its search for a place to end a star is not modelled, which can differ from the relation only for names with a `/`, where a negated class matches the `/` that the search stops at. Request names have none.
- Bytes: strings are sequences of code points. Invalid UTF-8 and the width of integers, such as the wrap of the 64-bit refusal counter, are not modelled. Times are unbounded integers.
- Zero timeouts: validation rejects a connection timeout of zero, so a request without a deadline does not occur in the reload machine.
- Writing a credential back, its deadline and size limit, served and refused counters, the accept loop's pause, and who may connect.
- ParsePeer beyond the shape of the request it produces.
- The text of the policy document (Generate), the daemon's grants on its own token, and encodeField.
- TOML decoding, defaults, the exclusivity checks of the login methods, duration checks, file reading and environment expansion.
- Revocation at shutdown, which cuts requests off by design.
- The login methods, the lifetime watcher, and the token check at startup.
- Logging, notifications to the service manager and the watchdog.
