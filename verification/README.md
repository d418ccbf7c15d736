# newman-reporter-openapi coverage tracker, in Dafny

newman-reporter-openapi is a Newman reporter. It measures how much of an
OpenAPI document a Postman collection run exercises. This project models its
coverage-tracking engine:

- the `Tracker` class of `lib/tracker.js`;
- the older free-function copy of the same engine in `lib/utils.js`.

The tracker holds the dereferenced OpenAPI document. `addCallCounts` puts a
`callCount` on every path, method and response, and a `totalCalls` capacity
on the document, every path and every method. The capacity is the number of
declared responses.

Each request Newman reports (URL, HTTP method, status code) goes through
`updateOperation`, which resolves it in this order:

1. the server: a fixed `serverUrl`, or else the first declared server that
   prefixes the URL;
2. the relative URL;
3. the path template (`checkPath`, then `getPath`'s disambiguation);
4. the method, ignoring case;
5. the response: the exact code, then `default`, else a new "unexpected"
   entry.

Then it counts the hit. `createCoverage` and `percentage` turn the counters
into a read-only report tree.

How the modules map onto the source:

- `Strings` and `Templates` model `checkPath` as a segment matcher.
- `Matching` models server, path, method and code lookup.
- `Model` holds the document and its counter invariants, with
  `addCallCounts` as a function.
- `Recording` holds the whole of `updateOperation` as a function of the
  document, with its failure paths, its counting rule and the invariant it
  keeps.
- `Coverage` models `percentage` and the report tree.
- `Tracking` holds the `Tracker` class. Its methods mirror the source's
  loops and are proved to compute those functions exactly.
- `Utils` holds what `lib/utils.js` does differently: first-match `getPath`,
  and the legacy counter of unexpected responses.

Most of `lib/utils.js` is the same code as the class, so it shares the class's
model:

- `checkPath` (lib/utils.js:107-126) is `Templates.CheckPath`;
- `percentage` (lib/utils.js:85-90) is `Coverage.Percentage`;
- `addCallCounts` (lib/utils.js:31-54) is `Tracking.Tracker.AddCallCounts`.
  Unlike lib/tracker.js:16-18 it does not skip the `callCount`/`totalCalls`
  keys it has just put on the path. Those values are numbers, and assigning
  a property of a number is silently dropped outside strict mode, so the
  result is the same;
- `getServer` (lib/utils.js:92-105) is `Tracking.Tracker.GetServer`;
- `getMethodCaseInsensitive` (lib/utils.js:143-160) is
  `Tracking.Tracker.GetMethodCaseInsensitive`;
- `createCoverage` (lib/utils.js:256-302) is `Tracking.Tracker.CreateCoverage`;
- `updateOperation` (lib/utils.js:162-246) is `Recording.Record` with the
  first-match path rule and its own message for a missing path, with the same
  failures in the same order (`Recording.ResolveFailures`).

The counter invariant, `Model.ValidDocument`, has these parts:

- a method's `callCount` is the number of its declared responses hit at
  least once;
- its `totalCalls` is the number of its declared responses;
- a path's counters are the sums over its methods;
- the document's counters are the sums over its paths.

`addCallCounts` establishes it and every `updateOperation` keeps it. So every
`callCount` stays at most its `totalCalls`, and the document's count reaches
its capacity exactly when every declared response has been hit.

Path elimination compares segments by string equality (lib/tracker.js:173-176).
A `{name}` template segment survives a round only when the URL segment is that
same text. So for the URL `/a/fixed` the template `/a/fixed` beats `/a/{x}`,
whatever their order (`Matching.ExactTemplateWins`). Two templates that differ
only in their placeholder names, such as `/a/{x}` and `/a/{y}` against `/a/b`,
are both dropped at `b`, and `getPath` returns nothing
(`Matching.PlaceholderTwinsAmbiguous`).

## Model

| member | source | states |
|---|---|---|
| Templates.CheckPath | lib/tracker.js:35-54 | a template can match only a URL with the same number of `/`-separated segments |
| Templates.CheckPathSegmentCount | lib/tracker.js:37-39 | URL and template with different numbers of `/` never match |
| Templates.CheckPathSegmentwise | lib/tracker.js:41-53 | both branches of `checkPath` are one rule. A template matches exactly when the segment lists have equal length, each `{name}` segment meets a non-empty URL segment and every other segment is equal |
| Templates.PlaceholderAcceptsAnySegment | lib/tracker.js:41-47 | a placeholder segment accepts any non-empty URL segment (digits, dashes, percent escapes); only the empty segment is refused |
| Templates.CheckPathReflexive | lib/tracker.js:48-52 | a template matches its own text |
| Matching.FirstPrefix | lib/tracker.js:196-205 | `getServer` yields a server that prefixes the URL and has no prefixing server before it; no result means no declared server prefixes the URL |
| Matching.ResolveServer | lib/tracker.js:270-280 | the server choice of `updateOperation`: a non-empty `serverUrl` that prefixes the URL, else the first declared prefixing server unless it is empty; its promises are stated by `ResolveServerSound`, `FixedServerWins`, `EarlierServerWins`, `ResolveServerComplete` and `NoServerMatch` |
| Matching.ResolveServerSound | lib/tracker.js:270-280 | the server `updateOperation` settles on is a non-empty prefix of the URL. It is the fixed `serverUrl`, or the first declared prefix |
| Matching.FixedServerWins | lib/tracker.js:271-273 | a non-empty `serverUrl` that prefixes the URL is used whatever servers are declared |
| Matching.EarlierServerWins | lib/tracker.js:197-202 | without an applicable override, a later server is never chosen over an earlier one that also prefixes the URL, even a longer one |
| Matching.ResolveServerComplete | lib/tracker.js:270-280 | without an applicable override, the first declared server that prefixes the URL is chosen when it is not empty |
| Matching.NoServerMatch | lib/tracker.js:274-279 | no prefixing server and no applicable override give no server |
| Matching.RelativeUrl | lib/tracker.js:282-285 | `url.replace(server, '')` less one trailing `/`; what it promises for a prefixing server is stated by `RelativeUrlStrips` |
| Matching.RelativeUrlStrips | lib/tracker.js:282-285 | the relative URL is what follows the server in the URL, less at most one trailing `/` |
| Matching.Candidates | lib/tracker.js:151-154 | the filter keeps exactly the templates `checkPath` accepts, in declaration order |
| Matching.CandidatesStep | lib/tracker.js:152-158 | one step of the filter: the candidates among all but the last template, with the last appended when it matches, are exactly the matching templates, in order |
| Matching.Keep | lib/tracker.js:170-177 | one splice round keeps no more candidates than it had, each a declared template; exactly which ones is stated by `KeepMembers` |
| Matching.KeepMembers | lib/tracker.js:170-177 | one splice round keeps exactly the candidates whose segment at the position equals the URL's, and keeps them in order |
| Matching.KeepExtendsAgreement | lib/tracker.js:170-177 | the candidates a round keeps agree with the URL one position further than before |
| Matching.Eliminate | lib/tracker.js:164-189 | the rounds of elimination from one URL position on; what they return is stated by `EliminateMember`, `EliminateDropsAll` and `EliminateKeepsExact` |
| Matching.KeepAllAgree | lib/tracker.js:170-177 | a round in which every candidate agrees with the URL keeps them all |
| Matching.KeepNoneAgree | lib/tracker.js:170-177 | a round in which no candidate agrees with the URL keeps none |
| Matching.EliminateDropsAll | lib/tracker.js:164-189 | two or more candidates that agree with the URL up to a position and all differ from it there give no path: the round at that position empties the list |
| Matching.EliminateMember | lib/tracker.js:164-189 | elimination only returns one of the candidates it started from, one that agrees with the URL at the first position examined |
| Matching.ResolvePath | lib/tracker.js:149-190 | the class's `getPath`; its promises are stated by `ResolvePathSound`, `ResolvePathFewCandidates`, `ResolvePathDropsAll` and `ExactTemplateWins` |
| Matching.ResolvePathDropsAll | lib/tracker.js:164-189 | the "ambiguous or no matching path" case: several matching templates that agree with the URL up to a position and all differ from it there give no path |
| Matching.TwoDifferAtEnd | lib/tracker.js:164-189 | two matching three-segment templates that agree with the URL in the middle and both differ from it at the end give no path |
| Matching.PlaceholderTwinsAmbiguous | lib/tracker.js:149-190 | `/a/{x}` and `/a/{y}` both match `/a/b`, and `getPath` gives nothing for them |
| Matching.TwinsMatch | lib/tracker.js:35-54 | `/a/{x}` and `/a/{y}` are well formed, both match `/a/b`, and split into `""`, `a` and their placeholder |
| Matching.ResolvePathSound | lib/tracker.js:149-190 | `getPath` only returns a template that `checkPath` accepts |
| Matching.ResolvePathFewCandidates | lib/tracker.js:156-162 | no matching template gives no path; a single matching template is returned without tie-breaking |
| Matching.FullAgreementUnique | lib/tracker.js:164-189 | two templates that agree with the URL at every position are the same template, so elimination run to the end cannot leave two distinct templates that both agree everywhere |
| Matching.TwoCandidatesLeft | lib/tracker.js:164-189 | while two distinct candidates of the URL's length remain, they cannot yet agree with the URL everywhere, so a position is left to look at |
| Matching.EliminateKeepsExact | lib/tracker.js:164-189 | among candidates of the URL's length that agreed so far, the one whose template is the URL itself survives every round and is the one returned |
| Matching.ExactSurvivesRound | lib/tracker.js:166-185 | in one round of elimination the template equal to the URL is kept, the survivors stay in order and all agree with the URL up to the position just examined; a lone survivor is that template |
| Matching.ExactTemplateWins | lib/tracker.js:149-190 | a URL that is itself a declared template resolves to that template, however many placeholder templates also match it |
| Matching.FirstMatch | lib/utils.js:128-141 | legacy `getPath` returns the first template in declaration order that matches, and nothing only when none matches |
| Matching.FindMethod | lib/tracker.js:134-147 | the first method key, other than `callCount`/`totalCalls`, equal to the request method ignoring case; nothing only when there is none |
| Matching.FindMethodIgnoresCase | lib/tracker.js:136-140 | the lookup depends on the request method only up to case, and never lands on a counter field |
| Matching.SameAnswersSameMethod | lib/tracker.js:134-147 | two request methods that every key answers alike find the same key |
| Matching.FindCode | lib/tracker.js:306 | `responses[code]` finds the entry with that code, or reports that there is none |
| Model.ResetMethod | lib/tracker.js:20-30 | a method's count becomes 0, every response's count 0, and its capacity the number of its responses |
| Model.ResetPath | lib/tracker.js:11-31 | a path's count becomes 0 and its capacity the sum of its methods' capacities |
| Model.WithCallCounts | lib/tracker.js:6-33 | `addCallCounts` zeroes the document's count and makes its capacity the sum over its paths. It leaves servers, title and templates alone |
| Model.ResetMethodValid | lib/tracker.js:20-30 | a freshly counted method is consistent: capacity = declared responses, count = 0 |
| Model.ResetPathValid | lib/tracker.js:11-31 | a freshly counted path is consistent and has count 0 |
| Model.LoadedIsValid | lib/tracker.js:6-33 | after `addCallCounts` every counter is 0 and every capacity is the number of declared responses, summed up the tree; the invariant holds |
| Model.MethodWithinCapacity | lib/tracker.js:322-327 | a method's count is at most its capacity, with equality exactly when every declared response has been hit |
| Model.PathWithinCapacity | lib/tracker.js:322-327 | a path's count is at most its capacity, with equality exactly when each of its methods is full |
| Model.WithinCapacity | lib/tracker.js:322-327 | every `callCount` in a consistent document is at most its `totalCalls` |
| Model.FullCoverage | lib/tracker.js:322-327 | the document's count reaches its capacity exactly when every declared response of every method has been hit |
| Recording.FindPath | lib/tracker.js:294-298 | either `getPath` rule only ever returns a template that matches the relative URL |
| Recording.LookupResponse | lib/tracker.js:306-320 | the exact code is found exactly when declared; `default` is used exactly when the code is not declared but `default` is; otherwise nothing |
| Recording.HitMethod | lib/tracker.js:306-327 | an unmatched code is appended as unexpected with count 1. Otherwise the resolved response alone goes up by 1. The method's count goes up exactly on a declared response's first hit |
| Recording.Resolve | lib/tracker.js:265-304 | what the lookup resolves is consistent: a non-empty server prefixing the URL, the relative URL after it, a template accepting that URL, and a method key equal to the request method ignoring case; `ResolveSucceeds` and `ResolveFailures` say when it succeeds and when it fails |
| Recording.CountHit | lib/tracker.js:322-327 | counting a hit touches only the resolved path and method, never a capacity, and raises the path and document counts by the method's bump |
| Recording.Record | lib/tracker.js:260-339 | the call fails exactly when `Resolve` does: it returns `undefined`, logs the one line that failure carries and leaves the document unchanged. Otherwise the match returned names the server, relative URL, path and method `Resolve` found, plus the response the lookup chose; it counts the hit on exactly that path and method and logs at most once |
| Recording.ResolveFailures | lib/tracker.js:265-304 | missing `servers`, no server, missing `paths`, no path and no method each give `undefined` with their own message, in that order of checks |
| Recording.ResolveSucceeds | lib/tracker.js:265-304 | when a server, a path and a method are all found, the lookup succeeds with exactly those choices, so the request goes on to be counted |
| Recording.CountingRule | lib/tracker.js:322-327 | the response's count always goes up by 1. The method, path and document counts go up by 1 together exactly when that response was declared and at 0. Capacities never change |
| Recording.UnexpectedEntryCreated | lib/tracker.js:307-316 | an entry is added exactly when neither the code nor `default` is declared. It is added once, unexpected, counted once and with no effect on the aggregates |
| Recording.RecordLogsUnexpected | lib/tracker.js:309-316 | a successful call logs "No matching response" exactly when it created an unexpected entry, and nothing otherwise |
| Recording.ResolveReadsKeys | lib/tracker.js:265-304 | the lookup depends only on servers, templates and method keys, not on any counter |
| Recording.CountHitKeepsKeys | lib/tracker.js:306-327 | counting a hit changes no template and no method key |
| Recording.LookupAfterHit | lib/tracker.js:306-316 | after a hit, the same code resolves to the same response again; an unexpected entry is found, not created anew |
| Recording.HitAgain | lib/tracker.js:306-327 | a later hit with a code already counted lands on the same response, raises only its count and creates nothing |
| Recording.RepeatedHits | lib/tracker.js:322-327 | n hits with one code add n to that response's count. Only the first can raise the method's count, and no other response changes (POST 400 ×31 gives 31 on the response, 1 on the method) |
| Recording.RepeatedRequest | lib/tracker.js:260-339 | the same request again gives the same match and logs nothing. It leaves the method, path and document counts alone and adds 1 to the response's count |
| Recording.HitMethodValid | lib/tracker.js:306-327 | one hit keeps a method's count equal to its declared responses hit and its capacity equal to its declared responses |
| Recording.HitKeepsCodesDistinct | lib/tracker.js:307-316 | a hit adds a code only when it was missing, so a method's codes stay distinct |
| Recording.HitCounters | lib/tracker.js:322-327 | after a hit the method's capacity is still its declared responses and its count still the number of those hit |
| Recording.HitKeepsUnexpectedHit | lib/tracker.js:307-316 | unexpected entries stay at one hit or more, and none is created beside a declared `default` |
| Recording.HitPathValid | lib/tracker.js:322-327 | a hit on one of its methods keeps a path consistent with its capacity unchanged |
| Recording.CountHitValid | lib/tracker.js:322-327 | counting a hit keeps every sum in the document consistent |
| Recording.RecordPreservesValid | lib/tracker.js:260-339 | every `updateOperation`, failed or not, keeps a consistent document consistent |
| Coverage.Percentage | lib/tracker.js:238-243 | 0 for an empty capacity, else the integer nearest to 100·calls/total with halves rounded up (`Math.round`) |
| Coverage.PercentageFull | lib/tracker.js:238-243 | `percentage(t, t)` is 100 |
| Coverage.PercentageNone | lib/tracker.js:238-243 | `percentage(0, t)` is 0 |
| Coverage.PercentageBounded | lib/tracker.js:238-243 | within capacity the percentage is at most 100 |
| Coverage.PercentageMonotone | lib/tracker.js:238-243 | more calls never give a lower percentage |
| Coverage.Snapshot | lib/tracker.js:56-102 | the report tree `createCoverage` builds; its promises are stated by `SnapshotBounded`, `SnapshotFullCoverage` and `SnapshotUnexpectedHit`, and `Tracking.Tracker.CreateCoverage` is proved to build exactly it |
| Coverage.SnapshotBounded | lib/tracker.js:56-102 | of a consistent document, every percentage in the report lies in 0..100 |
| Coverage.SnapshotFullCoverage | lib/tracker.js:56-66 | once every declared response has been hit the report says 100% (0% when none is declared) |
| Coverage.SnapshotUnexpectedHit | lib/tracker.js:93-96 | every unexpected response in the report shows at least one call |
| Tracking.Tracker.SetSchema | lib/tracker.js:249-254 | the tracker holds the document with its counters installed, or nothing. A freshly parsed document leaves it consistent |
| Tracking.Tracker.AddCallCounts | lib/tracker.js:6-33 | the nested loops leave exactly the document `addCallCounts` specifies |
| Tracking.Tracker.ResetPathCounts | lib/tracker.js:11-31 | one path's loop leaves exactly the reset path and adds its capacity to the document's |
| Tracking.Tracker.ResetMethodCounts | lib/tracker.js:20-30 | one method's loop leaves exactly the reset method and adds one to the method's, the path's and the document's capacity per response |
| Tracking.Tracker.GetServer | lib/tracker.js:196-205 | the loop returns the first declared server that prefixes the URL, as is, or nothing |
| Tracking.FilterMatching | lib/tracker.js:151-154 | the filter loop yields exactly the matching templates' positions, in order |
| Tracking.SpliceDisagreeing | lib/tracker.js:170-177 | the backwards splice loop leaves exactly the candidates whose segment equals the URL's |
| Tracking.Tracker.GetPath | lib/tracker.js:149-190 | the method returns exactly the disambiguated path |
| Tracking.Tracker.GetMethodCaseInsensitive | lib/tracker.js:134-147 | the loop skips the counter fields and returns the first key equal to the method ignoring case |
| Tracking.Tracker.ResolveRequest | lib/tracker.js:265-304 | the lookup's checks, run in the source's order, give exactly `Resolve`'s outcome |
| Tracking.Tracker.UpdateOperation | lib/tracker.js:260-339 | the new document, the result and the lines logged are exactly `Record`'s, and a consistent tracker stays consistent |
| Tracking.Tracker.CreateCoverage | lib/tracker.js:56-102 | the loops build exactly the report tree, title `''` when the document has none; a consistent tracker reports every percentage within 0..100 |
| Utils.GetPath | lib/utils.js:128-141 | the legacy loop returns exactly the first matching template |
| Utils.FirstMatchIsFirstCandidate | lib/utils.js:128-141 | first match is the earliest template the class's filter collects, and nothing when it collects none |
| Utils.RulesAgreeOnOneCandidate | lib/utils.js:128-141 | with at most one matching template the legacy and class rules pick the same path |
| Utils.EarlierPlaceholderShadowsExact | lib/utils.js:128-141 | where they differ: with a matching template declared before the URL's own, the class picks the exact template and the legacy copy picks an earlier one |
| Utils.Increment | lib/utils.js:234 | `callCount++` adds one to a number and turns `undefined` or `NaN` into `NaN` |
| Utils.LegacyHitMethod | lib/utils.js:214-234 | the legacy response step: an unmatched code is appended as unexpected with no counter. The aggregates go up exactly when the resolved counter is the number 0 |
| Utils.LegacyHitMirrors | lib/utils.js:214-234 | hit for hit, the legacy step resolves and creates the same entries as the class and moves the method, path and document counts identically; only an unexpected response's own count differs (`NaN`) |
| Utils.UnexpectedCountIsNaN | lib/utils.js:219-234 | two hits with an undeclared code: the legacy counter reads `NaN`, the class's reads 2 |

## Left out

- Loading a specification is not modelled: `dereference`, `initialise`, `specExists` and `isJestRunning`, in both files. They use the file system, `process.env` and an external `$ref` parser. The model starts from a parsed document handed to `setSchema`.
- Console output is not modelled: `logDebug`, `setDebugMode` and the legacy `debugMode` option print only. `logError` and the bare `console.error` lines become `LogEvent` values on a ghost log, in order.
- lib/index.js (Newman event wiring, query-string stripping, exit codes) and lib/clireporter.js (table rendering) are not part of this model. Request URLs are taken as given.
- Nested objects updated in place are modelled as values. Paths, methods and responses are datatype values that `UpdateOperation` writes back whole. The returned `matchPath`/`matchMethod`/`matchResponse` references become positions. Aliasing between those references and the document is not represented.
- JavaScript object-key behaviour is not modelled. Keys are strings in declaration order; `for...in` putting integer-like keys first and numeric status codes being coerced to strings are ignored. `isUnexpected` is `false` where the source leaves it `undefined`.
- A path entry holds only method objects. Fields such as `summary` or `parameters` under a path are left out; the counter fields `callCount`/`totalCalls` are kept out of the method list and handled by `IsReserved`.
- `toLowerCase` is modelled on ASCII letters only.
- `percentage` is exact integer arithmetic equal to `Math.round(100 * c / t)`. Floating-point rounding of that quotient is not modelled.
- Templates.CheckPath: defined only for templates that start with `/` and whose segments, once a `{` appears after the first character, are whole `{name}` placeholders or free of regular-expression metacharacters. Other templates (`/file.{ext}`, a `.` in a placeholder template) make the source's regular expression differ from a segment test and are not modelled.
- Tracking.Tracker.UpdateOperation: requires a document to be set and all its templates to satisfy the condition above. The source throws a `TypeError` on calls made before a schema is set; that is not modelled.
- Tracking.Tracker.SetSchema: promises the counter invariant only for a freshly parsed document (distinct templates and method keys, no counter-named method, no unexpected entries). Other input gets the counters but no invariant.
- `getSchema` and the legacy `setSchema` only read or store the document and have no model of their own. The legacy `setSchema` installs no counters.
- The legacy `dereference` (lib/utils.js:5-29) keeps the parser's result as is, without the JSON round trip of lib/tracker.js:114 and 126. Responses shared through `$ref` therefore stay one object, so two methods can share a response and its counter. The value model gives every method its own responses and cannot show that sharing.
- The legacy free functions keep the document in module state. `Utils.GetPath` takes the path list as a parameter instead.
- Recording.Record: for lib/utils.js it models the corrected unexpected-response counter of lib/tracker.js. The legacy `NaN` counter is modelled separately, by `Utils.LegacyHitMethod` (see Findings).

## Findings

| source | as written | input that shows it | evidently intended | confidence | as-written member | corrected member |
|---|---|---|---|---|---|---|
| lib/utils.js:219-234 | an unmatched status code is stored as `{isUnexpected: true}` with no `callCount`, and `callCount++` then turns `undefined` into `NaN` | a method with no responses, hit twice with status 404: the entry's count is `NaN`, not 2 | the entry counts its hits, starting from 0, as lib/tracker.js:311-314 does | not executed | Utils.UnexpectedCountIsNaN | Recording.RepeatedHits |
