# The DMZ: verified models

This project models the parts of the DMZ training platform that hold real algorithms, and proves what they promise.

- **Module bootstrap.** The manifest validator, the depth-first cycle search with its shared `visited`, `recursionStack` and `path`, the queue-driven topological sort, and the start-up that registers the sorted modules group by group (`Manifest`, `CycleSearch`, `KahnSort`, `SortTheorems`, `ManifestValidation`, `Registration`).
- **OpenAPI printer.** The layout rules, a lexer and a parser for the grammar of section 2 of RFC 8259, the drift check that reads the file back, and a white-space stripper (`JsonText`, `JsonPrinter`, `JsonLexing`, `JsonRoundTrip`, `JsonKeys`, `JsonDrift`, `JsonStrip`), a reader for the white space of the text (`JsonLayout`), and the file as it is written in UTF-8 and read back (`JsonFile`).
- **Request fingerprint.** The 32-bit rolling hash, its published hexadecimal form, the normalised body under a property list, and the Slack signature that reuses the hash (`RollingHash`, `Fingerprint`).
- **Log redaction**, the **Content-Security-Policy** serialiser and its reader, the **security-header cache**, **API-key scopes**, **tenant password policies** and the **MFA grace period** over the calendar of ECMA-262 (`Redaction`, `Csp`, `HttpHeaders`, `SecurityPolicy`, `SecurityHeaders`, `FirstWriteCache`, `CachedRuns`, `HeaderCache`, `ApiKeyScopes`, `PasswordPolicy`, `Calendar`, `MfaGrace`).

`Options`, `OrderedSets`, `Sequences`, `Selections`, `Strings` and `Utf16` hold shared vocabulary: a JavaScript `Set` is the duplicate-free sequence that iterating over it gives, and JavaScript strings are sequences of 16-bit code units wherever the code looks at units.

Loops and objects of the original are methods and classes with loop invariants, proved against specification functions; the lemmas then say what those functions mean. `dafny verify dfyconfig.toml` checks everything.

## What the proofs found

- The cycle search and the sort are independent, yet agree: with the manifest's own names, and unless the first cycle is hidden by an empty name, a manifest is accepted exactly when the sort loses nothing. An accepted manifest loses nothing exactly when, besides, all its dependencies are entries. The two ways to part are both shown with inputs: an empty module name hides its cycle (`apps/api/src/modules/bootstrap.ts:97-98`), and a dependency that is a known name but not an entry is skipped by the search and counted by the sort (`bootstrap.ts:78`, `bootstrap.ts:117-124`).
- The reported cycle starts at the search root, not at the cycle, and the error message repeats its head twice (`bootstrap.ts:45-47`, `bootstrap.ts:98`); the model follows the list the code returns.
- Grouped registration keeps dependencies first exactly when no module depends on one of a later group; the start-up never checks that.
- The OpenAPI text parses back exactly when no key holds a quotation mark, backslash or control character, because keys are written raw (`apps/api/scripts/generate-openapi.ts:48`). The file does so exactly when, besides, no key holds a lone surrogate, which UTF-8 cannot carry.
- The property list passed to `JSON.stringify` also filters nested objects: nested properties whose name is not a top-level name drop out of the fingerprint (`packages/shared/src/contracts/idempotency-policy.ts:111`). A listed `__proto__` is also read where it is only inherited, so that `{"__proto__":1,"a":{}}` is printed with a prototype inside `a`.
- Changing one unit always changes the 32-bit hash, but `Math.abs` merges opposite hashes: `GET` on `/6ilonjt` and on `/6ilonjz` share a fingerprint. For one changed unit the exact condition is a congruence modulo 2^32 on the input; a unit changed by an odd amount is always seen.
- Redaction drops properties named `__proto__`, since it assigns to a plain object (`apps/web/src/lib/logger.ts:36-44`).
- `upgrade-insecure-requests` is in the policy but never sent, because it has no sources (`packages/shared/src/contracts/security-headers.ts:265`, `security-headers.ts:304`).
- A browser drops every directive that is not ASCII; a source with an accented letter takes its whole directive with it.
- The header cache ignores the connect and image settings in its key; it serves stale headers exactly when those settings give another header text than on the first request with the key that could be built. A concrete run shows it.
- A request for scopes can be refused although the allowed scopes grant everything it would: exactly when admin is requested and not listed by name in the first scope of the resource.
- `characterClassesRequired` plays no part in password evaluation; it is enforced exactly when at least that many class flags are set, or no password is accepted at all.
- The two grace-period computations differ exactly by the movement of the local clocks between enrollment and end.

## Model

| member | source | states |
|---|---|---|
| `CycleSearch.BuildSearchGraph` | apps/api/src/modules/bootstrap.ts:59-65 | a repeated name keeps its last dependency list; names iterate in order of first insertion |
| `CycleSearch.CycleSearch.Dfs` | apps/api/src/modules/bootstrap.ts:71-92 | for any graph: terminates by unvisited names; without a find the path and stack are restored and the node is finished after all its known dependencies; with a find the path grows to a duplicate-free walk in which every step goes to the first known dependency that reaches a cycle, and so does the step back to the walk |
| `CycleSearch.PushKeepsState` | apps/api/src/modules/bootstrap.ts:72-74 | entering a node keeps the relation between path, recursion stack, visited and finished modules |
| `CycleSearch.PopKeepsState` | apps/api/src/modules/bootstrap.ts:89-90 | leaving a node keeps it, provided all known dependencies are finished |
| `CycleSearch.SettledReachesNoCycle` | apps/api/src/modules/bootstrap.ts:77-91 | no walk from a finished module ever repeats a module |
| `CycleSearch.PathReachesCycle` | apps/api/src/modules/bootstrap.ts:84-85 | a path left by a successful search witnesses a cycle reachable from its head |
| `CycleSearch.DetectCycles` | apps/api/src/modules/bootstrap.ts:58-104 | reports the walk of first steps from the first module in iteration order that reaches a cycle, closed by its head, or nothing if that module has the empty name |
| `CycleSearch.ReportsNothingExactlyWhen` | apps/api/src/modules/bootstrap.ts:94-104 | null exactly when no module reaches a cycle or the first that does is named by the empty string |
| `CycleSearch.AcceptsExactlyAcyclic` | apps/api/src/modules/bootstrap.ts:58-104 | without empty names, null exactly when the graph of known dependencies has no cycle |
| `CycleSearch.FinishedDependenciesAreSkipped` | apps/api/src/modules/bootstrap.ts:77-87 | when all known dependencies before it are finished, a dependency may be taken as the first that can reach a cycle |
| `CycleSearch.ReportIsUnique` | apps/api/src/modules/bootstrap.ts:58-104 | the graph and the order of its names determine the reported list |
| `Manifest.GraphsAgree` | apps/api/src/modules/bootstrap.ts:117-124 | without repeated names the search graph and the counted graph of the sort are the same |
| `Manifest.EntriesAreKept` | apps/api/src/modules/bootstrap.ts:111-115 | without repeated names every entry keeps its own record and dependencies in the maps |
| `Manifest.LastEntryIsKept` | apps/api/src/modules/bootstrap.ts:63-64 | of a repeated name the last entry is kept in the maps |
| `Manifest.DependenciesGather` | apps/api/src/modules/bootstrap.ts:117-124 | the sort counts the dependencies of all entries of a name, one entry after another |
| `KahnSort.InitialMaps` | apps/api/src/modules/bootstrap.ts:107-115 | every name with in-degree 0, no dependents, and its last entry, in order of first insertion |
| `KahnSort.CountEntry` | apps/api/src/modules/bootstrap.ts:118-123 | each dependency occurrence, repetitions included, adds one dependent and one to the in-degree |
| `KahnSort.CountEdges` | apps/api/src/modules/bootstrap.ts:117-124 | after counting, in-degrees and dependents lists are those of all dependency occurrences of all entries |
| `KahnSort.RemainingAfterDequeue` | apps/api/src/modules/bootstrap.ts:142-146 | dequeuing a module takes all its occurrences, with repetition, off every in-degree |
| `KahnSort.RemainingZero` | apps/api/src/modules/bootstrap.ts:147-149 | the in-degree is zero exactly when all dependencies have been dequeued |
| `KahnSort.InitialQueue` | apps/api/src/modules/bootstrap.ts:126-133 | the queue starts with the modules of in-degree zero, in iteration order, and the queue invariant holds |
| `KahnSort.ReleaseDependents` | apps/api/src/modules/bootstrap.ts:142-149 | each dependent occurrence takes one off its in-degree, which keeps: every in-degree is the number of not yet dequeued occurrences, zero exactly for the enqueued, and the line stays in order |
| `KahnSort.TopologicalSort` | apps/api/src/modules/bootstrap.ts:106-153 | for every manifest, cyclic or not: each module once and after all its dependencies, nothing placeable left behind, earlier-released first, ties by manifest position, each as its last entry |
| `SortTheorems.EmitsExactlyTheLoadable` | apps/api/src/modules/bootstrap.ts:106-153 | emitted are exactly the modules from which no cycle and no unknown name can be reached through dependencies |
| `SortTheorems.ChainsNeverShrink` | apps/api/src/modules/bootstrap.ts:135-150 | modules come out in non-decreasing order of their longest dependency chain |
| `SortTheorems.RootsComeFirst` | apps/api/src/modules/bootstrap.ts:129-133 | the modules without dependencies come first, in manifest order |
| `SortTheorems.ReleasedInManifestOrder` | apps/api/src/modules/bootstrap.ts:117-124 | without repeated names a module's dependents are listed in manifest order |
| `SortTheorems.TiesFollowManifest` | apps/api/src/modules/bootstrap.ts:142-149 | modules released by the same dependency keep their manifest order |
| `SortTheorems.OrderIsUnique` | apps/api/src/modules/bootstrap.ts:106-153 | the order the sort is proved to return admits only one result for each manifest |
| `ManifestValidation.CheckEntries` | apps/api/src/modules/bootstrap.ts:18-41 | the duplicate and missing-dependency errors, in the order they are found |
| `ManifestValidation.EntryErrorsMeaning` | apps/api/src/modules/bootstrap.ts:22-40 | a duplicate is reported exactly for a name at two positions, a missing dependency exactly for an unknown dependency of an entry |
| `ManifestValidation.NoEntryErrors` | apps/api/src/modules/bootstrap.ts:21-41 | no such error exactly when names are distinct and dependencies are module names |
| `ManifestValidation.ValidateManifest` | apps/api/src/modules/bootstrap.ts:12-56 | all errors with at most one cycle error last; valid exactly when there is none of the three kinds |
| `ManifestValidation.NothingIsLostExactlyWhen` | apps/api/src/modules/bootstrap.ts:106-153 | for every manifest, the sort emits as many modules as entries exactly when names are distinct, dependencies are entries, and the search graph is acyclic |
| `ManifestValidation.AcceptedExactlyWhenNothingIsLost` | apps/api/src/modules/bootstrap.ts:12-153 | with matching names and no cycle hidden by an empty name, the validator accepts exactly when the sort loses nothing |
| `ManifestValidation.AcceptedLosesNothingExactlyWhen` | apps/api/src/modules/bootstrap.ts:12-153 | an accepted manifest, whatever module names it was checked against, loses nothing in the sort exactly when its dependencies are entries and no cycle is hidden by an empty name |
| `ManifestValidation.AcceptedLoadsEverythingInOrder` | apps/api/src/modules/bootstrap.ts:106-153 | when nothing is lost, the result is a permutation of the entries with every dependency strictly before its dependent |
| `ManifestValidation.EmptyNameHidesCycle` | apps/api/src/modules/bootstrap.ts:97-98 | a module with the empty name that depends on itself is accepted and lost |
| `ManifestValidation.UnlistedDependencyIsLost` | apps/api/src/modules/bootstrap.ts:32-32 | a dependency that is a module name but no entry is accepted and its dependent lost |
| `Registration.GroupedIsPartition` | apps/api/src/app.ts:171-227 | every registry-known entry lands in exactly one group, and no other does |
| `Registration.GroupedIsStable` | apps/api/src/app.ts:173-227 | the grouped sequence is the stable sort of the order by group |
| `Registration.GroupedStartsInOrder` | apps/api/src/app.ts:171-352 | the three infrastructure names precede all others, and of the others an absent or empty prefix precedes any other prefix |
| `Registration.GroupsKeepOrder` | apps/api/src/app.ts:173-227 | modules alike in these values keep the order of the sort |
| `Registration.GroupingKeepsDependenciesExactlyWhen` | apps/api/src/app.ts:177-352 | every registered dependency precedes its dependent exactly when no registered module depends on one of a later group |
| `Registration.GroupedIsSound` | apps/api/src/app.ts:171-227 | an accepted manifest registers each known entry once, in order exactly under that condition |
| `Registration.RegisterAll` | apps/api/src/app.ts:177-193 | registers one by one and stops at the first entry the registry does not know, everything before it registered |
| `Registration.RegisterKnown` | apps/api/src/app.ts:277-285 | the later groups are registered completely; their guard never fires |
| `Registration.RegisterGroups` | apps/api/src/app.ts:177-352 | completes with infrastructure, root level, prefixed exactly when the registry knows all infrastructure entries, else stops at the first unknown one; a completed order is that of names and registry values |
| `Registration.BuildApp` | apps/api/src/app.ts:157-352 | a refused manifest registers nothing; otherwise the registrations are the unique sorted order in groups, up to an unknown infrastructure module if there is one; a started application has the three named modules first, then those without a prefix, then the others |
| `JsonLexing.QuotedReads` | apps/api/scripts/generate-openapi.ts:14-16 | reading a string undoes quoting it, for every sequence of code units |
| `JsonText.QuotedUnit` | apps/api/scripts/generate-openapi.ts:14-16 | the quoted form of each unit: seven short escapes, lower-case hexadecimal for other control characters and lone surrogates, itself otherwise |
| `JsonText.QuotedPair` | apps/api/scripts/generate-openapi.ts:14-16 | a surrogate pair is kept |
| `JsonRoundTrip.LexValue` | apps/api/scripts/generate-openapi.ts:10-52 | every layout of a value, at every indent, has exactly the tokens of the value |
| `JsonRoundTrip.ReadTokens` | apps/api/scripts/check-openapi.ts:166-166 | the grammar reads the tokens of a value back to that value |
| `JsonRoundTrip.ParseUndoesRender` | apps/api/scripts/generate-openapi.ts:10-52 | parsing the specification, indented or compact form gives back the value |
| `JsonKeys.ParsesExactlyWhenTokensAgree` | apps/api/scripts/check-openapi.ts:166-166 | the parser returns a value exactly for texts with that value's tokens |
| `JsonKeys.RoundTripsExactlyWhenKeysArePlain` | apps/api/scripts/generate-openapi.ts:46-51 | the printed value parses back exactly when no key, at any depth, holds a quotation mark, backslash or control character |
| `JsonKeys.BadKeyIsNeverReadAlike` | apps/api/scripts/generate-openapi.ts:48-48 | with a key that needs an escape, the text is not even read as a value whose tokens agree in kind, string lengths and trailing backslashes |
| `JsonDrift.IndentedIsInjective` | apps/api/scripts/check-openapi.ts:46-46 | equal two-space JSON texts come from equal values |
| `JsonDrift.CheckDrift` | apps/api/scripts/check-openapi.ts:43-51 | reports drift exactly when the two specifications differ |
| `JsonFile.ReadBackIsWritten` | apps/api/scripts/generate-openapi.ts:97-97 | writing the text as UTF-8 and reading it back gives the printed text of the value with lone surrogates replaced in its keys, layout unchanged |
| `JsonFile.EscapeFreeExactlyWhen` | apps/api/scripts/generate-openapi.ts:48-48 | a key is its own quoted form exactly when it holds no quotation mark, backslash or control character and survives being written as UTF-8 |
| `JsonFile.FileParsesBackExactlyWhen` | apps/api/scripts/generate-openapi.ts:10-97 | the file parses back to the specification exactly when no key has an escape in JSON.stringify |
| `JsonFile.FreshFileHasNoDriftExactlyWhen` | apps/api/scripts/check-openapi.ts:43-166 | a freshly written file is read back without drift exactly when no key has an escape in JSON.stringify |
| `JsonLayout.OneLineExactlyWhenItFits` | apps/api/scripts/generate-openapi.ts:23-38 | an array has no line feed exactly when no element has one, each would fit 100 units with its indentation of two more, and the line has at most 100; it is then its elements with a comma and a space between them, in brackets |
| `JsonLayout.FormatIsTidy` | apps/api/scripts/generate-openapi.ts:10-52 | for plain keys, read off the text: every line feed is followed by the starting indent and two spaces for each open bracket, objects and spread arrays have each element and the closing bracket on a line of its own, arrays on one line have one space after commas, colons are followed by one space, and there is no other white space |
| `JsonStrip.StrippedIsCompactExactlyWhen` | apps/api/scripts/generate-openapi.ts:10-52 | without white space outside strings the text is the compact JSON, for every indent, exactly when no key has an escape in JSON.stringify |
| `RollingHash.ComputeHash` | packages/shared/src/contracts/idempotency-policy.ts:116-121 | the loop computes the hash folded over the units |
| `RollingHash.StepIsLinear` | packages/shared/src/contracts/idempotency-policy.ts:119-120 | one round is the signed 32-bit wrap of 31 times the hash plus the unit |
| `RollingHash.HashIsPolynomial` | packages/shared/src/contracts/idempotency-policy.ts:116-121 | the hash is the signed 32-bit wrap of the base-31 polynomial of the units |
| `RollingHash.HashOfConcatenation` | packages/shared/src/contracts/idempotency-policy.ts:116-121 | the hash of a concatenation is the wrap of hash(s) times 31^n plus hash(t), n the length of t |
| `RollingHash.OneUnitChangesHash` | packages/shared/src/contracts/slack-contract.ts:922-927 | changing exactly one unit always changes the hash |
| `RollingHash.PublishedForm` | packages/shared/src/contracts/idempotency-policy.ts:123-123 | exactly the padded width in lower-case hexadecimal, standing for the absolute value, zeros beyond eight digits |
| `RollingHash.PublishedAlikeExactlyWhen` | packages/shared/src/contracts/idempotency-policy.ts:123-123 | two hashes are published alike exactly when equal up to sign |
| `Fingerprint.ReorderingKeepsNormalizedBody` | packages/shared/src/contracts/idempotency-policy.ts:109-112 | reordering keys at any depth leaves the normalised body as it is |
| `Fingerprint.ReorderingKeepsFingerprint` | packages/shared/src/contracts/idempotency-policy.ts:108-124 | and therefore the fingerprint |
| `Fingerprint.NormalizedIsProjection` | packages/shared/src/contracts/idempotency-policy.ts:109-112 | the normalised text parses to the projection of a structured body; any other body counts as empty |
| `Fingerprint.PropertyListMembers` | packages/shared/src/contracts/idempotency-policy.ts:111-111 | the property list is ascending and has exactly the names of an object or the indices of an array |
| `Fingerprint.LessIsCodeUnitOrder` | packages/shared/src/contracts/idempotency-policy.ts:111-111 | ascending by the first unit that differs, prefixes first |
| `Fingerprint.DecimalReads` | packages/shared/src/contracts/idempotency-policy.ts:111-111 | array indices are decimal without leading zeros |
| `Fingerprint.ProjectionIsSorted` | packages/shared/src/contracts/idempotency-policy.ts:111-111 | every object of a projection has its names in ascending order |
| `Fingerprint.NormalizedAlikeExactlyWhen` | packages/shared/src/contracts/idempotency-policy.ts:109-112 | two bodies normalise alike exactly when their projections on their sorted top-level keys are equal |
| `Fingerprint.ProjectionKeepsMeaningExactlyWhen` | packages/shared/src/contracts/idempotency-policy.ts:111-111 | projecting on a property list keeps a body, up to key order, exactly when every name at every depth is listed and no object lacks a listed `__proto__`, which it would then inherit |
| `Fingerprint.NormalizedIdentifies` | packages/shared/src/contracts/idempotency-policy.ts:109-112 | among such bodies, two normalise alike exactly when equal up to key order |
| `Fingerprint.NestedNamesAreForgotten` | packages/shared/src/contracts/idempotency-policy.ts:111-111 | every body normalises like its projection, and differs from it exactly when a nested name is not a top-level name or an inherited `__proto__` is printed |
| `Fingerprint.InheritedPrototypeIsPrinted` | packages/shared/src/contracts/idempotency-policy.ts:111-111 | two different bodies with an own `__proto__` at the top that normalise alike |
| `Fingerprint.GenerateFingerprint` | packages/shared/src/contracts/idempotency-policy.ts:108-124 | always eight lower-case hexadecimal digits of the absolute hash of upper-case operation, colon, route, colon and normalised body |
| `Fingerprint.InputsAgreeExactlyWhen` | packages/shared/src/contracts/idempotency-policy.ts:109-114 | for one operation and route, the hashed texts of two bodies agree exactly when their projections are the same value |
| `Fingerprint.OddChangeOfBodyIsSeen` | packages/shared/src/contracts/idempotency-policy.ts:109-123 | bodies whose normalised texts differ in one unit by an odd amount have different fingerprints |
| `Fingerprint.CreateSlackMessageSignature` | packages/shared/src/contracts/slack-contract.ts:916-929 | `v0=` and sixteen digits, the first eight zero, the rest the absolute hash of version, timestamp and body, whatever the secret |
| `Fingerprint.OneUnitKeepsFingerprintExactlyWhen` | packages/shared/src/contracts/idempotency-policy.ts:116-123 | inputs that differ in unit k share a fingerprint exactly when 2 P(s) + 31^(n-1-k) (t_k - s_k) is a multiple of 2^32, P the base-31 polynomial and n the length |
| `Fingerprint.OddChangeIsSeen` | packages/shared/src/contracts/idempotency-policy.ts:116-123 | a unit changed by an odd amount always changes the fingerprint |
| `Fingerprint.OneUnitCollidesAtMost` | packages/shared/src/contracts/idempotency-policy.ts:116-123 | at each position one other unit at most keeps the fingerprint |
| `Fingerprint.TwoRoutesOneFingerprint` | packages/shared/src/contracts/idempotency-policy.ts:114-123 | two routes of one operation with the same fingerprint |
| `Redaction.RedactSensitive` | apps/web/src/lib/logger.ts:23-47 | the loop that fills a plain object computes the recursive redaction, in which every property whose lower-case name is one of the six holds the placeholder |
| `Redaction.RedactedHasNoSecret` | apps/web/src/lib/logger.ts:21-47 | at any depth and inside arrays, a property whose lower-case name is one of the six names holds the placeholder |
| `Redaction.RedactedProperties` | apps/web/src/lib/logger.ts:36-46 | all properties but `__proto__` keep name and order and hold the placeholder or the redaction of their own value |
| `Redaction.RedactedElements` | apps/web/src/lib/logger.ts:32-34 | an array holds the redactions of its elements in order |
| `Redaction.RedactTwice` | apps/web/src/lib/logger.ts:23-47 | redacting twice equals redacting once |
| `Redaction.SecretsDoNotInterfere` | apps/web/src/lib/logger.ts:38-45 | trees that differ only under hidden keys, at any depth and inside arrays, redact to the same tree |
| `Redaction.ForgetsExactlyTheSecrets` | apps/web/src/lib/logger.ts:23-47 | any two trees redact alike exactly when they differ in nothing but values under sensitive keys and properties named `__proto__` |
| `Redaction.FieldsAgreeByPosition` | apps/web/src/lib/logger.ts:36-46 | without `__proto__`, records agree exactly property by property: keys, order, lengths and all values but the sensitive ones survive |
| `Redaction.NamesAreKeptExactlyWhen` | apps/web/src/lib/logger.ts:36-44 | a record keeps its list of keys exactly when none is `__proto__` |
| `Csp.DedupeSources` | packages/shared/src/contracts/security-headers.ts:157-168 | the loop collects the non-empty normalised sources in order of first occurrence |
| `Csp.DedupedSources` | packages/shared/src/contracts/security-headers.ts:157-168 | the result is duplicate-free, keeps first-occurrence order, and is a fixed point of deduplication |
| `Csp.NormalizeTwice` | packages/shared/src/contracts/security-headers.ts:152-155 | normalising a source twice equals normalising it once |
| `Csp.NormalizedSource` | packages/shared/src/contracts/security-headers.ts:138-155 | a bare or quoted keyword becomes quoted and every other source is kept |
| `Csp.HeaderGrows` | packages/shared/src/contracts/security-headers.ts:302-307 | the header text, directive by directive, with its separators; directives without sources leave no trace |
| `Csp.ParsesBackExactlyWhen` | packages/shared/src/contracts/security-headers.ts:302-307 | the parser of Content Security Policy Level 3 recovers, in order, exactly the directives with sources, precisely when names are distinct lower-case tokens, sources are tokens, and all are ASCII |
| `Csp.ParserKeepsAscii` | packages/shared/src/contracts/security-headers.ts:302-307 | of directives made of tokens, the parser recovers exactly those that are ASCII throughout |
| `Csp.AccentedSourceIsLost` | packages/shared/src/contracts/security-headers.ts:302-307 | a directive with an accented source is dropped as a whole |
| `HttpHeaders.HeaderValueTwice` | apps/web/src/hooks.server.ts:28-53 | a header value that was stored is stored again as it is |
| `HttpHeaders.HeaderValueMeans` | apps/web/src/hooks.server.ts:28-53 | a stored value is the text between the white space at its ends; values with a character above 0xFF, or a NUL or line break between the ends, are refused |
| `SecurityPolicy.PolicyIsStoredExactlyWhen` | apps/web/src/hooks.server.ts:28-29 | the policy is accepted as a header value exactly when every configured source consists of bytes without NUL and line breaks; only blanks are stripped from it |
| `SecurityPolicy.PolicyParsesBackExactlyWhen` | packages/shared/src/contracts/security-headers.ts:210-300 | a browser reads the stored policy back, all ten directives in order, exactly when the configured sources are ASCII tokens without NUL |
| `SecurityPolicy.BrowserKeepsAscii` | packages/shared/src/contracts/security-headers.ts:210-300 | of a policy of tokens a browser keeps exactly the ASCII directives; connect-src survives exactly when its sources are ASCII |
| `SecurityPolicy.PoliciesAgreeExactlyWhen` | packages/shared/src/contracts/security-headers.ts:210-307 | with the same environment and frame ancestors, header texts agree exactly when the connect and image parts do |
| `SecurityPolicy.SourceTextsAgreeExactlyWhen` | packages/shared/src/contracts/security-headers.ts:236-252 | for token sources those parts agree exactly when the source lists do |
| `SecurityPolicy.FirstDirectives` | packages/shared/src/contracts/security-headers.ts:254-258 | default and base sources |
| `SecurityPolicy.ScriptAndStyleDirectives` | packages/shared/src/contracts/security-headers.ts:254-274 | inline and evaluated code is allowed in development only |
| `SecurityPolicy.MiddleDirectives` | packages/shared/src/contracts/security-headers.ts:261-263 | font, object and form sources |
| `SecurityPolicy.BaseConnect` | packages/shared/src/contracts/security-headers.ts:236-244 | the connect sources where nothing is configured |
| `SecurityPolicy.BaseImage` | packages/shared/src/contracts/security-headers.ts:246-252 | the image sources where nothing is configured |
| `SecurityPolicy.ListMembers` | packages/shared/src/contracts/security-headers.ts:236-252 | a configured list has exactly the base sources and the trimmed parts of the setting, normalised |
| `SecurityPolicy.FrameAncestorsAre` | apps/web/src/hooks.server.ts:12-15 | one trimmed frame ancestor for each part of the setting, and none for an empty setting or the word none |
| `SecurityPolicy.TrimMeans` | apps/web/src/hooks.server.ts:15-15 | trimming takes the white space off both ends and nothing else |
| `SecurityHeaders.BuildsExactlyWhen` | apps/web/src/hooks.server.ts:9-56 | the builder succeeds exactly when every configured source consists of bytes without NUL and line breaks, and then no later header replaces the policy |
| `SecurityHeaders.ServedHeaders` | apps/web/src/hooks.server.ts:31-53 | the headers beside the policy with their values: seven always, trusted types outside development, transport security in production |
| `SecurityHeaders.ServedPolicyParsesBackExactlyWhen` | apps/web/src/hooks.server.ts:9-56 | headers are built and a browser reads all directives back from them exactly when the configured sources are ASCII tokens without NUL |
| `HeaderCache.BuiltAlikeExactlyWhen` | apps/web/src/hooks.server.ts:9-56 | two configurations of one key build alike exactly when their connect and image text agrees or neither builds |
| `HeaderCache.KeyIsInjective` | apps/web/src/hooks.server.ts:62-62 | the dash-joined key determines environment, frame ancestors and COEP policy, dashes inside them included |
| `FirstWriteCache.CacheHoldsFirst` | apps/web/src/hooks.server.ts:58-69 | after any run of requests the cache holds, for each key, what the first request with it that could be built was built into, and nothing else |
| `FirstWriteCache.FirstBuiltIsFirst` | apps/web/src/hooks.server.ts:64-66 | that request is the first: no earlier one with the key could be built |
| `FirstWriteCache.ServeFromCache` | apps/web/src/hooks.server.ts:60-69 | a hit leaves the cache alone, a miss is built and kept, a failed build is not |
| `CachedRuns.AnswerIs` | apps/web/src/hooks.server.ts:60-69 | on any run of requests and resets, each request gets the build of the first request with its key that could be built, or else its own |
| `CachedRuns.KeyedRunServesCurrent` | apps/web/src/hooks.server.ts:60-69 | on runs where the key tells configurations apart, each request gets the build of the current configuration |
| `CachedRuns.FirstSinceResetIsCurrent` | apps/web/src/lib/config/env.ts:15-40 | the configuration in force is the first one parsed since the last reset |
| `CachedRuns.NoneIsCurrent` | apps/web/src/lib/config/env.ts:15-40 | after a reset, and while nothing parses, there is none |
| `HeaderCache.Server.LoadFrontendConfig` | apps/web/src/lib/config/env.ts:15-33 | the first configuration that parses is kept; a failed parse caches nothing |
| `HeaderCache.Server.ResetFrontendConfigCache` | apps/web/src/lib/config/env.ts:38-40 | forgets the cached configuration and nothing else |
| `HeaderCache.Server.GetSecurityHeaders` | apps/web/src/hooks.server.ts:60-69 | moves the state and answers as the run model does: the build of the first configuration under the same key that could be built, or an error |
| `HeaderCache.ServesCurrentExactlyWhen` | apps/web/src/hooks.server.ts:60-69 | on any run, a request gets the current headers exactly when nothing was built for its key before or the connect and image settings give the same header text as then |
| `HeaderCache.FixedSettingsServeCurrent` | apps/web/src/hooks.server.ts:60-69 | on every run in which the connect and image settings stay fixed, every request gets what the builder makes of the current configuration |
| `HeaderCache.StaleAfterReset` | apps/web/src/hooks.server.ts:60-69 | a request, a reset and a request under the same key with another source text: the second gets the headers of the first |
| `HeaderCache.AddedSourceIsNotServed` | apps/web/src/hooks.server.ts:60-69 | a concrete such run: a connect source added in production is not served |
| `HeaderCache.MergeHeaders` | apps/web/src/hooks.server.ts:76-80 | response headers win, all other security headers are added, none is lost; built headers can always be set again |
| `ApiKeyScopes.ScopeToPermissions` | packages/shared/src/auth/api-key-contract.ts:139-162 | the nested loops compute the expansion of the scope |
| `ApiKeyScopes.ExpansionGoesByAction` | packages/shared/src/auth/api-key-contract.ts:144-159 | action by action: admin gives read, then write, any other action itself, as far as they are in the table |
| `ApiKeyScopes.PermissionTable` | packages/shared/src/auth/api-key-contract.ts:98-111 | the twelve permissions |
| `ApiKeyScopes.FindScope` | packages/shared/src/auth/api-key-contract.ts:170-170 | the first scope of the resource |
| `ApiKeyScopes.GrantsExactlyWhen` | packages/shared/src/auth/api-key-contract.ts:139-162 | a scope expands to a permission exactly when it names its resource and lists its action or admin |
| `ApiKeyScopes.CheckIsFirstScope` | packages/shared/src/auth/api-key-contract.ts:164-176 | the check holds exactly when the first scope of the resource expands to the permission |
| `ApiKeyScopes.CheckAgreesWithUnionExactlyWhen` | packages/shared/src/auth/api-key-contract.ts:164-176 | the check agrees with the union of all expansions exactly when repeated resources add nothing to their first scope |
| `ApiKeyScopes.DistinctResourcesAgree` | packages/shared/src/auth/api-key-contract.ts:164-176 | with distinct resources it always agrees |
| `ApiKeyScopes.DelegationIsTransitive` | packages/shared/src/auth/api-key-contract.ts:185-203 | acceptance of scope lists is transitive, repeated resources included |
| `ApiKeyScopes.DelegationNeverEscalates` | packages/shared/src/auth/api-key-contract.ts:185-203 | along any chain of accepted delegations, the last list grants every permission of any scope of the first |
| `ApiKeyScopes.DelegationKeepsChecks` | packages/shared/src/auth/api-key-contract.ts:178-203 | along such a chain, whatever list of permissions the first passes as a whole, the last passes |
| `ApiKeyScopes.AcceptedExactlyWhen` | packages/shared/src/auth/api-key-contract.ts:185-203 | for any lists: accepted exactly when the resources are found, every granted permission is granted, and actions that stand for no single permission are listed by name or through admin |
| `ApiKeyScopes.SchemaScopesAcceptedExactlyWhen` | packages/shared/src/auth/api-key-contract.ts:185-203 | for scopes of the schema: accepted exactly when the resources are found, grants are contained, and admin is listed wherever it is requested |
| `ApiKeyScopes.EqualGrantMayBeRefused` | packages/shared/src/auth/api-key-contract.ts:199-201 | an admin request is refused against read and write, although both grant the same permissions |
| `PasswordPolicy.GetCharacterClassesInPassword` | packages/shared/src/contracts/password-policy.ts:182-199 | exactly the classes of which the password has a character |
| `PasswordPolicy.LettersAndDigits` | packages/shared/src/contracts/password-policy.ts:185-193 | the letters and digits of the patterns |
| `PasswordPolicy.SpecialsAreListed` | packages/shared/src/contracts/password-policy.ts:194-196 | the special pattern has exactly its 28 characters |
| `PasswordPolicy.CollectCharacterClassViolations` | packages/shared/src/contracts/password-policy.ts:249-260 | the loop over the rule table reports the missing required classes in table order |
| `PasswordPolicy.EvaluatePasswordPolicy` | packages/shared/src/contracts/password-policy.ts:262-276 | valid exactly when length and required classes are met; violations are exactly the broken requirements, once each, in fixed order; the class count is that of the password |
| `PasswordPolicy.AcceptsExactlyWhen` | packages/shared/src/contracts/password-policy.ts:262-276 | a policy accepts some password of a length with exactly given classes precisely when the length is in range, has room for the classes, and the classes include the required ones |
| `PasswordPolicy.SatisfiableExactlyWhen` | packages/shared/src/contracts/password-policy.ts:262-276 | a policy can be met exactly when its maximum length leaves room for its minimum and for one character of each required class |
| `PasswordPolicy.EnforcesClassCountExactlyWhen` | packages/shared/src/contracts/password-policy.ts:249-276 | every accepted password meets k classes exactly when k flags are set or nothing is accepted |
| `PasswordPolicy.ReachableExactlyWhen` | packages/shared/src/contracts/password-policy.ts:297-309 | the policies overrides can lead to: any flags, and lengths between the guardrails, the lower bound winning |
| `PasswordPolicy.TenantPolicyFields` | packages/shared/src/contracts/password-policy.ts:278-309 | each field is the override or, if missing, the default, with lengths brought between their bounds |
| `PasswordPolicy.ShippedPolicy` | packages/shared/src/contracts/password-policy.ts:122-147 | the policy of a tenant that overrides nothing |
| `PasswordPolicy.TenantPolicyIsFixed` | packages/shared/src/contracts/password-policy.ts:297-309 | merging and clamping a resulting policy again leaves it as it is |
| `PasswordPolicy.EveryTenantSatisfiableExactlyWhen` | packages/shared/src/contracts/password-policy.ts:278-309 | for every manifest, all overrides give policies that can be met exactly when the least maximum leaves room for the greatest minimum and four classes |
| `PasswordPolicy.LengthSuitsEveryTenantExactlyWhen` | packages/shared/src/contracts/password-policy.ts:278-309 | the lengths at which every tenant, whatever the overrides, accepts a password |
| `PasswordPolicy.SixtyFourSuitsEveryTenant` | packages/shared/src/contracts/password-policy.ts:122-147 | under the shipped manifest 64 is the one such length |
| `Calendar.MakeDayCountsFrom` | packages/shared/src/contracts/mfa-policy.ts:241-241 | the day MakeDay counts from is the only one with the given year, month and date 1 (section 21.4.1 of ECMA-262) |
| `Calendar.DayFromUndoesSplit` | packages/shared/src/contracts/mfa-policy.ts:241-241 | year, month and date of a day name that day |
| `Calendar.SplitUndoesDayFrom` | packages/shared/src/contracts/mfa-policy.ts:241-241 | every date of the calendar is the split of its day |
| `Calendar.IsDateExactlyWhen` | packages/shared/src/contracts/mfa-policy.ts:241-241 | a year, month and date within the month stand for a day exactly when they are its split |
| `Calendar.Epoch` | packages/shared/src/contracts/mfa-policy.ts:241-241 | day 0 is the first of January 1970 |
| `Calendar.MonthLengths` | packages/shared/src/contracts/mfa-policy.ts:241-241 | the lengths of the months |
| `Calendar.MoveByDays` | packages/shared/src/contracts/mfa-policy.ts:241-241 | overflowing the date by whole days moves a local time by as many times 86400000 ms, across months, leap days and years |
| `MfaGrace.Date.SetDate` | packages/shared/src/contracts/mfa-policy.ts:241-241 | the time value setDate leaves, in local time of any zone, clipped to the range of dates |
| `MfaGrace.TimeClipLimits` | packages/shared/src/contracts/mfa-policy.ts:241-241 | dates reach 8.64e15 ms either side of the epoch |
| `MfaGrace.IsWithinEnrollmentGracePeriod` | packages/shared/src/contracts/mfa-policy.ts:231-244 | false without a date; otherwise whether now is before the calendar end; the enrollment date is not changed |
| `MfaGrace.GetMfaEnrollmentState` | packages/shared/src/contracts/mfa-policy.ts:246-262 | every field of the state, the flag as the comparison with the calendar end in any zone; in a zone of constant offset the flag says whether the published end lies ahead |
| `MfaGrace.CalendarEndIsShifted` | packages/shared/src/contracts/mfa-policy.ts:240-241 | in any zone the calendar end is the elapsed end moved by the shift of the local clocks |
| `MfaGrace.ConstantOffsetsAgree` | packages/shared/src/contracts/mfa-policy.ts:231-262 | in a zone of constant offset the two ends are the same for every date, invalid ones included, and every whole number of days |
| `MfaGrace.EndsAgreeExactlyWhen` | packages/shared/src/contracts/mfa-policy.ts:231-262 | in any zone the two agree at every moment exactly when the clocks are back where they were or neither end ever lies ahead |
| `MfaGrace.ClockChangeDisagrees` | packages/shared/src/contracts/mfa-policy.ts:231-262 | with clocks going forward the flag drops an hour before the published end |

## Left out

- Manifest entries keep name, plugin path and dependencies; start-up flags and route prefixes of entries are not read by the modelled code. Message texts of validation errors are not modelled, only their kinds and fields.
- The module registry is any map from names to optional prefixes; names a plain object inherits (such as `constructor`) count as known there.
- Registration options, the routes and hooks registered between the groups, and Fastify's own loading order.
- Numbers in JSON are carried as the text JSON.stringify gives them, which follows the grammar; their rounding is not modelled. `undefined`, `toJSON` and cyclic objects are excluded.
- Objects are modelled with properties in a given order; that JavaScript iterates integer-like names first is not modelled.
- Replacing what a plain object inherits (`Object.prototype`) is not modelled; of its properties only `__proto__` is not a function.
- Upper- and lower-casing (`toUpperCase`, `toLowerCase`) are parameters of the models.
- Redaction sees own enumerable properties; cyclic objects are excluded.
- Web-socket origins are not modelled, because the web server passes no CORS origins to the policy builder. Header names are written in lower case, as `Headers` stores them; a response whose headers cannot be changed is not modelled.
- Configuration parsing is a parameter: whatever the environment yields at a request, or nothing when it fails.
- Password lengths and grace days are whole numbers, as their schemas demand. Screening of compromised passwords is left out.
- The current time and the time zone are parameters. MakeDay searches all days, with the limit of dates applied by TimeClip only.
- Slack signature verification, the other contracts, error tables, zod schemas, the desktop shell and the event store.
