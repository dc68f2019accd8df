# InstallGuard, modelled and proved in Dafny

InstallGuard decides whether the packages of a lockfile may be installed. Providers attach *signals* to
each resolved dependency; a *policy* turns the signals into *reasons* and the reasons into a decision
(allow, warn, block); the results are locked, replayed, verified, exported and cached. This project models
that I/O-free core and proves what it promises about pairs of runs, whole runs and round trips.

## Layout

| file | part of the system |
|---|---|
| `Wrappers`, `Sequences`, `Ordering`, `Text` | shared vocabulary: options and results, list operations, stable sort and de-duplication, text |
| `Dependency`, `Signal`, `Decision` | the data model: dependencies, package selectors, signals, reasons, decisions |
| `TrustScore`, `Policy`, `PolicyProperties`, `PolicyMeaning` | the engine, when each reason fires, tightening, aging and evidence, and what settings and overrides mean |
| `Results`, `Simulate`, `Doctor`, `DoctorProperties`, `DoctorReach` | results of a run, policy simulation, the doctor's suggestion and its limits |
| `Gather`, `Cache`, `CacheRuns` | concurrent fetching, the provider fan-out, and the persistent signal cache over whole runs |
| `Lockfile`, `LockPatch`, `Frozen` | the canonical lock, verification as a patch, frozen replay |
| `Sbom`, `Vex`, `PypiNames` | package URLs, bill of materials, exploitability statements, PyPI names |
| `EditDistance`, `NameSimilarity` | the edit distance and the near-miss name detector |
| `Dsse`, `ScriptScan`, `Excerpt`, `BackendPath` | envelope encoding and verification, excerpts of suspicious scripts, backend path containment |

Code that updates variables in place is a method proved against a specification function; code made of
expressions is that function. A decision's severity is its `Rank` (allow 0, warn 1, block 2).

## Main results

* **Tightening never relaxes, aging never tightens, incriminating evidence never relaxes** - for every
  policy, dependency, signal set and clock. The last two come with their exact limits: `AgingExact` and
  `EvidenceExact` are equivalences.
* **The doctor's suggestion works**: merging it answers every blocked script and name-squat finding, keeps
  all other findings with their multiplicity, makes no decision worse, and leaves a second run no allowlist entry
  to add. It works as a whole exactly when every suggested name is plain (`MergeAnswersExact`), and a second run
  sets a severity flag exactly when a package that stays blocked reports such a reason (`SecondRunFlags`).
* **Overrides are what they say**: any policy decides as the policy without overrides whose defaults are the
  settings in force, no override ever reaches a transitive dependency, and every reason is raised exactly when
  its published condition holds for the settings, without reference to how they are resolved.
* **The cache serves what it stores**: a success is answered from the store for its whole lifetime, whatever
  other calls do, until its key is written again or the store is cleared (`SuccessIsServed`).
* **The cache is invisible**: in every run, with calls that overlap while they wait for the provider, store
  failures, other writers and a clock that runs backwards, each answer is one the wrapped provider gave for
  that key, or an entry the store already held for it when the run began.
* **The fetch loop is a map**: for every completion order and concurrency value.
* **Locks are canonical, verification is exact and its diff a correct patch, replay is faithful.**
* **A signature belongs to one envelope**: what is signed verifies, and the signature is refused on every other
  type or payload (`SignedForOneEnvelope`).
* **Fast forms refine slow ones**: the near-miss test and the full edit distance, the name loops and PEP 503,
  string prefixes and component-list prefixes, the DSSE encoding and its parser.

## Where the code and its documentation differ

The model follows the code; each difference is a lemma with the exact condition.

* `DESIGN.md:383` says a growing release age never lowers the trust score. A publication dated in the future
  weighs nothing until it arrives and then costs ten points (`FutureDatedScoreFalls`). The score is monotone
  exactly when, at each future publication instant, no more publications are fresh than now, or other evidence
  makes up for them, or no score is left to lose (`TrustScore.AgesWell`, `TrustScore.AgingExact`).
* `crates/core/src/dsse.rs:137-139` promises success for any valid signature. An undecodable signature in
  front of it aborts (`UndecodableAborts`, `VerifyExact`).
* `crates/adapters/pypi/src/lib.rs:572-581` claims PEP 503, but also trims outer dashes (`NormalisersAgree`).
* `crates/cache/src/lib.rs:307-308` calls the key unambiguous. A dependency has its key to itself exactly when
  neither its name nor its version holds U+001F (`CacheKeyExact`).
* `crates/core/src/name_similarity.rs:6-11` promises to find distance one. The length filter before the test
  counts bytes and skips some names (`WideNameMissed`); a name is caught exactly when it is ASCII, or has the
  popular name's length and no character beyond two bytes (`InReachExact`, `PromiseExact`).
* `crates/core/src/lockfile.rs:54-55` promises rows independent of traversal order. The sort is stable on name
  and version alone, so rows of one package keep their order (`RepeatedPackageOrdered`); the promise holds
  exactly when results about the same name and version give the same row (`LockCanonicalExact`).
* `crates/core/src/script_scan.rs:19-21` calls 80 the maximum number of source bytes in an excerpt. A match of
  12 bytes among three-byte characters gets 84 (`ShortMatchBeyondPromise`), and a longer match takes its own
  length, which has no bound (`LongMatchBeyondPromise`). The promise is kept exactly when all but 80 bytes of the
  window are white space at its two ends (`CapturedExact`). The window itself keeps to 80 bytes exactly when the
  match does and character boundaries lie close enough to its nominal ends (`WindowExact`), which inside a long
  text means at both of them or, for a match of odd length, one byte off at one (`UnclippedWindowExact`). What
  always holds is six bytes more than the larger of 80 and the match (`CapturedBound`).

Two limits are not contradicted by the documentation but easy to miss. A package URL can be read back exactly
for npm names in which `%40` does not occur, and for PyPI names that are canonical and hold no `@`: PyPI names
are normalised but never encoded, so an `@` inside one would be taken for the one before the version
(`PurlRoundTrip`). And a cache key names the provider only by its id: a composite of other children answers
under the same keys, so `CacheIsTransparent` asks for the same replies throughout.

## Model

| member | source | states |
|---|---|---|
| Dependency.PrintParseRoundTrip | crates/core/src/dependency.rs:130-170 | printing a package selector and parsing it back is the identity exactly when a prefixed selector has a name, or a bare one has no colon before its first slash |
| Dependency.ParsePrintRoundTrip | crates/core/src/dependency.rs:130-170 | every text that parses as a selector prints back unchanged |
| Dependency.WrittenForms | crates/core/src/dependency.rs:130-170 | the prefixes npm: and pypi: select a registry family, whatever the name |
| Dependency.BareForm | crates/core/src/dependency.rs:130-170 | a text is read as a name in every family exactly when a slash stands before each of its colons |
| Dependency.UnreadableForms | crates/core/src/dependency.rs:130-170 | the empty text, a prefix without a name and an unknown prefix are errors that name what is wrong |
| Signal.First | crates/core/src/signal.rs:144-316 | a lookup finds a signal of its kind whenever there is one |
| Signal.FirstAppend | crates/core/src/signal.rs:144-316 | what a lookup found stays found when signals are appended: the first of a kind wins |
| Signal.KindNameExact | crates/core/src/lockfile.rs:274-292 | two signals have the same recorded kind name exactly when they are of the same kind |
| TrustScore.ComputeAt | crates/core/src/trust_score.rs:95-117 | the scoring loop returns every non-zero delta in order and the clamped sum of the recorded deltas |
| TrustScore.WeightsExact | crates/core/src/trust_score.rs:120-237 | the score that a critical advisory and one more signal leave, for every kind of signal, severity and scorecard |
| TrustScore.BreakdownExact | crates/core/src/trust_score.rs:95-117 | the breakdown names the kind and the weight of every signal that weighs anything, and of no other |
| TrustScore.ContributionsExplainScore | crates/core/src/trust_score.rs:95-117 | the recorded breakdown sums to the total over all signals, so the skipped ones weigh nothing |
| TrustScore.ScoreOrderFree | crates/core/src/trust_score.rs:95-117 | total and score agree on any permutation of the signals |
| TrustScore.AccumulatorCapacity | crates/core/src/trust_score.rs:96-107 | the 32-bit accumulator holds every partial sum of all signal sets of size n exactly for n up to 42,949,674 |
| TrustScore.AgingExact | crates/core/src/trust_score.rs:120-135 | the score never falls with time exactly when the counts of fresh publications and the other evidence satisfy the stated condition at each future publication instant |
| TrustScore.FutureDatedScoreFalls | crates/core/src/trust_score.rs:120-135 | a future-dated publication scores 100 before and 90 at its instant |
| Policy.EvaluateWith | crates/core/src/policy.rs:347-645 | pushing detector by detector and partitioning by severity gives the specified decision, workspace members being allowed outright |
| PolicyProperties.ReasonsExact | crates/core/src/policy.rs:369-620 | a reason is raised exactly when its published condition holds for the resolved knobs and the first signal of its kind |
| PolicyProperties.RankIsMaximum | crates/core/src/policy.rs:622-644 | a decision is exactly as severe as the most severe reason raised |
| PolicyProperties.TighteningNeverRelaxes | crates/core/src/policy.rs:347-829 | under a policy at least as strict on every resolved knob, allowlist and severity, no dependency is judged more leniently |
| PolicyProperties.AgingNeverTightens | crates/core/src/policy.rs:376-390 | when signals age well, a later clock never makes a decision more severe |
| PolicyProperties.AgingExact | crates/core/src/policy.rs:376-390 | no policy ever gets more severe by time alone precisely when the signals age well |
| PolicyProperties.EvidenceNeverRelaxes | crates/core/src/policy.rs:392-620 | appending signals other than publication dates, provenance and scorecards above five leaves every decision at least as severe |
| PolicyProperties.EvidenceExact | crates/core/src/policy.rs:392-620 | those are exactly the signals that can never help any dependency under any policy |
| PolicyMeaning.FlatteningKeepsDecisions | crates/core/src/policy.rs:677-803 | every decision is that of the policy without overrides whose defaults are the settings in force |
| PolicyMeaning.TransitiveIgnoresOverrides | crates/core/src/policy.rs:677-803 | two policies that differ only in their direct overrides decide alike on every transitive dependency |
| PolicyMeaning.OverrideActsAsDefault | crates/core/src/policy.rs:677-803 | for a direct dependency an override acts, setting by setting, as that default would without it |
| PolicyMeaning.RaisedAsPublished | crates/core/src/policy.rs:369-620 | a reason is raised exactly when its condition holds for the settings in force, written out without the engine's own helpers |
| PolicyMeaning.DecisionExact | crates/core/src/policy.rs:622-675 | a decision blocks, warns or allows by the severities of the raised reasons and reports exactly those that are not suppressed |
| PolicyMeaning.ListedInOrder | crates/core/src/policy.rs:622-644 | blocking reasons are listed first, then warnings, each group in the order of the detectors |
| PolicyMeaning.TighterNeverRelaxes | crates/core/src/policy.rs:347-829 | under tighter settings, compared setting by setting, no dependency is judged more leniently |
| PolicyMeaning.CodesExact | crates/core/src/decision.rs:150-173 | each kind of reason has the code listed for it, and no two kinds share one |
| Results.CountDecisions | crates/cli/src/main.rs:1801-1813 | the three counts are the numbers of decisions of each class and add up to the number of results |
| Results.ExitCode | crates/cli/src/main.rs:1815-1826 | the status is 1 exactly when something is blocked or warnings exceed the limit |
| Simulate.DiffExact | crates/cli/src/main.rs:2603-2627 | a change is listed exactly for the results whose decision differs under the candidate |
| Simulate.DiffAppend | crates/cli/src/main.rs:2603-2627 | the changes of two runs joined are the changes of the first followed by those of the second |
| Simulate.UnchangedPolicyLater | crates/cli/src/main.rs:2576-2627 | simulating the unchanged policy later yields no new block, and no warning except where a block was |
| Simulate.StricterCandidate | crates/cli/src/main.rs:2576-2627 | a stricter candidate frees nothing and turns no block into a warning |
| Doctor.BuildSuggestion | crates/cli/src/main.rs:2075-2121 | the walk over blocked results computes the specified suggestion |
| DoctorProperties.ScriptListExact | crates/cli/src/main.rs:2075-2121 | the script bucket lists in order exactly the packages blocked for scripts, each with exactly its script names in order |
| DoctorProperties.SquatListExact | crates/cli/src/main.rs:2075-2121 | the name-squat bucket lists in order exactly the packages blocked for their name, each with the target of its last such finding |
| DoctorProperties.FlagsExact | crates/cli/src/main.rs:2103-2107 | a severity override is suggested exactly when a blocked package carries such a reason |
| DoctorProperties.TotalsExact | crates/cli/src/main.rs:2085-2121 | the totals of the suggestion are the numbers of results, of blocked and of warned ones |
| Doctor.SuggestionEffective | crates/core/src/dependency.rs:113-160 | a suggested name, once parsed, matches its own package exactly when it is non-empty with no colon before its first slash |
| DoctorProperties.MergeNeverTightens | crates/cli/src/main.rs:2230-2276 | no decision gets more severe when the suggestion is merged |
| DoctorProperties.MergeAnswers | crates/cli/src/main.rs:2230-2276 | a blocked package keeps no disallowed-script or name-squat reason after the merge |
| DoctorProperties.MergeKeepsOthers | crates/cli/src/main.rs:2230-2276 | all other reported reasons survive as a multiset |
| DoctorProperties.SecondRunSuggestsNothing | crates/cli/src/main.rs:2075-2121 | a second doctor run over the re-evaluated results has both allowlist buckets empty |
| DoctorReach.MergeAnswersExact | crates/core/src/dependency.rs:130-170 | the suggestion merges and leaves no blocked package an answered finding exactly when every suggested name is plain |
| DoctorReach.StaysBlockedExact | crates/cli/src/main.rs:2230-2276 | a package stays blocked after the merge exactly when it was blocked for something neither answered nor downgraded |
| DoctorReach.SecondRunFlags | crates/cli/src/main.rs:2049-2107 | a second run sets a severity flag exactly when a package that stays blocked reports such a reason, and never one the first run did not set |
| Gather.GatherSignals | crates/cli/src/main.rs:1075-1119 | for every completion order and concurrency, each index is started once in order and written once, in-flight stays within max(1, concurrency), and each result is the reply, one mark of its failure, or nothing for what is not fetched |
| Gather.CompositeSignals | crates/core/src/composite.rs:79-98 | the fan-out returns the supporting children's signals in child order, one unavailability per failed child, and never fails |
| Gather.SharesExact | crates/core/src/composite.rs:79-98 | the fan-out records a signal exactly when a supporting child returned it, or it marks the failure of one |
| Gather.FetchThroughComposite | crates/cli/src/main.rs:1095-1108 | a fetch through the composite is the concatenation of the children's shares, and empty for workspace members |
| Gather.ExtraProviderNeverRelaxes | crates/core/src/composite.rs:79-98 | a last child that reports only incriminating signals, or fails, makes no policy more lenient |
| Gather.FailedFetchIsReported | crates/cli/src/main.rs:1095-1108 | a failed fetch is reported in the decision, which is at least a warning unless its code is suppressed |
| Cache.SignalCache.GetWithAge | crates/cache/src/lib.rs:135-151 | a lookup serves only entries of this schema and tool version and drops any other it meets |
| Cache.SignalCache.Put | crates/cache/src/lib.rs:153-163 | a write stamps the entry with schema, tool version and time, and a failed write changes nothing |
| Cache.SignalCache.Stats | crates/cache/src/lib.rs:184-207 | every entry is counted in exactly one class, and the drop count is the number of entries a read would remove |
| Cache.StatusExact | crates/cache/src/lib.rs:184-207 | which stored values are usable, of a stale schema, of a stale version, and unreadable |
| Cache.CachedProvider.Consult | crates/cache/src/lib.rs:270-288 | before the wait: the answer is a current entry whose age is non-negative and below the lifetime chosen for its signals, or none |
| Cache.CachedProvider.Remember | crates/cache/src/lib.rs:290-294 | after the wait: a success is stored, an error is not, and either is passed on |
| Cache.CachedProvider.Signals | crates/cache/src/lib.rs:270-295 | an uninterrupted call: a servable entry answers without asking; otherwise the provider is asked and a success is stored |
| CacheRuns.RunsStayGrounded | crates/cache/src/lib.rs:135-163 | in every run of overlapping calls, each current entry under the provider's keys was there at the start or is the reply to a waiting call with its key |
| CacheRuns.AnswersComeFromProvider | crates/cache/src/lib.rs:270-295 | each answer is the provider's reply to this call, or an entry of such origin whose age is non-negative and below the lifetime chosen for it |
| CacheRuns.CacheIsTransparent | crates/cache/src/lib.rs:270-295 | for a provider that repeats itself about a package, an answer from the store is what it would reply |
| CacheRuns.ErrorsAreNotServed | crates/cache/src/lib.rs:290-294 | in every run, a key whose every reply was an error is never answered from the store |
| CacheRuns.SuccessIsServed | crates/cache/src/lib.rs:270-295 | a stored success answers every later call for its key, with a working store and within its lifetime, unless the key was written again or the store cleared |
| CacheRuns.CacheKeyExact | crates/cache/src/lib.rs:305-313 | no other package shares a dependency's key exactly when its name and version hold no separator |
| CacheRuns.ProvidersApart | crates/cache/src/lib.rs:305-313 | a key is one of a provider's exactly when it was made for that provider's id, so providers may share a store |
| Lockfile.Build | crates/core/src/lockfile.rs:118-151 | sorting the rows and counting them gives the specified lock |
| Lockfile.LockRecords | crates/core/src/lockfile.rs:118-151 | which input each field of a lock records |
| Lockfile.RowRecords | crates/core/src/lockfile.rs:250-272 | what a row records of its result: identity, directness, source name and decision |
| Lockfile.LockCanonical | crates/core/src/lockfile.rs:118-195 | any order of evaluation and any generation time give the same sorted rows and digest, when results about one package agree on their row |
| Lockfile.LockCanonicalExact | crates/core/src/lockfile.rs:118-151 | every order of evaluation gives the same rows exactly when results about the same name and version give the same row |
| Lockfile.RepeatedPackageOrdered | crates/core/src/lockfile.rs:118-151 | for any result, its top-level and its nested copy give different rows in the two orders of evaluation |
| Lockfile.RowContents | crates/core/src/lockfile.rs:250-272 | a row lists each signal kind once in order, and the decision's reasons permuted into stable code order |
| Lockfile.SummaryExact | crates/core/src/lockfile.rs:130-135 | the summary counts the run's decisions and its classes add up to the total |
| Lockfile.VerifyAgainst | crates/core/src/lockfile.rs:199-240 | equal digests are accepted, which without a collision means equal identities, decisions and summary included; otherwise the specified diff is returned |
| LockPatch.VerifyIsPatch | crates/core/src/lockfile.rs:199-240 | where the hash tells the two identities apart, verification accepts exactly equal identities; otherwise the diff is never empty, turns the old decisions into the new ones, and reports each differing package once |
| LockPatch.DecisionMapHolds | crates/core/src/lockfile.rs:218-220 | the decisions compared are, package by package, those of its last row |
| LockPatch.HeaderExact | crates/core/src/lockfile.rs:203-217 | a changed lockfile or policy digest is reported, old before new and both shortened, exactly when it changed |
| LockPatch.DetailsExact | crates/core/src/lockfile.rs:199-240 | the catch-all line stands exactly where no digest and no decision differs |
| LockPatch.LinesInOrder | crates/core/src/lockfile.rs:218-235 | additions and changes come first and removals last, each group in the order of names and versions |
| Frozen.RowRoundTrip | crates/cli/src/main.rs:693-720 | rebuilding a result from its row and building the row again loses only the signal kinds |
| Frozen.RebuildRecords | crates/cli/src/main.rs:693-720 | what is rebuilt from any row: unknown decisions block, and rows without an ecosystem are npm's |
| Frozen.ReplayFaithful | crates/cli/src/main.rs:693-720 | a replayed lock has the same rows but for signal kinds, the same summary, and the same exit status for any warning limit |
| Frozen.ReplayIdentity | crates/cli/src/main.rs:794-803 | the whole identity survives replay exactly for npm, pnpm and yarn adapters (or one already called frozen) with no signals recorded |
| Sbom.EncodeRoundTrip | crates/core/src/sbom.rs:259-263 | name encoding is reversible exactly for names in which %40 does not occur, and always hides every at-sign |
| Sbom.PurlForms | crates/core/src/sbom.rs:221-234 | the package URLs of unscoped and scoped npm names and of canonical PyPI names, letter by letter |
| Sbom.PurlRoundTrip | crates/core/src/sbom.rs:221-234 | a package URL reads back as its registry family, name and version exactly for safe names |
| Sbom.PurlInjective | crates/core/src/sbom.rs:221-234 | package URLs of safe names agree exactly for the same family, name and version |
| Sbom.PercentCollides | crates/core/src/sbom.rs:259-263 | a literal percent-forty in a name is taken for an encoded at-sign |
| Sbom.BomClosed | crates/core/src/sbom.rs:118-145 | component references strictly increase and are exactly the run's package URLs; the direct edge is exactly the direct ones and stays within them |
| Sbom.PropertiesExact | crates/core/src/sbom.rs:175-200 | a component's properties are its decision, whether it is direct, and one entry for each reported code |
| Sbom.PropertiesInOrder | crates/core/src/sbom.rs:175-200 | properties are in the order of their names and values, and none is listed twice |
| Sbom.FirstResultWins | crates/core/src/sbom.rs:124-129 | of several results with one package URL the component gives name, version and properties of the first |
| Vex.VexClosed | crates/core/src/vex.rs:117-176 | the statements are exactly the reported reasons with the status of their decision, and every product is an SBOM component |
| Vex.StatementsInOrder | crates/core/src/vex.rs:128-134 | statements are in the order of codes and products, and no two neighbours are alike |
| PypiNames.SbomNormalise | crates/core/src/sbom.rs:240-257 | the loop computes the PEP 503 rule for any proper lowercasing: runs of separators to one dash, then lowercase |
| PypiNames.AdapterNormalise | crates/adapters/pypi/src/lib.rs:582-600 | the loop computes the same rule with outer dashes trimmed |
| PypiNames.RuleExact | crates/core/src/sbom.rs:236-257 | one character gives a dash or its lowercase, and two pieces are normalised apart unless separators meet, where one dash is dropped |
| PypiNames.Pep503Exact | crates/core/src/sbom.rs:236-257 | the rule is idempotent and fixes exactly the canonical names, for any proper lowercasing |
| PypiNames.AdapterNameExact | crates/adapters/pypi/src/lib.rs:582-600 | adapter names are canonical, free of outer dashes, and fixed by both normalisers |
| PypiNames.AdapterTrims | crates/adapters/pypi/src/lib.rs:582-600 | the adapter's name is the rule's without the one dash that an outer separator leaves |
| PypiNames.NormalisersAgree | crates/adapters/pypi/src/lib.rs:572-600 | the two normalisers differ exactly on names that begin or end with a separator |
| NameSimilarity.AtDistanceOne | crates/core/src/name_similarity.rs:184-248 | the specialised test is true exactly when the full edit distance with neighbour swaps is one |
| EditDistance.DistanceSymmetric | crates/core/src/name_similarity.rs:179-183 | the distance, and so the near-miss test, is symmetric |
| EditDistance.DistanceOneAt | crates/core/src/name_similarity.rs:195-248 | with the first difference at k, distance one means one insertion, deletion, substitution or swap right there |
| NameSimilarity.Classify | crates/core/src/name_similarity.rs:135-177 | classification follows the specified order: scope, exact and allowed names, look-alikes, sweep |
| NameSimilarity.ClassifyAscii | crates/core/src/name_similarity.rs:135-177 | an unlisted ASCII name of four or more characters is a typo of the first popular name at distance one, or fine when there is none |
| NameSimilarity.LookAlikeExact | crates/core/src/name_similarity.rs:135-281 | a name is reported as a look-alike exactly when it is unscoped, on neither list, and reads, character by character through the fixed table, as a popular name |
| NameSimilarity.InReachExact | crates/core/src/name_similarity.rs:165-170 | a name at distance one passes the length filter exactly when it is ASCII, or has the popular name's length and no character beyond two bytes |
| NameSimilarity.ClassifyExact | crates/core/src/name_similarity.rs:135-177 | any swept name is a typo of the first popular name at distance one that the filter lets through, or fine when there is none |
| NameSimilarity.TypoExact | crates/core/src/name_similarity.rs:135-177 | a typo is reported for swept names only, and only of the first popular name that catches it |
| NameSimilarity.PromiseExact | crates/core/src/name_similarity.rs:135-177 | a swept name at distance one from a popular name is reported exactly when it is ASCII, or narrow with such a neighbour of its own length |
| NameSimilarity.WideNameMissed | crates/core/src/name_similarity.rs:165-170 | axios with a three-byte last character is at distance one and classified as fine |
| Dsse.Pae | crates/core/src/dsse.rs:180-191 | the buffer ends up holding the DSSE v1 encoding of type and payload |
| Dsse.DecodeEncode | crates/core/src/dsse.rs:180-191 | an explicit parser recovers type and payload from every encoding |
| Dsse.EncodeDecode | crates/core/src/dsse.rs:180-191 | only encodings parse |
| Dsse.EncodingInjective | crates/core/src/dsse.rs:180-191 | equal encodings have equal types and equal payloads |
| Dsse.TestVector | crates/core/src/dsse.rs:209-218 | the bytes around a type of 29 and a payload of 11 bytes, as in the protocol's test vector |
| Dsse.SignedForOneEnvelope | crates/core/src/dsse.rs:116-191 | under a key pair that accepts each signature for its own message only, a signature is accepted on its own envelope and refused on every other type or payload |
| Dsse.SignThenVerify | crates/core/src/dsse.rs:116-177 | what is signed verifies against its own type and payload, and against no other expectation |
| Dsse.Verify | crates/core/src/dsse.rs:140-177 | the loop with its early returns gives the specified outcome, error by error |
| Dsse.VerifyExact | crates/core/src/dsse.rs:140-177 | it succeeds exactly when type, payload and key pass and a 64-byte signature is valid for the encoding of this very type and payload with none undecodable before it; it returns the payload |
| Dsse.AnyValidSignatureSuffices | crates/core/src/dsse.rs:140-177 | when all signatures decode, verification succeeds exactly when the checks pass and some signature is valid |
| Dsse.UndecodableAborts | crates/core/src/dsse.rs:165-177 | with the checks passed, an undecodable signature that no valid one precedes gives a decoding error |
| Dsse.OutcomeErrors | crates/core/src/dsse.rs:140-177 | each error names the first check that fails, in the order of the code |
| ScriptScan.CharLengthExact | crates/core/src/script_scan.rs:126-138 | text starts with a well-formed character exactly when it starts with the bytes of a Unicode scalar value, and has their length |
| ScriptScan.BoundaryNearby | crates/core/src/script_scan.rs:126-138 | in valid UTF-8 a character boundary lies within three bytes on either side of any position |
| ScriptScan.ClipWindow | crates/core/src/script_scan.rs:109-138 | the window contains the match, starts and ends at the nearest character boundaries, and is at most max(80, match) + 6 bytes long |
| ScriptScan.WindowExact | crates/core/src/script_scan.rs:109-124 | the window takes at most 80 bytes exactly when the match does and boundaries around its nominal ends overshoot by no more than the room left |
| ScriptScan.UnclippedWindowExact | crates/core/src/script_scan.rs:109-124 | inside a long text it does so exactly when the match does and both nominal ends are boundaries, or one is a byte off for a match of odd length |
| Excerpt.ClipExcerpt | crates/core/src/script_scan.rs:109-124 | the excerpt is the window without outer white space, with an ellipsis on each side where the window left something out |
| Excerpt.ExcerptValid | crates/core/src/script_scan.rs:109-124 | the excerpt is valid UTF-8 |
| Excerpt.ExcerptExact | crates/core/src/script_scan.rs:109-124 | the excerpt is the window less exactly the white space at its ends, with an ellipsis where the window stops short of the script |
| Excerpt.WhiteExact | crates/core/src/script_scan.rs:113 | the characters trimmed are those the Unicode Character Database lists as white space |
| Excerpt.MatchKept | crates/core/src/script_scan.rs:109-124 | a match that begins and ends visibly occurs in the excerpt as a whole |
| Excerpt.CapturedBound | crates/core/src/script_scan.rs:109-124 | without its ellipses the excerpt takes at most max(80, match) + 6 bytes |
| Excerpt.CapturedExact | crates/core/src/script_scan.rs:19-21 | without its ellipses it takes at most 80 bytes exactly when all but 80 bytes of the window are white space at its two ends |
| Excerpt.ShortMatchBeyondPromise | crates/core/src/script_scan.rs:69-124 | the 12 bytes /dev/tcp/h/1 between euro signs give an excerpt that holds 84 bytes of the source in a row |
| Excerpt.LongMatchBeyondPromise | crates/core/src/script_scan.rs:54-124 | the excerpt of a curl command piped to sh, with an address of 80 or more bytes, is that command |
| ScriptScan.WindowValid | crates/core/src/script_scan.rs:109-124 | the excerpt cut at the window is valid UTF-8 |
| BackendPath.NormalizedExact | crates/signals/pypi-sdist/src/lib.rs:359-377 | a normalised path is a fixed point and renders a list of plain names, none of them two dots |
| BackendPath.NormalizedMeans | crates/signals/pypi-sdist/src/lib.rs:359-377 | a path is refused exactly when it starts at the root or climbs; otherwise its named pieces remain |
| BackendPath.IsPythonExact | crates/signals/pypi-sdist/src/lib.rs:406-413 | a member counts as Python exactly when its last named piece ends with .py in any case, behind at least one character |
| BackendPath.WithinIsPrefix | crates/signals/pypi-sdist/src/lib.rs:447-455 | the string test for lying under a root agrees with the prefix order on component lists |
| BackendPath.ArchivePythonPathInBackend | crates/signals/pypi-sdist/src/lib.rs:406-419 | the search over variants and roots returns the specified member path |
| BackendPath.SelectionExact | crates/signals/pypi-sdist/src/lib.rs:406-445 | a Python member is selected exactly when its full or root-stripped component list extends some backend root |

## Left out

- Providers over HTTP, the `sled` store, archives, file discovery, the command line and all rendering: input, output and presentation. A provider's reply, a store failure and each clock reading are parameters instead.
- Policy, lock and document serialisation, SHA-256, Ed25519 and Base64: library code. The digest is an arbitrary function of a lock's identity, `VerifyIsPatch` assumes only that it does not collide on the two identities compared, and signature validity and decoding are arbitrary functions (`SignedForOneEnvelope` and `SignThenVerify` assume a key pair whose signatures are accepted for their own message only).
- Regular-expression matching: a match is any range of the script. The two scripts of `ShortMatchBeyondPromise` and `LongMatchBeyondPromise` contain texts that the named rules match, which is not proved.
- Human-readable text: summaries and remediation hints; the VEX summary sentence is a parameter, and diff lines are structured values instead of formatted strings.
- The other tables and detectors of the provider crates: single folds over library types.
- Timestamps and identifiers of SBOM and VEX documents: constants or copies of the inputs.
- The Unicode lowercase table: library data. PyPI names take lowercasing as a parameter, of which `PypiNames.Proper` asks that a dash stays and that other characters give lowercase characters and no separator; `AsciiProper` shows that ASCII lowercasing is one. npm names and licenses are lowercased in ASCII only, as in the code.
- Binary search in the sorted constant lists is modelled as membership.
- AnswersComeFromProvider: assumes that nobody else writes entries of this very build under the provider's own keys (`Legal`); entries of other builds, other providers and unreadable bytes may appear anywhere.
- SecondRunSuggestsNothing: assumes, like the other merge results, that every suggested name is read back as a bare selector; `MergeAnswersExact` shows that this is exactly when the suggestion works as a whole. YAML quoting of such names is not modelled.
- The doctor's two severity flags need not be clear on a second run: a package that stays blocked sets them again with its warnings, as `SecondRunFlags` states exactly.
- Statements of the VEX document are not claimed to be free of duplicates: its sort key omits the summary and only neighbours are compared.
- GatherSignals: the reply to a call is fixed when the call is made, whatever the scheduling; progress reporting is not modelled.
- Paths are Unix paths; Windows prefixes do not occur in the model.
