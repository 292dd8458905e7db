# Verified models of the CORE validators and derivations

CORE decides offline whether artifacts are acceptable: agent plans, contract programs, decision
traces, routing fixtures, audit trails, release manifests, rule batches, reference indexes. This project models
the algorithms behind those decisions in Dafny and proves what the decisions mean.

| file | models |
|---|---|
| `AgentPlan.dfy` | the plan validator and its dependency check by Kahn's algorithm |
| `ContractProgram.dfy` | the interpreter of straight-line contract programs |
| `RequirementsLock.dfy` | the worklist closure behind the requirements lock |
| `ContractExecutability.dfy` | the search for open objects in a schema with shared or cyclic parts |
| `ReleaseManifest.dfy` | building and validating the sealed v12.0.0 manifest |
| `Canonicalization.dfy` | canonical JSON, a reader for it, and the key order of RFC 8785 |
| `AuditEvents.dfy`, `AuditDerivation.dfy`, `AuditTrail.dfy` | audit events, the lists derived from reports, and their index |
| `DecisionTrace.dfy` | the trace validator and its hash chain |
| `ExpertRouter.dfy` | fixture validation, routing, and the audit record of a routing |
| `RuleAnchor.dfy` | the Merkle tree over the entries of a rule batch, its proofs and their verification |
| `BoundedReader.dfy`, `Utf8.dfy` | the window reader, whose offsets count characters and whose limit counts bytes |
| `Ordering.dfy`, `PyText.dfy`, `Hashing.dfy`, `Results.dfy` | sorting, string methods, the hash assumption, result types |

Methods follow the loops of the program and are proved against functions and predicates that say
what is wanted (an execution order exists, a package is reachable, a value is resolved backwards from
the program text); lemmas prove the rest about those. A validator is specified twice: its error list is
empty exactly for what deserves acceptance, and each error is in it exactly when its own cause is present.

Each main operation also has a predicate that reads its result off the data alone, with the field names and
constants written out, and that uses none of the functions the operation is specified with: `PlanSays` and
`PlanCauses`, `IsRun`, `LockSays`, `ListsOpenObjects`, `ManifestSays` and `BuiltSays`, `Writes`, `EventFor`,
`CompatibilityTrail`, `ExpertTrail` and `GaiaTrailTells`, `TraceSays`, `FixtureSays`, `ClaimSays`, `StartsAt`,
`EndsAt` and `Holds`. The operation's contract, or a lemma about its specification, says that the result is as
the predicate has it.

SHA-256 is a function parameter. An injective function from all texts to texts of one length does not
exist, so nothing is assumed of the hash in general: a theorem that needs it assumes `NoCollision` for
the two inputs it compares, and nothing else. `RuleAnchor` assumes `CollisionFree` for the two finite sets
of texts it compares, and that answers look like fingerprints. Regular expressions, timestamp parsing, the
JSON schema, `str()`, `lower()`, float rounding and registry operations are function or value parameters.

Where the code does not do what it or its documentation says:

- `canonical_json_dumps` is documented as RFC 8785 serialisation, but sorts keys by code point where
  section 3.2.3 of RFC 8785 sorts by UTF-16 code unit. `Rfc8785OrderIff` gives the exact condition,
  `NotAlwaysRfc8785` an object on which they differ.
- `max_bytes` is documented as the most bytes an agent may read. A cut through a character puts U+FFFD
  in its place, which may be longer than what it replaces: `ByteLimit` says when the limit is passed
  (by one or two bytes), `LimitIsNotAlwaysKept` gives a file. After a cut, `end_offset` adds bytes to
  characters; `CutWindowIsSliceIff` says when it is still the end of the window (`CutIsFaithful`) and
  `RunsOverIff` when the window declared this way contains the start of another reference.
- A duplicate start marker is reported only if two occurrences do not overlap: `OutcomeOfRead` gives the
  exact condition, `OverlapIsNotReported` a marker that occurs twice and is read all the same.
- `_normalize_value` keeps the last of the values whose keys have one text under `str()`, so the insertion
  order of a dictionary can show: `DictOrderShows` gives a dictionary with the keys 1 and `"1"`,
  `DictOrderShowsIff` the exact condition.
- An odd last node of a Merkle level is paired with itself, so a root does not pin how many entries lie
  under it: `RootForgetsLength` gives two lists, `RootPinsIff` says exactly which lists share a root. Without
  repeated entries, which the batch validator refuses, the root pins the list (`RootPinsBatch`). The validator
  checks the proof of each entry and does not recompute the root, so it also takes a part of a batch:
  `AcceptedIsMember` and `BuiltClaimIsAccepted` say what an accepted proof shows.
- The report event of a derivation takes the number of events as its tick, while the items take twice
  their position: after a skipped item that sorts before a kept one, the report is not the last event.
  `ReportIsLastIff` gives the exact condition, `ReportIsNotAlwaysLast` a report.
- `validate_agent_plan` raises `KeyError` instead of reporting errors for some plans: exactly those with
  a step that has no index, or whose index is out of range while it depends on an index in range
  (`RaisesKeyError` in the contract of `ValidateAgentPlan`). `KeyErrorHappens` gives a plan whose only
  faults are of this kind.

## Model

| member | source | states |
|---|---|---|
| AgentPlan.TopologicalSort | scripts/validate_agent_plan.py:151-171 | True exactly when an execution order respecting every in-range dependency on another step exists, False exactly when the dependencies contain a cycle, KeyError exactly when some step cannot be indexed; repeated and out-of-range dependencies allowed |
| AgentPlan.UnvisitedTrapped | scripts/validate_agent_plan.py:164-171 | when the queue runs dry early, the steps never visited contain a cycle and no execution order exists |
| AgentPlan.TrappedImpliesCycle | scripts/validate_agent_plan.py:151-152 | a set of steps in which each depends on another member contains a cycle, by the pigeonhole principle |
| AgentPlan.ScheduleExcludesCycle | scripts/validate_agent_plan.py:151-152 | an execution order and a cycle cannot both exist |
| AgentPlan.BuildTables | scripts/validate_agent_plan.py:153-161 | the adjacency lists and in-degrees of all edges with their repetitions, or failure exactly for a step that cannot be indexed |
| AgentPlan.Release | scripts/validate_agent_plan.py:167-170 | after a step is executed the in-degrees count the edges from steps still waiting, and the queue gains exactly the steps that became ready, once each |
| AgentPlan.CheckDuplicates | scripts/validate_agent_plan.py:230-237 | an error for exactly the indices that occur twice |
| AgentPlan.SortedRangeIsDistinct | scripts/validate_agent_plan.py:229-237 | indices that sort to 0..n-1 repeat nothing, so skipping the duplicate scan loses no error |
| AgentPlan.ValidateAgentPlan | scripts/validate_agent_plan.py:176-296 | no errors exactly for acceptable plans, and so exactly for those that `PlanSays` describes; each error exactly when its cause is present, those of the header also for a plan without steps; KeyError exactly when some step cannot be indexed |
| AgentPlan.FaultlessSteps | scripts/validate_agent_plan.py:225-287 | with no repeated index, the range and reference checks find nothing exactly when the indices are a permutation of 0..n-1 and every dependency names a step |
| AgentPlan.FaultlessIffAcceptable | scripts/validate_agent_plan.py:176-296 | no error has a cause exactly when the plan is acceptable |
| AgentPlan.AcceptableIff | scripts/validate_agent_plan.py:176-296 | acceptable plans are those whose header and steps declare what they should, whose indices are 0..n-1 without repetition, whose dependencies are in range, that act outside only one step at a time, and whose steps can be executed in some order |
| AgentPlan.PlanFaultIff | scripts/validate_agent_plan.py:176-296 | every error is present exactly for what it says, read off the fields of the plan |
| AgentPlan.KeyErrorHappens | scripts/validate_agent_plan.py:157-161 | a plan with one step, index 1, that depends on step 0: well declared, out of range, and a KeyError |
| AgentPlan.AcceptedPlansExecute | scripts/validate_agent_plan.py:225-296 | an accepted plan has an order of all its steps in which each comes after all others it depends on |
| ContractProgram.RunInstruction | core_runtime/core/contract_program.py:62-135 | one round of the loop stops exactly when the instruction is not sound, with the status and error that its place in the program gives, and otherwise the value store holds what every output resolves to |
| ContractProgram.RunDerive | core_runtime/core/contract_program.py:82-112 | copy, count and registry derivations produce the resolved value or stop with their own error |
| ContractProgram.ExecuteContractProgram | core_runtime/core/contract_program.py:32-140 | the whole run equals the outcome that the program text and the inputs determine; a passing run stages the transitions of all transition instructions in program order, any other none; emissions come in program order with the values of the last writers of their keys; nothing is ever authorised |
| ContractProgram.OutcomeIsRun | core_runtime/core/contract_program.py:62-138 | each instruction before the stop works and writes the input loaded, the copy or the item count of what the last writer of its source wrote, or the registry's answer; the stop has the status and error of the first instruction that does not work or that exceeds the item limit; the last halt gives the status of a run without errors |
| ContractProgram.TransitionsInOrder | core_runtime/core/contract_program.py:113-121 | the k-th staged transition is that of the k-th transition instruction |
| ContractProgram.EmitsInOrder | core_runtime/core/contract_program.py:122-128 | the k-th emission has the code of the k-th emit instruction and the value of the last writer of its key |
| ContractProgram.PyEqualIff | core_runtime/core/contract_program.py:77 | a value equals a scalar when they are the same or stand for the same number, True being 1 and False 0 |
| ContractProgram.ErrorFreeIff | core_runtime/core/contract_program.py:62-135 | a run has no error exactly when every instruction is sound (inputs present, assertions hold, keys are outputs of earlier instructions, counted values are collections) and the distinct outputs fit the item limit |
| ContractProgram.FailingRun | core_runtime/core/contract_program.py:62-138 | a failing run has exactly one error, stages nothing, and keeps exactly the emissions of the instructions before the first that fails |
| ContractProgram.PassesIff | core_runtime/core/contract_program.py:129-138 | for every program, wherever it halts: it passes exactly when its last halt says so and the run has no error |
| ContractProgram.LastHaltDecides | core_runtime/core/contract_program.py:129-130 | a halt does not leave the loop; the last one sets the status, and without any the status is passed |
| ContractProgram.OutcomeAgrees | core_runtime/core/contract_program.py:65-81 | a run depends on no input beyond those that the instructions up to its stop read |
| ContractProgram.InputLocality | core_runtime/core/contract_program.py:65-81 | inputs that agree on the keys read by loads and asserts give the same run |
| ContractProgram.InputExtension | core_runtime/core/contract_program.py:65-81 | a run that missed no input is unchanged by further inputs |
| RequirementsLock.BuildLockEntries | scripts/generate_requirements_lock.py:39-66 | terminates over cyclic requirements and returns exactly the lockable packages reachable from the seeds through lockable packages, once each, sorted, with their versions |
| RequirementsLock.EnqueueRequirements | scripts/generate_requirements_lock.py:57-64 | every applicable requirement that is installed and not excluded gets queued, and nothing that no reachable package asks for |
| RequirementsLock.ClosureComplete | scripts/generate_requirements_lock.py:44-64 | once the queue is empty every reachable package has been seen |
| RequirementsLock.LockUnique | scripts/generate_requirements_lock.py:66 | a site and its seeds have one lock |
| RequirementsLock.LockIff | scripts/generate_requirements_lock.py:35-66 | the lock, read off the site: chains of installed packages without a vendor prefix, from a seed, each named by an applicable requirement of the one before |
| RequirementsLock.OrderIsIrrelevant | scripts/generate_requirements_lock.py:42-66 | reordering or repeating seeds and requirements does not change the lock |
| ContractExecutability.Search.OpenObjectPaths | core_runtime/core/contract_executability.py:109-132 | one call visits exactly nodes reachable from its argument, leaves everything it visited fully expanded, and finds the open nodes among them once each, with the path that leads there |
| ContractExecutability.OpenObjectPaths | core_runtime/core/contract_executability.py:109-132 | on any graph, sharing and cycles included, one path for each open object that leads from the root through properties, definitions, $defs, items, oneOf, anyOf and allOf, spelt as these are named and numbered, in the order of the schema; no path exactly when every such object is closed |
| ContractExecutability.EdgesAreChildren | core_runtime/core/contract_executability.py:119-131 | the recursive calls go to exactly the parts of a dictionary under its seven keywords, in order, each with the step that names it |
| ContractExecutability.ReportListsOpenObjects | core_runtime/core/contract_executability.py:109-132 | what the search reports is what the schema says, parents before their parts and earlier parts before later ones |
| ContractExecutability.SaturatedIsComplete | core_runtime/core/contract_executability.py:112-114 | a set of nodes that no edge leaves holds everything reachable |
| ContractExecutability.ThroughChild | core_runtime/core/contract_executability.py:119-131 | what a recursive call reports, with its path prefix, is a report about the caller |
| ContractExecutability.Join | core_runtime/core/contract_executability.py:119-131 | the reports of successive calls over disjoint visits add up without repetition |
| ReleaseManifest.BuildFrozenManifest | scripts/validate_frozen_release_manifest_v12_0.py:69-95 | succeeds exactly when the timestamp has a timezone and every inventory file exists, with the manifest of the checkout, whose fields and digests `BuiltSays` writes out; otherwise names the first missing path in order |
| ReleaseManifest.ValidateReleaseManifest | scripts/validate_frozen_release_manifest_v12_0.py:98-158 | no errors exactly for a readable manifest that is genuine, and so exactly for one that `ManifestSays` describes; each error exactly when its cause is present |
| ReleaseManifest.InventoryByParts | scripts/validate_frozen_release_manifest_v12_0.py:119-134 | order, uniqueness, path set and role checks together hold exactly when the artifacts list the inventory in order |
| ReleaseManifest.FilesByParts | scripts/validate_frozen_release_manifest_v12_0.py:135-151 | the file loop reports nothing exactly when every artifact lies inside the checkout, exists and, if asked, has the recorded hash |
| ReleaseManifest.GenuineIff | scripts/validate_frozen_release_manifest_v12_0.py:98-158 | genuine manifests have the constants of the release, list the inventory by strictly increasing paths with its roles, name files inside the checkout, with the digests of their bytes if asked, and carry the fingerprint of their body |
| ReleaseManifest.BuiltIs | scripts/validate_frozen_release_manifest_v12_0.py:69-95 | the manifest built is of this kind, with the digests of the files as they are |
| ReleaseManifest.ContentFaultIff | scripts/validate_frozen_release_manifest_v12_0.py:98-158 | every error is present exactly for what it says about the manifest and the checkout |
| ReleaseManifest.LiveValidIffBuilt | scripts/validate_frozen_release_manifest_v12_0.py:69-158 | live validation accepts a manifest exactly when it is the one the builder makes of the same checkout and timestamp |
| ReleaseManifest.ManifestPinsFiles | scripts/validate_frozen_release_manifest_v12_0.py:148-151 | two checkouts that pass live validation with the same manifest have the same bytes in every inventory file |
| ReleaseManifest.HistoricalValidIff | scripts/validate_frozen_release_manifest_v12_0.py:98-158 | validation without live hashes accepts exactly the manifests that equal the built one of the same checkout and timestamp apart from the file digests, which need only look like digests, and the fingerprint, which must be that of the body |
| Canonicalization.RoundTrip | core_runtime/core/canonicalization.py:14-25 | reading canonical text back gives the value with its items sorted, with escapes as in section 7 of RFC 8259 |
| Canonicalization.DumpsWrites | core_runtime/core/canonicalization.py:14-25 | the canonical text is the JSON text of the value (RFC 8259) with the keys of every object in increasing order, no white space, quotes, backslashes and controls escaped and nothing else |
| Canonicalization.UnitsIff | core_runtime/core/canonicalization.py:15 | the code units that keys are compared by in RFC 8785 are those of UTF-16 (section 2.1 of RFC 2781) |
| Canonicalization.DumpsInjective | core_runtime/core/canonicalization.py:14-25 | two values have the same canonical text exactly when they are equal up to the order of dictionary items |
| Canonicalization.CanonIffSame | core_runtime/core/canonicalization.py:20-22 | sorting the items at every level identifies exactly the values that are equal as dictionaries |
| Canonicalization.HashComparesValues | core_runtime/core/canonicalization.py:28-33 | equal canonical hashes mean equal values, unless the two texts collide |
| Canonicalization.OrdersAgreeUnlessClash | core_runtime/core/canonicalization.py:22 | code point order and UTF-16 order differ on two keys exactly when their first difference sets U+E000..U+FFFF against a supplementary character |
| Canonicalization.Rfc8785OrderIff | core_runtime/core/canonicalization.py:14-25 | the text has the key order of section 3.2.3 of RFC 8785 exactly when no object in the value holds two keys that clash |
| Canonicalization.PlainKeysDoNotClash | core_runtime/core/canonicalization.py:15 | keys without code points in U+E000..U+FFFF never clash |
| Canonicalization.NotAlwaysRfc8785 | core_runtime/core/canonicalization.py:15 | an object whose text differs from the RFC 8785 order |
| AuditEvents.NormalizeTwice | core_runtime/core/audit_event.py:39-54 | normalising a normalised value changes nothing |
| AuditEvents.NormalizeIsNormal | core_runtime/core/audit_event.py:39-54 | a normalised value is sorted, repeats no key and holds only quantised floats, at every level |
| AuditEvents.NormalTextsDiffer | core_runtime/core/audit_event.py:57-74 | normalised values have the same canonical text exactly when they are equal |
| AuditEvents.SetOrderIsForgotten | core_runtime/core/audit_event.py:52-53 | the iteration order of a set does not matter |
| AuditEvents.DictOrderIsForgotten | core_runtime/core/audit_event.py:44-47 | the insertion order of a dictionary does not matter when no two items contend for one key text with different values |
| AuditEvents.DictOrderShowsIff | core_runtime/core/audit_event.py:44-47 | some other insertion order gives another result exactly when two items contend for one key text |
| AuditEvents.DictOrderShows | core_runtime/core/audit_event.py:44-47 | a dictionary with the keys 1 and "1" that normalises differently in its two insertion orders |
| AuditEvents.LastInsertedStays | core_runtime/core/audit_event.py:44-47 | of items with one key text the one inserted last is kept |
| AuditEvents.MembersOfDict | core_runtime/core/audit_event.py:44-47 | a normalised dictionary has exactly the last item of each key text, normalised |
| AuditEvents.ContainersAre | core_runtime/core/audit_event.py:40-53 | lists and tuples keep their elements in place, sets keep them all, sorted by canonical text |
| AuditEvents.CorrelationIdOf | core_runtime/core/audit_event.py:82-128 | every namespaced constructor gives the namespace and the stripped id, or fails exactly on a blank id |
| AuditEvents.ValidateTwice | core_runtime/core/audit_event.py:82-96 | an accepted correlation id is accepted again unchanged |
| AuditEvents.InterpretedIsValid | core_runtime/core/audit_event.py:188-231 | whatever construction accepts satisfies the event invariant: id and fingerprint recomputed, payload normalised |
| AuditEvents.ConstructIff | core_runtime/core/audit_event.py:188-231 | construction gives exactly the event whose correlation id is the stripped one, whose payload is the normalised one, and whose id and fingerprint are the hashes of the texts with these fields, and refuses every other schema, authority, negative tick, declared id and fingerprint |
| AuditEvents.CorrelationIff | core_runtime/core/audit_event.py:82-96 | an id is accepted exactly when, stripped, it is an allowed namespace, two colons, and more than white space |
| AuditEvents.DictRoundTrip | core_runtime/core/audit_event.py:233-256 | from_dict(to_dict(e)) succeeds and equals e |
| AuditEvents.SameIdIff | core_runtime/core/audit_event.py:140-154 | two events share an id exactly when type, correlation, tick and payload agree, short of a collision |
| AuditEvents.BodyTextsDiffer | core_runtime/core/audit_event.py:157-174 | the fingerprinted text determines every field |
| AuditEvents.FingerprintPinsEvent | core_runtime/core/audit_event.py:212-225 | two events with one fingerprint are the same event |
| AuditEvents.TamperingIsRejected | core_runtime/core/audit_event.py:188-231 | a record that keeps the stored fingerprint, whatever else was changed and to whatever, is accepted exactly when it still says what the event says and declares no other id, and then it is the event |
| AuditTrail.AuditTrailIndex.PostInit | core_runtime/core/audit_trail_index.py:28-57 | fails exactly when two events share an id, naming one that does and changing nothing; otherwise the events are the given ones, ticks never decrease, events of one tick are sorted by correlation, type and id, and all four tables agree with a scan of them |
| AuditTrail.AuditTrailIndex.FillTables | core_runtime/core/audit_trail_index.py:31-42 | the loop fills four consistent tables or finds an id that occurs twice in the given events |
| AuditTrail.AuditTrailIndex.LookupEvent | core_runtime/core/audit_trail_index.py:63-64 | the event with the id, or none exactly when no event has it |
| AuditTrail.AuditTrailIndex.LookupCorrelation | core_runtime/core/audit_trail_index.py:66-67 | exactly the events with this correlation id, in the order of the trail |
| AuditTrail.AuditTrailIndex.LookupType | core_runtime/core/audit_trail_index.py:69-70 | exactly the events with this type, in the order of the trail |
| AuditTrail.AuditTrailIndex.LookupTick | core_runtime/core/audit_trail_index.py:72-73 | exactly the events with this tick, in the order of the trail |
| AuditTrail.ResortIsIdle | core_runtime/core/audit_trail_index.py:46-57 | sorting each group again changes nothing |
| AuditTrail.PermutationsIndexAlike | core_runtime/core/audit_trail_index.py:28-61 | permutations of an event list succeed together and give the same sorted events |
| AuditTrail.SameIndex | core_runtime/core/audit_trail_index.py:44-57 | and the same four tables |
| AuditTrail.FingerprintPinsTrail | core_runtime/core/audit_trail_index.py:94-100 | equal trail fingerprints mean equal event lists |
| AuditTrail.TrailFingerprintIs | core_runtime/core/audit_trail_index.py:94-100 | the fingerprint is the hash of the canonical text of the events, in order and each with its eight fields, and of the schema version |
| AuditDerivation.DeriveCompatibility | core_runtime/core/audit_event.py:279-364 | the two events per kept pair and the report event, or an error exactly when the report id is blank; no event of its own making is rejected; types, ticks, correlations and payloads are as `CompatibilityTrail` writes them out |
| AuditDerivation.DeriveExpertReport | core_runtime/core/audit_event.py:382-453 | the same for expert reports, as `ExpertTrail` writes them out |
| AuditDerivation.DeriveGaiaSurrogate | core_runtime/core/audit_event.py:650-741 | summary, mismatches in canonical order and completion, as `GaiaTrailTells` writes them out; an error exactly for a blank run id or a total, rate, threshold or row index that is no number |
| AuditDerivation.CompatibilityTrailIs | core_runtime/core/audit_event.py:268-364 | the rows are sorted by pair, profile, proposal and status; event 2k reports the k-th pair with an id as checked, event 2k + 1 as rejected exactly when its lowered status is not compatible, else as certified exactly when that word occurs in one of its lowered ids, else as accepted, with the decision in the payload; the last event counts the rows |
| AuditDerivation.ExpertTrailIs | core_runtime/core/audit_event.py:367-453 | the rows are sorted by proposal, file and decision; event 2k reports the k-th proposal with an id as evaluated, event 2k + 1 under the type that its decision stands for, rejected when it stands for none |
| AuditDerivation.GaiaTrailIs | core_runtime/core/audit_event.py:631-741 | the mismatches are sorted by row, source and proposal; the events are the summary, one per mismatch and the completion, with the figures given or their defaults |
| AuditDerivation.ItemTicks | core_runtime/core/audit_event.py:295-345 | item ticks strictly increase and stay below twice the number of items |
| AuditDerivation.ReportIsLastIff | core_runtime/core/audit_event.py:295-364 | the report event has the greatest tick exactly when no skipped item sorts before a kept one, and then the ticks are 0..2m |
| AuditDerivation.ReportIsNotAlwaysLast | core_runtime/core/audit_event.py:296-363 | a report whose last event does not have the greatest tick |
| AuditDerivation.TickedDiffer | core_runtime/core/audit_event.py:279-453 | any two events of a report differ in tick or correlation, as the report namespace is disjoint from the items' |
| AuditDerivation.CompatibilityIdsDistinct | core_runtime/core/audit_event.py:279-364 | so the derived ids are distinct and indexing them cannot fail |
| AuditDerivation.ExpertIdsDistinct | core_runtime/core/audit_event.py:382-453 | the same for expert reports |
| AuditDerivation.GaiaTrail | core_runtime/core/audit_event.py:685-741 | one event per mismatch and two more, with ticks 0, 1, 2 and so on, and distinct ids |
| DecisionTrace.ValidateTrace | scripts/validate_agent_decision_trace.py:59-221 | no errors exactly for acceptable traces: ids are the positions, any two timestamps are in order, counts are the true counts, the root is the root of the entries; these are the traces that `TraceSays` describes; each error exactly when its cause is present |
| DecisionTrace.CheckIds | scripts/validate_agent_decision_trace.py:133-139 | no error exactly when the ids are 0..N-1 in order; a repeated id is reported as such, and only otherwise a gap |
| DecisionTrace.CheckTimestamps | scripts/validate_agent_decision_trace.py:141-153 | comparing neighbours accepts exactly the traces in which every pair of timestamps is in order, and otherwise names the first entry that is out of order with any before it |
| DecisionTrace.StampsDecide | scripts/validate_agent_decision_trace.py:147-153 | neighbouring stamps in order means all present timestamps in order, entries without one skipped |
| DecisionTrace.CountEntryTypes | scripts/validate_agent_decision_trace.py:211-215 | the table counts exactly the types that occur, a null type apart from the empty one |
| DecisionTrace.CheckSummary | scripts/validate_agent_decision_trace.py:155-219 | no error exactly when governance, integrity and summary fields tell the truth about the entries; each error exactly when its own statement is false |
| DecisionTrace.AcceptableIff | scripts/validate_agent_decision_trace.py:59-221 | acceptable traces, read off their JSON: types, summaries, evidence and ids of the entries, the number of violations and of each type as the size of a set of positions |
| DecisionTrace.GovernanceFaultIff | scripts/validate_agent_decision_trace.py:155-171 | a count mismatch exactly when the declared number differs from the number of rejections whose metadata has a governance_violation that is true to Python; a missing review exactly when there are any and none is required |
| DecisionTrace.EntryFaultIff | scripts/validate_agent_decision_trace.py:100-131 | each error of an entry exactly for what it says about its fields |
| DecisionTrace.DeclaredIff | scripts/validate_agent_decision_trace.py:211-219 | a table is right exactly when no entry has a null type and each type has the number of entries that show it |
| DecisionTrace.ChainRootIs | scripts/validate_agent_decision_trace.py:181-187 | the root is the hash of the entries' hashes, one after the other, each of the canonical text of the entry without its evidence_hash, in whatever order it lists its fields |
| DecisionTrace.JoinSplits | scripts/validate_agent_decision_trace.py:183-187 | joined digests of one length can be told apart again |
| DecisionTrace.ChainRootPinsEntries | scripts/validate_agent_decision_trace.py:181-191 | accepted traces with one chain root, whatever the types of their entry fields, have equally many entries, equal pairwise but for evidence_hash, short of a collision among the texts hashed |
| DecisionTrace.SameEntriesSameRoot | scripts/validate_agent_decision_trace.py:183-187 | conversely such entries give the same root |
| RuleAnchor.MerkleRootAndProofs | core_runtime/core/rule_anchor.py:623-653 | the loop over the levels gives the root and, for each leaf, the list of siblings on its way up; an error exactly for no leaves, or several of which one is no fingerprint |
| RuleAnchor.ProofsVerify | core_runtime/core/rule_anchor.py:643-678 | for every non-empty list of leaves, of odd length too, each proof built leads from its leaf to the root |
| RuleAnchor.BuiltClaimIsAccepted | core_runtime/core/rule_anchor.py:623-678 | every entry of a batch with the proof built for it is accepted against the root |
| RuleAnchor.VerifyRuleAnchorProof | core_runtime/core/rule_anchor.py:656-678 | accepted exactly when the leaf hash is that of the entry, every node is well formed, and the nodes lead to the root |
| RuleAnchor.AcceptsIff | core_runtime/core/rule_anchor.py:599-678 | a claim is accepted exactly when there are hashes, from that of its leaf to the root, of which each is the hash of the node prefix, the left and the right child, byte for byte, on the side that its node names |
| RuleAnchor.DecodesIff | core_runtime/core/rule_anchor.py:149-154 | exactly sha256: with 64 lowercase hexadecimal digits decodes, to the bytes these stand for |
| RuleAnchor.ProofTurns | core_runtime/core/rule_anchor.py:634-651 | step i of the proof of leaf k has its sibling on the left exactly when binary digit i of k is 1 |
| RuleAnchor.AcceptedIsMember | core_runtime/core/rule_anchor.py:656-678 | against the root of a batch a well-formed claim is accepted exactly when its proof, of any length, runs along a path of the batch's tree to the leaf of the entry, and then the entry is one of the batch, short of a collision among the texts hashed |
| RuleAnchor.ProofIsPath | core_runtime/core/rule_anchor.py:660-678 | a proof that leads to the root of a tree runs from one of its leaves to the top along its siblings, short of a collision: neither a node passes for a leaf nor a leaf for a node |
| RuleAnchor.PlacePinsEntry | core_runtime/core/rule_anchor.py:656-678 | two claims accepted for one root, whatever it is, whose proofs turn alike have the same entry and the same proof, short of a collision |
| RuleAnchor.HashPinsTree | core_runtime/core/rule_anchor.py:608-620 | trees of any two shapes with one hash are the same tree, short of a collision |
| RuleAnchor.LeafBytesPin | core_runtime/core/rule_anchor.py:599-612 | entries with different leaf fields are hashed from different bytes |
| RuleAnchor.BytesPinFingerprint | core_runtime/core/rule_anchor.py:149-154 | the 32 bytes of a fingerprint determine it |
| RuleAnchor.GrowCompletes | core_runtime/core/rule_anchor.py:634-651 | the tree of a batch is perfect, and its leaves are the entries with the last block of each odd level repeated |
| RuleAnchor.RootPinsIff | core_runtime/core/rule_anchor.py:623-653 | batches have one root exactly when their lists agree once filled up this way, short of a collision |
| RuleAnchor.RootPinsBatch | core_runtime/core/rule_anchor.py:623-653 | batches without repeated entries have one root exactly when they list the same entries in the same order, short of a collision |
| RuleAnchor.RootForgetsLength | core_runtime/core/rule_anchor.py:642-646 | three entries have the same root as four in which the last stands twice |
| ExpertRouter.ValidatePayload | scripts/expert_router_common.py:44-76 | no errors exactly for a fixture that can be routed, and so exactly for one that `FixtureSays` describes; each error exactly when its cause is present |
| ExpertRouter.ValidateProposals | scripts/expert_router_common.py:55-76 | no errors exactly when every proposal is complete and no two share their stripped ids; each error exactly for the proposals it applies to, a duplicate for those that come second |
| ExpertRouter.FixtureOkIff | scripts/expert_router_common.py:44-76 | fixtures that can be routed, read off their fields: complete proposals, no two with the same stripped ids |
| ExpertRouter.FixtureFaultIff | scripts/expert_router_common.py:44-76 | every error is present exactly for what it says about the fixture |
| ExpertRouter.TypedCount | scripts/expert_router_common.py:115-118 | the proposals routed are those of the fixture, as often as they occur |
| ExpertRouter.SelectionPartitions | scripts/expert_router_common.py:115-154 | selected and rejected share out the proposals by eligibility, higher priorities first and ids in order within one priority, with their reasons, and the counts add up |
| ExpertRouter.KeySeparates | scripts/expert_router_common.py:67-70 | the duplicate check makes the sort key tell any two proposals apart |
| ExpertRouter.ProposalOrderIsIrrelevant | scripts/expert_router_common.py:115-154 | a permutation of the proposals is accepted too and gives the same evaluation |
| ExpertRouter.AuditRecordIsComplete | core_runtime/core/audit_event.py:494-551 | the audit record drops no selected or rejected expert and its counts match its lists |
| BoundedReader.ReadBoundedReference | scripts/read_bounded_reference.py:125-213 | the imperative reading equals the window, or the error, that the text, the markers and the index entry determine |
| BoundedReader.LocationIsDeclared | scripts/read_bounded_reference.py:125-177 | a successful read starts at the first position without a line break behind the first start marker; it ends at the nearest foreign start marker, at the first end marker, at the smaller of limit and text length, or with the text, as its policy says |
| BoundedReader.ReadIsDeclared | scripts/read_bounded_reference.py:125-217 | and its window holds the text between them without the breaks and spaces at its end, or what the first max_bytes bytes decode to, with its length in bytes and its hash |
| BoundedReader.FindAllMarkers | scripts/read_bounded_reference.py:48-56 | the markers are in order of offset, and are exactly the matches of both kinds |
| BoundedReader.NearestForeign | scripts/read_bounded_reference.py:147-153 | the marker loop finds the nearest start marker of another reference behind the start, and none exactly when there is none |
| BoundedReader.OutcomeOfRead | scripts/read_bounded_reference.py:125-171 | each error code exactly when its cause is present: no start marker, two that do not overlap, no end marker behind the start |
| BoundedReader.OverlapIsNotReported | scripts/read_bounded_reference.py:128-134 | a start marker that occurs at two places of the file, and a read that succeeds |
| BoundedReader.WindowIsSlice | scripts/read_bounded_reference.py:179-185 | a window that is not cut is the slice between its offsets, these are in order exactly when the start marker spans no foreign one, and exactly the trailing breaks and spaces are dropped |
| BoundedReader.ByteLimit | scripts/read_bounded_reference.py:187-195 | bytes_read is at most max_bytes + 2, and over max_bytes exactly when the cut leaves one or two bytes of a character |
| BoundedReader.CutWindowIsSliceIff | scripts/read_bounded_reference.py:187-195 | for every file: a cut window is the slice between its offsets exactly when that slice is ASCII and does not run past the file, or the cut goes through a replacement character that ends the slice |
| BoundedReader.CutNeedsAscii | scripts/read_bounded_reference.py:189-193 | without replacement characters in the file only the first case remains |
| BoundedReader.CutKeepsReplacement | scripts/read_bounded_reference.py:189-193 | a file on which the second case occurs |
| BoundedReader.AsciiWindow | scripts/read_bounded_reference.py:179-195 | over ASCII text the window is the slice, bytes_read is end minus start, and the limit is kept |
| BoundedReader.RunsOverIff | scripts/read_bounded_reference.py:147-195 | under next_marker the declared window contains the start of another reference exactly when it is cut although it is shorter than the limit in characters |
| BoundedReader.AsciiStopsBeforeMarkers | scripts/read_bounded_reference.py:147-195 | and so never over ASCII text |
| BoundedReader.LimitIsNotAlwaysKept | scripts/read_bounded_reference.py:187-195 | a file read with limit five that reports six bytes and ends behind the end of the file |
| BoundedReader.DriftIff | scripts/read_bounded_reference.py:197-220 | reading against the fingerprint of an earlier window reports drift exactly when the content changed, short of a collision |
| Utf8.DecodeCut | scripts/read_bounded_reference.py:189-193 | decoding the first bytes of encoded text gives the characters that fit whole, and one U+FFFD if the cut goes through a character |
| Utf8.EncodeIff | scripts/read_bounded_reference.py:188-195 | a character is encoded as the table in section 3 of RFC 3629 says |
| Utf8.DecodeEncode | scripts/read_bounded_reference.py:188-195 | decoding undoes encoding |
| Ordering.SortIsStable | core_runtime/core/audit_event.py:290-293 | rows that the sort key cannot tell apart keep their order |
| Ordering.StrLeqIff | core_runtime/core/audit_event.py:258-264 | strings are in order when one begins the other or has the smaller code point where they first differ |
| PyText.StripIsMiddle | core_runtime/core/audit_event.py:297-299 | stripping leaves the text between the first and the last character that is no white space |

## Left out

- Reading files, parsing arguments, subprocesses, the network: their results are inputs. Newline
  translation by `read_text` happens before the reader sees the text.
- Message texts and `field` strings of errors, except where an error names an index or a path.
- Validators of steps, dependencies, results, sessions, tool proposals, templates and approval gates: they
  check one field at a time, with nothing to say about several together.
- The manifests v11.1 to v11.6: the algorithm of v12.0 with other constants. `scripts/verify_release.py`: a
  table of commands to start.
- `canonical_graph_nodes`, `canonical_graph_edges`, `legacy_canonical_json_dumps`: sorting by a key, and the
  same serialiser with `default=str`.
- `_router_validation_audit_events`, `_router_report_audit_events`, `_router_replay_audit_events`: one event each.
- Python values that `json` cannot serialise, mappings other than `dict`, dictionary keys that are no strings
  in canonical JSON, and lone surrogates.
- Floats: a float is its text, `quantize_float` is a parameter assumed idempotent, and the number
  forms of section 3.2.2.3 of RFC 8785 are not compared.
- `program_fingerprint`, `input_fingerprint` and `execution_fingerprint` of a run.
- `to_dict` of the trail index, and the iteration order of its dictionaries.
- AgentPlan.ValidateAgentPlan: step indices and dependencies are integers; the scan for private paths is
  given as the list of fields in which it finds one.
- ContractProgram.ExecuteContractProgram: every derivation has an input key, as the schema asks; the
  evaluator's report and registry operations are inputs.
- RequirementsLock.BuildLockEntries: requirements are given with their markers evaluated, and looking up a
  package is assumed to respect the normalised name (PEP 503, "Normalized Names").
- ContractExecutability.OpenObjectPaths: the loops over the keywords of one schema are a list of its edges,
  in the order of the program, and the recursion loops over that list.
- ReleaseManifest.ValidateReleaseManifest: a parsed manifest has the shape the schema requires, so the
  number and wording of schema errors, and payloads of other shapes that are rejected anyway, are not told apart;
  `artifact_count` is an integer, where the program would also accept an equal float.
- DecisionTrace.ValidateTrace: an entry type or timestamp that is neither null nor a string, an entry id that is
  neither null, an integer nor a boolean, and metadata of a rejection that is no object; other fields of an
  entry may have any type.
- DecisionTrace.ChainRootPinsEntries: assumes 64-character digests and no collision among the texts hashed.
- BoundedReader.ReadBoundedReference: `max_bytes` is not negative (the schema asks for at least 1); markers
  are given as the matches of the two patterns; finding the entry and checking its path are left out.
- AuditDerivation.DeriveGaiaSurrogate: a total, rate, threshold or row index is given as the number read from
  it, or as unreadable; which of several unreadable ones raises first is not told apart.
- The rest of `core_runtime/core/rule_anchor.py`: eligibility of rule sets, signatures and approvals, the
  fields of a batch beside its entries, and calldata.
- RuleAnchor.MerkleRootAndProofs: assumes that the hash answers with fingerprints, as SHA-256 does.
- RuleAnchor.VerifyRuleAnchorProof: the four fields of an entry that its leaf covers are present and of their
  schema type.
