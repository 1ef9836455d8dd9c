# Verification of Flint Gate's stateful cores

A Dafny model of the parts of Flint Gate whose correctness is a matter of histories,
interleavings and composition rather than of single branches, with proofs about it.
`dafny verify dfyconfig.toml` checks all of it.

| files | what they model |
|---|---|
| `ApprovalTable`, `ApprovalStore`, `ApprovalRuns`, `ApprovalHistory` | the human-approval table as values, as the class that updates it, and over whole histories of calls |
| `ApprovalRaces`, `ApprovalRaceTheorems`, `ApprovalDecisions`, `ApprovalJanitor`, `ApprovalSolo` | the same table with every map access a step of its own, under any interleaving |
| `Bundle`, `BundleBuilder`, `BundleTheorems` | the strict and the lenient build of a Cedar bundle from stored rows |
| `SseText`, `SseRust`, `SseRoundTrip`, `SseRustParser` | line splitting and the Rust Server-Sent Events parser (sections 9.2.5 and 9.2.6 of the WHATWG HTML Living Standard) |
| `SseTypeScript`, `SseTypeScriptFrames`, `SseTypeScriptClient`, `SseReconnect`, `SseReconnectEndings` | the TypeScript line reader, stream and reconnect loop |
| `SseGo`, `SseGoFrames`, `SseGoClient`, `SseGoReconnect`, `SseGoEndings`, `SseAgreement` | the two Go parsers, the Go reconnect loop, and where Go and Rust agree |
| `WsStream`, `WsClient` | the TypeScript WebSocket queue between callbacks and one consumer |
| `JwksKeys`, `JwksRaces`, `JwksCacheObject` | key selection, the key-set cache under any number of tasks, and the cache object of one caller at a time |
| `Wrappers`, `Numbers`, `StreamEvents` | options and results, 64-bit integers and decimals, the TypeScript client's events |
| `ScopeText`, `Scopes`, `Claims`, `ClientCredentials` | scope restriction and claim assembly of the client-credentials grant (section 4.4 of RFC 6749), and token lifetimes |

Each operation that changes state is a method proved against a specification function,
and the theorems are about those functions and the machines built from them.

What comes from outside is a parameter: clock readings, random ids, HTTP answers and
chunks, the client store's answer, Cedar's parsers (text to statements, schema value to
schema, blob and schema to store, acceptable policy ids), JavaScript's `JSON.parse`, `trim` and the frame
normalizer, the signing key. Text is characters; the Go parser's byte counts are counts
of characters here.

## Where the code and its comments differ

The model follows the code.

- `crates/flint-gate-core/src/approval/mod.rs:220-226` says two racing `decide` calls may both see `Ok`. The removal is atomic, so for one insertion only one does (`RacingDecidersShareNoInsertion`).
- `crates/flint-gate-core/src/approval/mod.rs:213-214,259-261` says a later `decide` cleans up an expired entry. A `decide` that finds it expired returns `Expired` and leaves it (`ApprovalTable.OneDeadline`, `MemoryApprovalStore.Decide`). Besides the janitor, only two races remove one: a decider that had peeked before the deadline, and a registrant that overwrites it (`EntriesLeaveExactly`, `ALateDeciderRemovesAnExpiredEntry`).
- `crates/flint-gate-core/src/authz/bundle.rs:168-172` promises that a failing row leaves the accumulators alone. The commit loop can fail half-way, but never on accumulators that rows built (`HalfCommitExactly`, `MergeIsAllOrNothing`).
- `crates/flint-gate-client/src/stream.rs:79-84` calls the parser stateful, but only the text is carried over; an event under construction is dropped at the end of a call (`ChunkCutTheorem` says when that shows). The flush at lines 184-194 never yields anything (`EndOfStreamFlushYieldsNothing`).
- `sdks/typescript/src/stream.ts:285-292` says CRLF is handled; one character is consumed, so every CRLF is followed by a blank line (`LinesByTerminator`, `CrlfSplitsAnEvent`).
- `sdks/typescript/src/stream.ts:72` loses empty data lines at the start of an event, which section 9.2.6 of the HTML standard keeps (`DataIsKeptExactly`).
- `sdks/typescript/src/stream.ts:109-110` promises at most `maxReconnects` reconnects. A stream that opens starts the count again (`ReconnectLimitExceededExactly` says when the limit is exceeded).
- `sdks/go/stream.go:323-325` says lines may end with CR. The scanner cuts at LF only, so a lone CR ends no line (`SameLinesExactly`).
- `sdks/go/stream.go:66-67` names an 8 s cap. Six attempts in all never reach it (`AttemptsAndWaitsAreBounded`).
- `crates/flint-gate-core/src/auth/client_credentials.rs:66-67` says the granted scopes are a subset of the client's. A stored scope with white space inside breaks that for a reader of the joined claim (`InheritedScopeClaimStaysWithinTheGrantExactly`).
- `crates/flint-gate-core/src/auth/jwks.rs:17-21` says an unknown kid forces a refresh. While the cached set is fresh at the second look it does not (`NoFetchWhileFresh`, `DecodingKeyFor`); `RefreshSingleFlight` states exactly when a forced fetch is made.

## Model

| member | source | states |
|---|---|---|
| ApprovalTable.OneDeadline | crates/flint-gate-core/src/approval/mod.rs:215-307 | for any table, id and time: listed, shown unexpired by `status`, kept by the janitor and accepted by `decide` are one and the same condition, and `list` and `status` report the same record |
| ApprovalTable.EarliestExpiryIsLastDecidableInstant | crates/flint-gate-core/src/approval/mod.rs:279-288 | `earliest_expiry` is `None` exactly when no id is tracked, and is otherwise the last instant at which every tracked id can still be decided |
| ApprovalTable.DisplayDeadline | crates/flint-gate-core/src/approval/mod.rs:185-194 | the display deadline is the wall clock plus the exact time left when chrono can hold it, and the wall clock itself when nothing is left or chrono cannot |
| ApprovalHistory.AnswersFollowFromHistory | crates/flint-gate-core/src/approval/mod.rs:170-307 | every answer in every history of calls run one at a time, told from the calls and answers before it without a table: pending under an id is the latest accepted registration until it is decided or a purge finds it lapsed; an accepted decision is sent as given, under its id, to that registration's sender; and all refusals, statuses, listings, deadlines and purge counts follow |
| ApprovalSolo.RegisterIsAtomic | crates/flint-gate-core/src/approval/mod.rs:170-202 | a registration whose map accesses nothing interrupts answers and leaves the shared map as the atomic call does |
| ApprovalSolo.DecideIsAtomic | crates/flint-gate-core/src/approval/mod.rs:215-244 | the same for a decision, which sends the given decision for the given id exactly when the atomic call does |
| ApprovalSolo.PurgeIsAtomic | crates/flint-gate-core/src/approval/mod.rs:295-307 | the same for a purge, in whatever order it visits the entries |
| ApprovalStore.MemoryApprovalStore.Register | crates/flint-gate-core/src/approval/mod.rs:170-202 | refused at the cap, or for a tracked id, with the error of each, and else the entry with all its fields is added; a refused call changes nothing, and a table within its cap stays within it |
| ApprovalStore.MemoryApprovalStore.Decide | crates/flint-gate-core/src/approval/mod.rs:215-244 | run alone: accepted exactly for a tracked id that has not expired, and then the entry goes and exactly one message is appended, to the entry's sender, with this id and this decision; expired and unknown ids change nothing |
| ApprovalStore.MemoryApprovalStore.Status | crates/flint-gate-core/src/approval/mod.rs:247-257 | the record of a tracked id with its expired flag, nothing for another id |
| ApprovalStore.MemoryApprovalStore.List | crates/flint-gate-core/src/approval/mod.rs:262-277 | every unexpired entry, once, and no other, in whatever order the map is visited |
| ApprovalStore.MemoryApprovalStore.EarliestExpiry | crates/flint-gate-core/src/approval/mod.rs:284-288 | the loop computes the minimum over the tracked ids |
| ApprovalStore.MemoryApprovalStore.PurgeExpired | crates/flint-gate-core/src/approval/mod.rs:295-307 | exactly the unexpired entries remain, and the count returned is the number removed |
| ApprovalRuns.StepKeepsDifference | crates/flint-gate-core/src/approval/mod.rs:170-307 | one call, run without interruption, on two tables that differ only by lapsed entries: the difference stays of that kind, and the answers differ at most by `NotFound` for `Expired`, an absent status for an expired one, or a deadline already passed |
| ApprovalRuns.ErasureSimulation | crates/flint-gate-core/src/approval/mod.rs:170-307 | for calls that run one at a time: from any such pair of tables, a whole history with the janitor and the same history without it stay indistinguishable call by call |
| ApprovalRuns.JanitorIsUnobservable | crates/flint-gate-core/src/approval/mod.rs:170-307 | for calls that run one at a time, with no cap, ids never reused and a clock that never runs backwards, deleting every purge changes no registration, no `list`, no accepted decision and no delivery; interleaved calls are the matter of the next rows |
| ApprovalRuns.JanitorIsSeenOtherwise | crates/flint-gate-core/src/approval/mod.rs:170-307 | instances for calls one at a time: with a cap, with a reused id, or with a clock step backwards there is a three-call history in which the janitor shows |
| ApprovalJanitor.JanitorIsUnobservableExactly | crates/flint-gate-core/src/approval/mod.rs:170-307 | over every interleaving, cap and reuse of ids: at every point of the run answers, calls under way, peeks, deliveries and listing are the same with and without the janitor (`NotFound` for `Expired` aside) exactly when no decider past its peek and no registrant at its checks comes upon an entry or a full table that only the run without the janitor still has |
| ApprovalJanitor.JanitorShowsOnlyToDeciders | crates/flint-gate-core/src/approval/mod.rs:170-307 | with no cap and no id registered twice, exactly when the janitor takes nothing away between a decider's peek and its removal |
| ApprovalJanitor.TheJanitorCanTakeADecision | crates/flint-gate-core/src/approval/mod.rs:227-237 | instance, without cap or reuse: a visit between peek and removal turns an accepted and delivered decision into `NotFound` |
| ApprovalRuns.AtomicRunsRespectCap | crates/flint-gate-core/src/approval/mod.rs:177-181 | over every sequence of calls that run one at a time the table never exceeds its cap |
| ApprovalRaces.ReachableInv | crates/flint-gate-core/src/approval/mod.rs:170-307 | in every interleaving of single map accesses each insertion is in exactly one place (table, a decider's hand, sent, purged, overwritten), every pending removal was preceded by a fresh peek, and `Ok` goes exactly with a send |
| ApprovalRaceTheorems.AtMostOneDecisionPerInsertion | crates/flint-gate-core/src/approval/mod.rs:215-244 | under any interleaving of deciders, registrants and purges two sends are of two insertions and by two callers |
| ApprovalRaceTheorems.EverySendFollowsAFreshPeek | crates/flint-gate-core/src/approval/mod.rs:227-242 | every send is preceded by a peek of the same call and id that saw an unexpired insertion |
| ApprovalRaceTheorems.RacingDecidersShareNoInsertion | crates/flint-gate-core/src/approval/mod.rs:220-243 | a call answers `Ok` exactly when it sends, so of two callers racing for one insertion at most one gets `Ok` |
| ApprovalDecisions.SameInsertionExactly | crates/flint-gate-core/src/approval/mod.rs:170-307 | over any stretch of any interleaving, an id in the table before and after holds the same insertion exactly if nothing was inserted under it meanwhile |
| ApprovalDecisions.DecidedIsPeekedExactly | crates/flint-gate-core/src/approval/mod.rs:215-243 | behind every decision sent lie a call that gave this decision for this id, its successful peek and its removal, in this order, and the insertion decided is the one peeked exactly when nobody inserted under the id between the two |
| ApprovalDecisions.DecidedIsPeekedWithoutReuse | crates/flint-gate-core/src/approval/mod.rs:227-243 | in particular when the id decided was inserted once, whatever happens to other ids; it was then unexpired when peeked |
| ApprovalRaceTheorems.EntriesLeaveExactly | crates/flint-gate-core/src/approval/mod.rs:170-307 | in every reachable state an entry, expired or not, leaves the table exactly by a janitor's visit that finds it lapsed, by a decider past its peek, which saw the id unexpired then, or by a racing registrant that overwrites it |
| ApprovalRaceTheorems.ALateDeciderRemovesAnExpiredEntry | crates/flint-gate-core/src/approval/mod.rs:227-237 | a reachable state in which a decider that peeked in time removes an entry whose deadline has passed |
| ApprovalRaceTheorems.ReuseLetsADecisionReachAnExpiredInsertion | crates/flint-gate-core/src/approval/mod.rs:220-243 | instance: a reachable run with a reused id in which a decision is sent to an insertion that had already expired when it was made |
| ApprovalRaceTheorems.RoomInvariant | crates/flint-gate-core/src/approval/mod.rs:177-201 | entries plus registrants past the length check stay within cap + n - 1 while at most n registrations are in flight |
| ApprovalRaceTheorems.RacingRegistrantsOverrunByLessThanTheirNumber | crates/flint-gate-core/src/approval/mod.rs:177-201 | with at most n registrants in flight the table never exceeds cap + n - 1, and with a cap of zero it stays empty |
| ApprovalRaceTheorems.OverrunIsReached | crates/flint-gate-core/src/approval/mod.rs:177-201 | for every cap of at least 1 and every n some run with n in flight fills the table to exactly cap + n - 1, so the bound is tight |
| Bundle.ScopedIdInjective | crates/flint-gate-core/src/authz/bundle.rs:193-193 | `{id}#{idx}` names one row id and one index, also when ids contain `#` |
| Bundle.AddedFrom | crates/flint-gate-core/src/authz/bundle.rs:219-226 | the adding loop adds the statements under their scoped ids and changes no other id, and stops early exactly when an id is taken |
| Bundle.HalfCommitExactly | crates/flint-gate-core/src/authz/bundle.rs:218-235 | on arbitrary accumulators a failing merge is half-committed exactly when all checks pass, scoped id 0 is free and a later one is taken |
| Bundle.MergeIsAllOrNothing | crates/flint-gate-core/src/authz/bundle.rs:166-236 | on accumulators that rows built, a failing row leaves policies, schema and entities untouched |
| BundleBuilder.Accumulators.Copy | crates/flint-gate-core/src/authz/bundle.rs:122-124 | the candidate accumulators start as equal but separate copies |
| BundleTheorems.StagedExactly | crates/flint-gate-core/src/authz/bundle.rs:181-200 | a row is staged exactly when its text parses and every statement's scoped id is accepted, and then with all the statements of the text |
| BundleBuilder.Stage | crates/flint-gate-core/src/authz/bundle.rs:189-200 | staging pairs each statement with its scoped id in order, or fails |
| BundleTheorems.RowVerdict | crates/flint-gate-core/src/authz/bundle.rs:173-236 | the fate of any row on any accumulators, in the order of the checks: text or id refused, schema (text from a JSON string, JSON otherwise) refused, entities refused under the schema then in force, an id taken, or merged, and what schema and blob are then in force |
| BundleTheorems.StrictFailsAtItsFirstFailingRow | crates/flint-gate-core/src/authz/bundle.rs:91-98 | the strict fold's error is that of its first failing row on what the rows before it built |
| BundleBuilder.MergeRecord | crates/flint-gate-core/src/authz/bundle.rs:173-236 | in place, the three accumulators and the answer become those of the specification, errors and half-done commits included |
| BundleBuilder.FromRecords | crates/flint-gate-core/src/authz/bundle.rs:91-106 | the strict loop over rows computes the strict fold and its first error |
| BundleBuilder.FromRecordsLenient | crates/flint-gate-core/src/authz/bundle.rs:116-163 | the lenient loop with candidate copies computes the lenient fold and its fallback |
| BundleTheorems.StrictOverSurvivors | crates/flint-gate-core/src/authz/bundle.rs:91-163 | from any accumulators, the strict fold over the rows the lenient fold keeps succeeds and ends in the same accumulators |
| BundleTheorems.LenientRefinesStrict | crates/flint-gate-core/src/authz/bundle.rs:91-163 | the lenient build is the strict fold over its survivors, and every row is kept or skipped by how it merges into what the earlier survivors built |
| BundleTheorems.StrictSuccessMeansEqualBundles | crates/flint-gate-core/src/authz/bundle.rs:91-163 | the strict build succeeds exactly when no row is skipped and the entities compile, and the two bundles are then equal |
| BundleTheorems.CopiesNeverMatter | crates/flint-gate-core/src/authz/bundle.rs:121-143 | merging every row in place, without candidate copies, gives the same lenient build, duplicate row ids included |
| BundleTheorems.EveryFailingRowLeavesTheBuildUntouched | crates/flint-gate-core/src/authz/bundle.rs:168-172 | whatever rows came before, a row that fails changes nothing |
| BundleTheorems.MergedPolicies | crates/flint-gate-core/src/authz/bundle.rs:173-236 | after any successful strict fold the policy set is exactly all the statements of all the rows' texts under their scoped ids, and their number is the total |
| BundleTheorems.BundlePolicies | crates/flint-gate-core/src/authz/bundle.rs:116-163 | the lenient policy set is exactly all the statements of the survivors' texts under their scoped ids, as many as their statement counts add up to |
| BundleTheorems.SurvivorsAreIntrinsic | crates/flint-gate-core/src/authz/bundle.rs:116-163 | with distinct ids and no schema, a row survives exactly when it passes its checks by itself |
| BundleTheorems.PoliciesIgnoreRowOrder | crates/flint-gate-core/src/authz/bundle.rs:116-163 | with distinct ids and no schema, any reordering of the rows gives the same policy set |
| BundleTheorems.WhatWins | crates/flint-gate-core/src/authz/bundle.rs:202-234 | the first row with a schema supplies it and the first with a blob supplies that, and the pair compiles unless the blob came strictly before the schema |
| BundleTheorems.BundleSchemaAndStore | crates/flint-gate-core/src/authz/bundle.rs:116-163 | the lenient bundle's schema is that of the first survivor with one, and its store what the first surviving blob comes to under it, or the empty store |
| BundleTheorems.FallbackExactly | crates/flint-gate-core/src/authz/bundle.rs:146-156 | the empty entity store is used as a fallback exactly when the first surviving blob precedes the surviving row that supplied the schema and is refused under it |
| BundleTheorems.FallbackIsReachable | crates/flint-gate-core/src/authz/bundle.rs:146-156 | two rows, each accepted when read, whose build fails strictly and falls back leniently |
| SseText.SplitReassembles | crates/flint-gate-client/src/stream.rs:93-96 | lines, terminators and leftover put together are the input, and no line contains a break |
| SseText.RenderingInvertibleExactly | crates/flint-gate-client/src/stream.rs:118-144 | splitting undoes rendering exactly when no CR-terminated line is followed by an empty LF-terminated one |
| SseText.SplitAppend | crates/flint-gate-client/src/stream.rs:85-96 | text that arrives later changes no complete line, unless it completes a CRLF |
| SseText.SplitInsideCrlf | crates/flint-gate-client/src/stream.rs:129-135 | a cut inside a CRLF leaves nothing over, and the late LF alone is not another line of the whole |
| SseText.FieldExactly | crates/flint-gate-client/src/stream.rs:51-62 | a line has a name and a value exactly when it is the name, a colon, at most one space and the value, or the name alone with an empty value |
| SseRust.SafeCutsAgree | crates/flint-gate-client/src/stream.rs:85-108 | at a safe cut two calls give the events and the leftover of one call on the whole, also inside a CRLF |
| SseRust.UnsafeCutShows | crates/flint-gate-client/src/stream.rs:85-108 | at any other cut some continuation is parsed differently |
| SseRust.ChunkCutTheorem | crates/flint-gate-client/src/stream.rs:85-108 | two calls equal one call for every continuation exactly when the cut is safe, and an empty accumulator at the cut makes it safe |
| SseRust.ChunkingIsInvisible | crates/flint-gate-client/src/stream.rs:169-180 | over any number of chunks with every cut between two of them safe, the events and the leftover are those of one call on the whole stream |
| SseRust.EndOfStreamFlushYieldsNothing | crates/flint-gate-client/src/stream.rs:184-194 | the call made at end of stream on the leftover and one LF yields no event, whatever is left over |
| SseRoundTrip.FieldLineMeans | crates/flint-gate-client/src/stream.rs:40-74 | a field line in any spelling sets the name or the id or adds a piece of data, and any other changes nothing |
| SseRoundTrip.BlankLineMeans | crates/flint-gate-client/src/stream.rs:19-38 | a blank line dispatches exactly when there is a name, an id or some data, as `message` unless a name was given, and leaves nothing behind |
| SseRoundTrip.RoundTrip | crates/flint-gate-client/src/stream.rs:18-108 | events printed with any unambiguous mix of terminators parse back to exactly themselves, with nothing pending |
| SseRoundTrip.UniformRoundTrip | crates/flint-gate-client/src/stream.rs:77-108 | the same with LF, CRLF or CR throughout, so the terminator cannot be told from the result |
| SseRustParser.SseAccumulator.Reset | crates/flint-gate-client/src/stream.rs:19-38 | dispatch in place: the event and the accumulator left behind are those of the specification |
| SseRustParser.SseAccumulator.HandleLine | crates/flint-gate-client/src/stream.rs:40-74 | one field line in place: only the field it names changes |
| SseRustParser.NextNewline | crates/flint-gate-client/src/stream.rs:118-144 | the first terminator, one or two characters long: what is before it is the first line and what is after it the rest |
| SseRustParser.SseParser.ParseChunk | crates/flint-gate-client/src/stream.rs:85-108 | the drain loop yields the events of pending and chunk together and keeps exactly their leftover |
| SseTypeScript.EachAppend | sdks/typescript/src/stream.ts:282-296 | the one-character reader's lines and leftover after a cut depend only on the leftover before it |
| SseTypeScript.ChunksDoNotMatter | sdks/typescript/src/stream.ts:254-307 | however a text is cut into chunks, also inside a CRLF, the reader yields the same lines |
| SseTypeScript.NothingFollowsATerminalEvent | sdks/typescript/src/stream.ts:41-86 | whatever the lines, the JSON decoder and the normalizer, only the last event can be `done` or `error`, and nothing is thrown after it |
| SseTypeScript.LinesByTerminator | sdks/typescript/src/stream.ts:282-296 | LF and CR streams read as their lines; a CRLF stream reads as its lines with a blank one after each |
| SseTypeScript.CrlfAgreesWithLfExactly | sdks/typescript/src/stream.ts:41-86 | a CRLF stream dispatches the frames of the LF stream exactly when between blank lines no data line follows a non-empty one and every frame with data ends under the default name |
| SseTypeScript.FlatStreamsReadAlike | sdks/typescript/src/stream.ts:32-87 | on such streams, read to their end, the events agree for every JSON decoder and normalizer |
| SseTypeScript.CrlfSplitsAnEvent | sdks/typescript/src/stream.ts:285-296 | two data lines of one event arrive as two events over CRLF |
| SseTypeScript.EventsOfFrames | sdks/typescript/src/stream.ts:41-86 | on any lines, broken off or not, the events delivered are those of the frames in order, up to the first terminal event or exception; a frame flushed at the end is normalized under its own name and the others under the default one |
| SseTypeScriptFrames.FieldLineMeans | sdks/typescript/src/stream.ts:62-76 | a field line in any spelling sets the event name, adds to the data or hands on an id, and any other does nothing |
| SseTypeScriptFrames.BlankLineDelivers | sdks/typescript/src/stream.ts:44-60 | after a blank line: blank data is nothing, `[DONE]` a done frame, JSON its value, other data is text untrimmed or, under a name, an error of at most 80 characters; normalized under the default name, and a terminal event or an exception ends the stream there |
| SseTypeScriptFrames.EndOfStreamDelivers | sdks/typescript/src/stream.ts:79-86 | the same kinds of frame for data left at the end, normalized under the event's own name, and nothing if the reader broke |
| SseTypeScriptFrames.DataLinesJoin | sdks/typescript/src/stream.ts:71-72 | the data of an event is its data lines joined with LF, but for empty ones at the start |
| SseTypeScriptFrames.DataIsKeptExactly | sdks/typescript/src/stream.ts:71-72 | no part of the data is lost exactly when its first line is not empty or its only one |
| SseTypeScriptFrames.AfterWholeEvents | sdks/typescript/src/stream.ts:41-86 | complete events that do not end the stream stay what they are whatever follows, and what follows is read as if it came first |
| SseTypeScriptFrames.TextIsRead | sdks/typescript/src/stream.ts:254-307 | an unterminated last line is read exactly if the reader does not break off |
| SseTypeScriptFrames.DoneFrameStopsTheStream | sdks/typescript/src/stream.ts:324-326 | after any complete events `data: [DONE]` and a blank line deliver the done event and nothing is read beyond |
| SseTypeScriptClient.IndexOfNewline | sdks/typescript/src/stream.ts:309-315 | the position of the first CR or LF, or -1 |
| SseTypeScriptClient.ReadLines | sdks/typescript/src/stream.ts:254-307 | the buffer loop yields the lines of the concatenated chunks, the unterminated last one only if the read did not break |
| SseTypeScriptClient.StreamSSEInternal | sdks/typescript/src/stream.ts:32-87 | events, ids and ending depend only on the concatenated text and are those of the line interpreter, whose meaning the rows on frames state |
| SseTypeScriptClient.StreamSSEWithReconnect | sdks/typescript/src/stream.ts:114-210 | requests, waits, events and ending are those of the specified loop for any answers |
| SseTypeScriptClient.RunOfIsRun | sdks/typescript/src/stream.ts:114-210 | the loop is a run: every request carries the last id read on any earlier connection, every wait is the backoff of its attempt, the events are those of all sessions, and it ends when and how it must |
| SseReconnect.BurstIsBounded | sdks/typescript/src/stream.ts:125-175 | at most `maxReconnects` + 1 consecutive fetches fail, and a burst of that length began the run and ends it with an exception |
| SseReconnect.BackoffSumClosedForm | sdks/typescript/src/stream.ts:212-214 | the first n waits add up to 250·(2^n − 1) ms, and from the sixth on to 8 s more each |
| SseReconnect.BurstWaitsAreBounded | sdks/typescript/src/stream.ts:203-214 | the waits of one burst are the first steps of the backoff, at most `maxReconnects` of them, and add up to at most their sum |
| SseReconnect.ReconnectLimitExceededExactly | sdks/typescript/src/stream.ts:105-113 | on any history the documented limit of `maxReconnects` reconnects is exceeded exactly when none of the first `maxReconnects` + 1 answers is a 4xx or a stream with `done`, one of them after the first opened a stream, and one more answer follows |
| SseReconnect.DroppingStreamsReconnectForever | sdks/typescript/src/stream.ts:177-209 | its extreme: when every stream opens and drops, the client reconnects as long as there are answers, exactly when `maxReconnects` is at least 1 |
| SseReconnectEndings.ClientErrorsAreFinal | sdks/typescript/src/stream.ts:154-162 | nothing is fetched after a 4xx answer, and its status is thrown |
| SseReconnectEndings.DoneEndsTheRun | sdks/typescript/src/stream.ts:187-193 | nothing is fetched after a stream that delivered `done`, and the generator returns |
| SseReconnectEndings.DoneFrameEndsTheRun | sdks/typescript/src/stream.ts:177-193 | in particular after a text of complete events and `data: [DONE]`, whatever comes behind it and however it breaks off |
| SseReconnectEndings.EndingsTell | sdks/typescript/src/stream.ts:141-206 | a generator that has ended threw the connection error, threw the status, returned, or threw the stream's exception, as its last answer says |
| SseReconnectEndings.WaitingMeansNoMoreAnswers | sdks/typescript/src/stream.ts:125-209 | a generator that has not ended has used up all answers |
| SseReconnectEndings.FailuresAreRetriedExactly | sdks/typescript/src/stream.ts:141-175 | a failed fetch or an unexpected status is followed by another fetch exactly while fewer than `maxReconnects` attempts lie before it since the last stream, after 250 ms doubled for each and 8 s at most |
| SseReconnectEndings.DroppedStreamsAreRetriedExactly | sdks/typescript/src/stream.ts:177-208 | a stream that drops is followed by another fetch exactly if `maxReconnects` is positive, after 250 ms |
| SseReconnectEndings.RequestsCarryTheLastId | sdks/typescript/src/stream.ts:132-134 | each request carries the last id of the last stream before it that had one, and none before any had |
| SseReconnectEndings.EventsArriveInOrder | sdks/typescript/src/stream.ts:182-191 | the events of each stream arrive whole, in the order of the answers |
| SseGo.EveryEventIsBounded | sdks/go/stream.go:210-278 | every dispatched event's data is shorter than the maximum, on any stream and from any bounded state |
| SseGoFrames.GoRoundTrip | sdks/go/stream.go:210-278 | events printed with name, id, retry and data lines parse back to exactly themselves, also when the reader fails at the end |
| SseGoFrames.OverflowExactly | sdks/go/stream.go:257-264 | a stream overflows exactly when some run of lines without a blank one holds more data than allowed, and otherwise ends cleanly exactly if the reader does |
| SseGoFrames.DecimalIsRead | sdks/go/stream.go:381-395 | a printed number below 2^63 is read as itself |
| SseGoFrames.NumbersAreDigitsExactly | sdks/go/stream.go:381-395 | a text is a number exactly when it is not empty and all digits |
| SseGoClient.ParseSSE | sdks/go/stream.go:291-371 | the untracked loop sends the specified events, then an error frame for an overflow or a scan failure if the channel has room |
| SseGoClient.ReconnectTrackingWriter.Emit | sdks/go/stream.go:195-205 | the event goes out and its id is kept if it has one |
| SseGoClient.ReconnectTrackingWriter.DispatchCurrent | sdks/go/stream.go:220-230 | a blank line sends the event under construction exactly if it has data, id, name or a positive retry |
| SseGoClient.ParseSSETracked | sdks/go/stream.go:210-278 | the tracked loop sends the same events as the untracked one, leaves the id of the last event that has one, and reports a clean end exactly when nothing overflowed or failed |
| SseGoReconnect.Handle | sdks/go/stream.go:129-178 | one response: what is sent, the id kept and whether to retry, for every status class and end of stream |
| SseGoReconnect.StreamSSE | sdks/go/stream.go:98-181 | requests, waits, channel and closing are those of the specified loop for any responses |
| SseGoReconnect.RunOfIsRun | sdks/go/stream.go:98-181 | the loop's run: every request carries the last id dispatched before it, every wait is the delay in force, all answers but the last were retried, and the channel closes exactly on a final answer or after the last attempt |
| SseGoReconnect.AttemptsAndWaitsAreBounded | sdks/go/stream.go:92-181 | six requests at most, however many opened a stream; no wait above 4 s, 7.75 s in all |
| SseGoEndings.RequestsExactly | sdks/go/stream.go:98-181 | requests are made until a stream read to its end or a status outside 200 to 299 and below 500, six at most, and the channel is closed exactly then |
| SseGoEndings.AnswerBrings | sdks/go/stream.go:129-178 | each answer brings its stream's frames, its overflow error or its status error, after what the answers before it brought |
| SseGoEndings.RunDelivers | sdks/go/stream.go:98-181 | the channel receives what all the answers brought and, after six failures, the report that it gave up |
| SseGoEndings.DeliveredInOrder | sdks/go/stream.go:98-181 | what the first answers brought is delivered first |
| SseGoEndings.WaitsExactly | sdks/go/stream.go:99-108 | the wait after an answer is 250 ms doubled for each failure since the last stream |
| SseGoEndings.RequestsCarryTheLastId | sdks/go/stream.go:120-122 | each request carries the last id of the last connection before it that dispatched one, and none before any did |
| SseAgreement.FrameExactly | sdks/go/stream.go:220-230 | a frame dispatches alike in both unless it has an empty name or id, which only Rust reports, or consists of a `retry`, which only Go dispatches |
| SseAgreement.StreamsAgreeExactly | sdks/go/stream.go:210-278 | from states that have read the same lines and without overflow, both parsers report the same events to the end of the stream exactly when every frame agrees and none is left unfinished |
| SseAgreement.SameLinesExactly | sdks/go/stream.go:232-239 | both clients see the same lines, up to an unterminated last one that only Go reads, exactly when every CR has its LF or ends the text |
| SseAgreement.LoneCrAddsALine | sdks/go/stream.go:321-331 | on any text Rust sees at least as many lines as Go, and more if a CR stands alone |
| SseAgreement.GoAgreesWithRust | sdks/go/stream.go:195-371 | on any stream in which no CR stands alone, a Go parse that does not overflow reports what one Rust call does exactly when no frame has an empty name or id, none is a `retry` alone, and no unfinished frame is left for Go to flush |
| SseAgreement.PlainStreamsAgree | sdks/go/stream.go:195-371 | in particular when the stream ends with a blank line and has no `retry` and no empty name or id |
| SseAgreement.UnfinishedFrameDiffers | sdks/go/stream.go:274-277 | instance: without the final blank line Go dispatches a frame and Rust does not |
| SseAgreement.EmptyIdDiffers | crates/flint-gate-client/src/stream.rs:66-66 | instance: an empty id is an event to Rust and nothing to Go |
| SseAgreement.RetryDiffers | crates/flint-gate-client/src/stream.rs:67-69 | instance: a retry alone is an event to Go and nothing to Rust |
| WsStream.ReachableInv | sdks/typescript/src/ws.ts:66-208 | in every interleaving of callbacks and consumer steps, what is yielded, in flight and queued is what was pushed, in order, up to what came after closing |
| WsStream.YieldsAFaithfulPrefix | sdks/typescript/src/ws.ts:66-208 | the yielded sequence is a prefix of the pushed one, and only its last event can be terminal |
| WsStream.ParkedMeansIdle | sdks/typescript/src/ws.ts:188-201 | no lost wake-up: a consumer is parked only on an empty queue and an open socket |
| WsStream.ThrowsOnlyCloseErrors | sdks/typescript/src/ws.ts:169-208 | the error the consumer throws is one that a callback handed over, and nothing is thrown after a terminal event |
| WsStream.DrainEnds | sdks/typescript/src/ws.ts:188-208 | how a consumer left alone ends from any state: it returns after a terminal event, throws the stored error of a closed socket, returns without one, and otherwise waits |
| WsStream.FailureIsThrownExactly | sdks/typescript/src/ws.ts:169-208 | a socket error is thrown exactly when the consumer has not ended and no terminal event was pushed; after the end it changes nothing |
| WsStream.QuietEndExactly | sdks/typescript/src/ws.ts:174-208 | without an error the consumer returns exactly when the socket is closed and waits exactly when it is open |
| WsStream.DrainYields | sdks/typescript/src/ws.ts:188-208 | a consumer left alone yields exactly what was pushed up to the first terminal event, or nothing more once it has ended |
| WsStream.NothingBeforeClosingIsLost | sdks/typescript/src/ws.ts:66-208 | from any reachable state a consumer left alone yields every event pushed before closing and not after a terminal one, in order |
| WsStream.PushedIsYieldedExactly | sdks/typescript/src/ws.ts:66-208 | from any reachable state, an event pushed before or after closing is yielded by a consumer left alone exactly when the consumer has not ended and no terminal event was pushed before it |
| WsStream.OtherwiseLostForGood | sdks/typescript/src/ws.ts:66-208 | an event that is not yielded so is never yielded, whatever steps follow |
| WsStream.LateEventIsDropped | sdks/typescript/src/ws.ts:188-205 | instance: an event pushed between closing and the wake-up of a parked consumer is dropped |
| WsClient.StreamWS.Push | sdks/typescript/src/ws.ts:71-82 | the new state of all fields is the machine's push step |
| WsClient.StreamWS.Close | sdks/typescript/src/ws.ts:84-97 | the new state of all fields is the machine's close step |
| WsClient.StreamWS.OnError | sdks/typescript/src/ws.ts:169-172 | the new state of all fields is the machine's failure step |
| WsClient.StreamWS.OnClose | sdks/typescript/src/ws.ts:174-181 | the new state of all fields is the machine's step for a socket closed from outside |
| WsClient.StreamWS.Resume | sdks/typescript/src/ws.ts:188-208 | the generator from one suspension to the next is the machine's consumer step |
| JwksKeys.FindFirst | crates/flint-gate-core/src/auth/jwks.rs:214-216 | `find` gives the first key that bears the kid, or none if none does |
| JwksKeys.SelectionExactly | crates/flint-gate-core/src/auth/jwks.rs:203-251 | a key is selected exactly when the token names one, by kid or as the only key, and it is asymmetric and well formed; it is then that key |
| JwksKeys.SelectionOutcome | crates/flint-gate-core/src/auth/jwks.rs:203-251 | at most one key is named; symmetric ones and tokens that name none are `Unauthorized`, and a key that cannot be built is the provider's error |
| JwksRaces.ReachableInv | crates/flint-gate-core/src/auth/jwks.rs:89-200 | over any tasks, drops and clock steps: a fetch is made only under the lock, on a cache found stale, and the record of fetches and forced starts is spaced |
| JwksRaces.AtMostOneFetchInProgress | crates/flint-gate-core/src/auth/jwks.rs:143-175 | two tasks never fetch at once, and whoever fetches holds the lock |
| JwksRaces.NoFetchWhileFresh | crates/flint-gate-core/src/auth/jwks.rs:146-160 | no request is under way while the cached set is fresh, so an unknown kid refreshes nothing before the TTL is over |
| JwksRaces.FetchesAreRateBounded | crates/flint-gate-core/src/auth/jwks.rs:143-175 | successful fetches complete at least 300 s apart, so n of them span at least (n − 1)·300 s |
| JwksRaces.ForcedFetchesAreSpaced | crates/flint-gate-core/src/auth/jwks.rs:162-172 | forced fetches start at least 5 s apart, failed ones included |
| JwksRaces.ServedKeysAreFresh | crates/flint-gate-core/src/auth/jwks.rs:186-200 | every key returned is the one the token names, asymmetric and well formed, of a set once fetched that was younger than 300 s when read, or fetched by this very task |
| JwksCacheObject.JwksCache.Fetch | crates/flint-gate-core/src/auth/jwks.rs:89-116 | success replaces the cached set under the time of its arrival, failure leaves it |
| JwksCacheObject.JwksCache.PassGate | crates/flint-gate-core/src/auth/jwks.rs:162-172 | the gate is open exactly when the last forced refresh is old enough, and only then is the stamp renewed |
| JwksCacheObject.JwksCache.FetchUnlessTooEarly | crates/flint-gate-core/src/auth/jwks.rs:162-174 | with a stale set: closed gate, failed and successful fetch, and the stamp a forced fetch leaves |
| JwksCacheObject.JwksCache.RefreshSingleFlight | crates/flint-gate-core/src/auth/jwks.rs:143-175 | fresh set, closed gate, failed and successful fetch: answer, cache and stamp in each case, in step with the machine |
| JwksCacheObject.JwksCache.Jwks | crates/flint-gate-core/src/auth/jwks.rs:119-131 | the cached set while it is fresh, otherwise what a refresh brings |
| JwksCacheObject.JwksCache.DecodingKeyFor | crates/flint-gate-core/src/auth/jwks.rs:186-200 | the whole outcome of a call from the cache, the clock readings and the two responses: which set is asked, when the second look fetches, every error, the cache and the stamp left behind; in step with the machine |
| ScopeText.TrimKeepsWords | crates/flint-gate-core/src/auth/client_credentials.rs:74-78 | trimming changes no word, and leaves nothing exactly when there is none |
| ScopeText.JoinThenSplit | crates/flint-gate-core/src/auth/client_credentials.rs:99-103 | a list of words joined with spaces splits back into itself |
| ScopeText.WordsOfJoined | crates/flint-gate-core/src/auth/client_credentials.rs:99-103 | the words of any joined list are the words of its members, and no others |
| Scopes.FirstOccurrencesMeaning | crates/flint-gate-core/src/auth/client_credentials.rs:77-83 | de-duplication keeps the same members, once each, in the order of first occurrence |
| Scopes.ExplicitRequests | crates/flint-gate-core/src/auth/client_credentials.rs:70-91 | an explicit request succeeds exactly when every word is granted; the answer is then duplicate-free, in order, with exactly the requested members, and asking for it again changes nothing |
| Scopes.RefusalsNameTheFirst | crates/flint-gate-core/src/auth/client_credentials.rs:78-88 | an explicit request is refused with a word exactly when that word is its first one that is not granted |
| Scopes.InheritedScopesAskForThemselvesExactly | crates/flint-gate-core/src/auth/client_credentials.rs:74-76 | without an explicit request the answer asks for itself again exactly when the stored scopes are distinct words, or all blank |
| Scopes.ScopeClaimNeverExceedsAnExplicitGrant | crates/flint-gate-core/src/auth/client_credentials.rs:176-180 | after an explicit request a reader of the `scope` claim finds only granted and requested words |
| Scopes.InheritedScopeClaimStaysWithinTheGrantExactly | crates/flint-gate-core/src/auth/client_credentials.rs:74-76 | without an explicit request everything stored is granted, and the `scope` claim reads back as no more than that exactly when every word inside a stored scope is itself stored |
| Scopes.InheritedScopeClaimCanExceedTheGrant | crates/flint-gate-core/src/auth/client_credentials.rs:74-76 | instance: a stored scope of a word, a space and more reads back as a word that is not held |
| Scopes.RestrictScopes | crates/flint-gate-core/src/auth/client_credentials.rs:70-91 | the loop computes the restriction, and refuses with the first word that is not granted |
| Claims.LifetimeIsTheTtlExactly | crates/flint-gate-core/src/auth/jwt_mint.rs:267-274 | `exp` is `iat` plus the TTL, and later than `iat` for a positive TTL, exactly when the sum fits 64 bits; otherwise it is 2^64 s less |
| Claims.GrantLifetime | crates/flint-gate-core/src/auth/jwt_mint.rs:267-276 | `exp` of a service token is now plus the lifetime asked for, or plus the default if none was, up to the 64-bit bound |
| Claims.MintLifetime | crates/flint-gate-core/src/auth/jwt_mint.rs:261-299 | the same for any token minted without an `exp` of the caller's |
| Claims.GrantClaimsSplit | crates/flint-gate-core/src/auth/client_credentials.rs:173-191 | the token's claims are the gateway's and, disjoint from them, the unreserved stored ones |
| Claims.ClaimOwnership | crates/flint-gate-core/src/auth/client_credentials.rs:110-192 | a reserved claim is in the token exactly if it is not `nbf`, and not `aud` without an audience; any other exactly if it is stored, and verbatim |
| Claims.GatewayOwnsIdentityAndLifetime | crates/flint-gate-core/src/auth/jwt_mint.rs:270-276 | `iss`, `sub`, `iat`, `exp` and `jti` are the gateway's whatever the client stored |
| Claims.GatewayOwnsServiceMarks | crates/flint-gate-core/src/auth/client_credentials.rs:176-183 | `flint_kind`, `client_id`, `scope` and, with an audience, `aud` are the gateway's whatever the client stored |
| Claims.StoredClaimsReachNoReservedClaim | crates/flint-gate-core/src/auth/client_credentials.rs:110-142 | two clients that differ only in stored claims get tokens that agree on every reserved claim |
| Claims.MintLetsAdditionalClaimsWin | crates/flint-gate-core/src/auth/jwt_mint.rs:278-294 | minting alone: an additional claim wins over a standard one, and a standard one over a trait |
| Claims.ReplicaTokensEndWithTheirGrant | crates/flint-gate-core/src/auth/jwt_mint.rs:302-316 | a replica token is minted exactly for the right revision, an audience that is not blank, a TTL in range and an unexpired grant, and then ends at the earlier of grant and TTL, counted without saturation |
| Claims.ReplicaRefusals | crates/flint-gate-core/src/auth/jwt_mint.rs:302-316 | why a replica token is refused, in the order of the checks |
| ClientCredentials.ClaimsBuilder.MergeFixedClaims | crates/flint-gate-core/src/auth/client_credentials.rs:133-142 | in place, exactly the unreserved stored claims are overlaid; a value that is no object stays |
| ClientCredentials.Mint | crates/flint-gate-core/src/auth/jwt_mint.rs:261-299 | the two merging loops give traits under standard under additional claims, and fail exactly when encoding does |
| ClientCredentials.ClientCredentialsGrant | crates/flint-gate-core/src/auth/client_credentials.rs:147-195 | the order of all errors, and on success the response with the token of the claims above |
| ClientCredentials.ResponseMatchesToken | crates/flint-gate-core/src/auth/client_credentials.rs:93-108 | the response is a bearer token, and its scope and its lifetime, or the default if it promises none, are those in the token |
| ClientCredentials.TokenScopesAreGranted | crates/flint-gate-core/src/auth/client_credentials.rs:166-194 | after an explicit request the token's `scope` claim is the response's, and has exactly the requested words, all granted |

## Left out

- Memory order below single map accesses: DashMap's shards, `retain` and `iter` are one access per entry, and `list` may visit entries in any order.
- `chrono` panicking on a date beyond its range; the model's dates are unbounded.
- SseGo.EveryEventIsBounded: counts characters where the program counts UTF-8 bytes; the two agree on ASCII data.
- The Cedar engine itself, and the text of its errors.
- UTF-8 decoding, `TextDecoder` state and JSON syntax.
- `AbortSignal`, Go contexts and their cancellation; a consumer that stops reading.
- Go's `bufio.Scanner` token limit: a scan failure is a parameter of the parse, not derived from the line length.
- The Go channel's capacity: whether it has room for a synthetic error frame is a parameter, the same for a whole run.
- JavaScript numbers: backoff is over integers.
- Decoding of WebSocket envelopes before `push`, `ping` and `pong`, and the `WebSocket` object itself.
- `streamNDJSON`, which is the line reader and the frame decoder without fields.
- `validate_jwks_url`, and the key material behind a JWK: one flag says whether a verification key can be built from it.
- Fairness of the refresh lock; a waiting task retries its step.
- Signing, the token's encoding and its header besides the key id.
- ClientCredentials.Mint: signed 64-bit overflow of `now + ttl` wraps, as in a release build; a debug build panics instead.
- Claims.ReplicaTokensEndWithTheirGrant: the other claims of a replica token are copied from the grant and are not part of the model.
- The database behind `verify_client_credentials`, token exchange, configuration and admin handlers.
