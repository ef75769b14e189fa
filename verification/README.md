# Verification of the test harness

A Dafny model of the parts of the Minecraft test harness that must not be fooled or lose track:
the adapters that read from mods they do not trust, the state machines that run over whole
histories, the scanners of streamed text, and the audits whose verdict gates a release.
Every statement is for all inputs, all runs or all interleavings.

| module | what it models |
|---|---|
| `HullSpans`, `HullReader`, `HullProtocol` | the paged, revision-pinned reader of structure hulls, against an arbitrary provider and against honest ones |
| `PeerJson`, `ConflictContract`, `ConflictWitness` | copying a hostile peer's value under a shared budget; the field contract of statuses and events; examples that meet it |
| `LiveEvidence`, `ConflictReplay`, `ConflictSubscription` | the live event window, replay and reconciliation, the single subscription |
| `ProviderControl` | fault controls over published providers: capture, replace, persist, restart, restore |
| `ProtocolClient`, `PeerLoop` | the request/response client of a player process, and the loop of that process |
| `LogMonitor`, `Interpolation`, `InterpolatedValues` | re-chunked log lines and findings; `${name}` substitution: what is left over, and what is put where |
| `ModsDirectory`, `RaidSafety` | the mods directory audit and artifact resolution; the raid-safety verdict |
| `Retries`, `ScenarioRunner`, `TickMetrics` | retry loops on a clock, the step loop and cleanup, tick percentiles from a ring |

Code that changes state is a class or a method with loops, proved against a specification
function; what the code promises is proved about that function. Providers, peers, clocks and
effects are arbitrary functions, so each result holds for every behaviour they may have.
A lock-protected section is one step, so a sequence of steps stands for any interleaving.

What the proofs show about the code, beyond its own comments:

- The hull budget of 131,072 spans is applied only when another page follows, so the real limit
  is 132,096 spans; it is exact (`ReadableHulls`).
- `Math.addExact` over cells can never overflow before that limit.
- `close` of the conflict client keeps the truncation count, so retained + truncated = accepted
  fails after it exactly when something had been truncated (`ConservationAfterClose`).
- The trial copies of an event's data and payload never change its verdict, and
  `aggregateMatches` can only be cleared by an event that is refused anyway.
- `retryClientConnection`, with attempts that keep their budgets, is certain to end by its
  deadline exactly when there is at least a millisecond and the delay is not negative or never
  used (`DeadlineKeptIff`). The one caller leaves the delay at its default but passes a
  scenario's own timeout, so a timeout of zero or less is the failure that can happen.
- Interpolation leaves exactly the unbound placeholders, whatever the template, if and only if
  every bound text is inert: not empty, no leading brace unless closed at once, and no dollar
  sign that is last or before a brace unless that is closed at once (`TextsExactIff`). For
  trees no bound value may name a variable itself either (`TreesExactIff`). Each way to fail
  has its own example.
- The portfolio loader interpolates a manifest's own variables along with the rest. So it gives
  the right verdict on every manifest with these variables if and only if they are inert, or
  name an unbound variable themselves, in which case nothing loads (`LoadingExactIff`). Its
  error lists the right names on all of them if and only if the variables can bring no name
  into the open but those unbound ones (`ErrorsExactIff`). The failing manifests are ones
  that validation accepts.

## Model

| member | source | states |
|---|---|---|
| `HullSpans.CanonicalIffOrdered` | adapters/rooms/src/main/java/com/ouroboros/harness/adapter/rooms/RoomsHarnessAdapterMod.java:125-136 | Checking each span against its predecessor is the same as ordering every pair: earlier column, or below in the same column with a free cell between. |
| `HullSpans.PairwiseDisjoint` | adapters/rooms/src/main/java/com/ouroboros/harness/adapter/rooms/RoomsHarnessAdapterMod.java:128-136 | No two spans of an accepted list share a cell, neighbours or not. |
| `HullSpans.InCells` | adapters/rooms/src/main/java/com/ouroboros/harness/adapter/rooms/RoomsHarnessAdapterMod.java:195-204 | A cell belongs to the union of the spans exactly when one span covers it. |
| `HullSpans.CellCountIsCardinality` | adapters/rooms/src/main/java/com/ouroboros/harness/adapter/rooms/RoomsHarnessAdapterMod.java:137-138 | The running sum of lengths is the number of cells in the union. |
| `HullSpans.CellCountBound` | adapters/rooms/src/main/java/com/ouroboros/harness/adapter/rooms/RoomsHarnessAdapterMod.java:137-138 | The sum of n spans lies between n and n times 2^32; with the 132,096-span limit it stays far inside 64 bits. |
| `HullSpans.CanonicalFormIsUnique` | adapters/rooms/src/main/java/com/ouroboros/harness/adapter/rooms/RoomsHarnessAdapterMod.java:125-136 | Two canonical lists are equal if and only if they denote the same cells. |
| `HullReader.ReadPage` | adapters/rooms/src/main/java/com/ouroboros/harness/adapter/rooms/RoomsHarnessAdapterMod.java:97-165 | A turn that asks for another page read at least one span and still lacks one, whatever the provider answers; this bounds the number of pages. |
| `HullReader.AppendItems` | adapters/rooms/src/main/java/com/ouroboros/harness/adapter/rooms/RoomsHarnessAdapterMod.java:116-146 | The item loop keeps the list canonical and the 64-bit sum equal to its cell count, stops at the same item with the same error as the specification, and the exact addition never throws. |
| `HullReader.NamespacedExact` | adapters/rooms/src/main/java/com/ouroboros/harness/adapter/rooms/RoomsHarnessAdapterMod.java:232-238 | The world check accepts exactly the texts that are a namespace, a colon and a path, both non-empty and over the spelled-out characters, the path also with slashes. |
| `HullReader.RequiredWorldExact` | adapters/rooms/src/main/java/com/ouroboros/harness/adapter/rooms/RoomsHarnessAdapterMod.java:232-238 | A world is read if and only if it is there as such a text, and it is that text. |
| `HullReader.DecimalIsNumeral` | adapters/rooms/src/main/java/com/ouroboros/harness/adapter/rooms/RoomsHarnessAdapterMod.java:147-153 | A cursor is the decimal numeral of its position: digits only, no leading zero, and its value is the position. |
| `HullReader.Snapshot` | adapters/rooms/src/main/java/com/ouroboros/harness/adapter/rooms/RoomsHarnessAdapterMod.java:71-186 | The two-loop reader, with its cursor, identity, flag, budget and count checks, ends against every provider and computes exactly the specified outcome or error. |
| `HullReader.Contains` | adapters/rooms/src/main/java/com/ouroboros/harness/adapter/rooms/RoomsHarnessAdapterMod.java:188-210 | True exactly when the point is in the union of the spans of the hull just read; an unreadable hull gives that hull's error. |
| `HullProtocol.CursorInjective` | adapters/rooms/src/main/java/com/ouroboros/harness/adapter/rooms/RoomsHarnessAdapterMod.java:147-153 | Decimal cursors of different positions differ, so an honest cursor always advances. |
| `HullProtocol.IdentityExact` | adapters/rooms/src/main/java/com/ouroboros/harness/adapter/rooms/RoomsHarnessAdapterMod.java:212-230 | An answer carries an identity exactly when its structure, world, rule version and revision are present, well formed and equal to it; the world check is the one in terms of namespace and path. |
| `HullProtocol.UnavailableExactly` | adapters/rooms/src/main/java/com/ouroboros/harness/adapter/rooms/RoomsHarnessAdapterMod.java:84-85 | Unavailable is answered exactly when the summary is the empty map; without a protocol the call fails. |
| `HullProtocol.ReadPagesSound` | adapters/rooms/src/main/java/com/ouroboros/harness/adapter/rooms/RoomsHarnessAdapterMod.java:96-165 | Whatever the provider, a paging run that succeeds was a cut of the result into 1 to 1,024 spans a page, each page under the summary's identity, cursors and flags right. |
| `HullProtocol.ReadPagesComplete` | adapters/rooms/src/main/java/com/ouroboros/harness/adapter/rooms/RoomsHarnessAdapterMod.java:96-165 | From any position an honest cut is read to its end, or refused exactly when it exceeds the budget before its last page. |
| `HullProtocol.HonestPagerRoundTrip` | adapters/rooms/src/main/java/com/ouroboros/harness/adapter/rooms/RoomsHarnessAdapterMod.java:84-172 | For every canonical list and every cut an honest provider makes, the list comes back, except that more than 131,072 spans before the last page are refused. |
| `HullProtocol.SmallHullsAlwaysReturn` | adapters/rooms/src/main/java/com/ouroboros/harness/adapter/rooms/RoomsHarnessAdapterMod.java:162-164 | Up to 131,072 spans every honest cut is read back whole. |
| `HullProtocol.AcceptedMeansHonest` | adapters/rooms/src/main/java/com/ouroboros/harness/adapter/rooms/RoomsHarnessAdapterMod.java:84-186 | An arbitrary provider gets a hull accepted if and only if, along the reader's own requests, it served exactly that hull: every page with the summary's structure, world, rule version and revision. |
| `HullProtocol.AcceptedHull` | adapters/rooms/src/main/java/com/ouroboros/harness/adapter/rooms/RoomsHarnessAdapterMod.java:94-186 | In every accepted hull all spans are pairwise disjoint and ordered, the advertised count is the cardinality of the union, and no other canonical list has those cells. |
| `HullProtocol.PagerIsHonest` | adapters/rooms/src/main/java/com/ouroboros/harness/adapter/rooms/RoomsHarnessAdapterMod.java:97-104 | The page-by-page provider of any truthful hull is honest, so the round trip is about providers that exist. |
| `HullProtocol.CutIsPaging` | adapters/rooms/src/main/java/com/ouroboros/harness/adapter/rooms/RoomsHarnessAdapterMod.java:101-115 | Full pages and one shorter page are a legal cut, within budget up to 132,096 spans. |
| `HullProtocol.ReadableHulls` | adapters/rooms/src/main/java/com/ouroboros/harness/adapter/rooms/RoomsHarnessAdapterMod.java:161-164 | A hull can be read in some paging if and only if it has at most 132,096 spans: the 131,072 budget is not applied to the last page. |
| `PeerJson.JsonBudget.ClaimNode` | adapters/patrol/src/main/java/com/ouroboros/harness/adapter/patrol/PatrolConflictV2Client.java:906-912 | Succeeds exactly while nodes remain, and costs one either way. |
| `PeerJson.JsonBudget.ClaimCharacters` | adapters/patrol/src/main/java/com/ouroboros/harness/adapter/patrol/PatrolConflictV2Client.java:914-920 | Succeeds exactly when the characters are left, and subtracts them either way. |
| `PeerJson.ToJson` | adapters/patrol/src/main/java/com/ouroboros/harness/adapter/patrol/PatrolConflictV2Client.java:785-852 | Succeeds exactly when the depth, every per-value limit and both shared totals hold for the whole tree; then the result mirrors the value, the budget falls by exactly the tree's totals, and only a number that BigDecimal cannot read is no contract failure. |
| `PeerJson.MembersToJson` | adapters/patrol/src/main/java/com/ouroboros/harness/adapter/patrol/PatrolConflictV2Client.java:813-832 | The same for the entries of a map, whose claimed size is not trusted. |
| `PeerJson.ItemsToJson` | adapters/patrol/src/main/java/com/ouroboros/harness/adapter/patrol/PatrolConflictV2Client.java:834-848 | The same for the items of a list. |
| `PeerJson.CopyMirrors` | adapters/patrol/src/main/java/com/ouroboros/harness/adapter/patrol/PatrolConflictV2Client.java:785-852 | What is copied is mirrored: the same leaves, UUIDs as text, lists item by item, and for maps one member per key, holding what its last entry holds. |
| `PeerJson.LastEntriesStay` | adapters/patrol/src/main/java/com/ouroboros/harness/adapter/patrol/PatrolConflictV2Client.java:820-831 | Repeated keys included: member names are distinct, each is a key, and each last entry of a key is there. |
| `PeerJson.FitsExact` | adapters/patrol/src/main/java/com/ouroboros/harness/adapter/patrol/PatrolConflictV2Client.java:789-791 | The limits as one statement over all parts: a value is within them exactly when every part is, and no part lies deeper than 16. |
| `PeerJson.MembersFollowEntries` | adapters/patrol/src/main/java/com/ouroboros/harness/adapter/patrol/PatrolConflictV2Client.java:820-831 | Over distinct keys the copy has one member per entry, in order, with the copied value. |
| `PeerJson.CopyKeepsTotals` | adapters/patrol/src/main/java/com/ouroboros/harness/adapter/patrol/PatrolConflictV2Client.java:785-852 | The copy of a tree with distinct keys has exactly as many nodes, and as much text in names and leaves, as were charged for it. |
| `ConflictContract.StringMap` | adapters/patrol/src/main/java/com/ouroboros/harness/adapter/patrol/PatrolConflictV2Client.java:688-704 | A bounded map with short string keys becomes the merged map, a repeated key keeping its place; anything else is refused. |
| `ConflictContract.FieldsReadLast` | adapters/patrol/src/main/java/com/ouroboros/harness/adapter/patrol/PatrolConflictV2Client.java:688-704 | A field read from the plain map is what the last entry of that name held. |
| `ConflictContract.MergedShrinks` | adapters/patrol/src/main/java/com/ouroboros/harness/adapter/patrol/PatrolConflictV2Client.java:692-702 | Merging repeated keys yields distinct keys, invents no entry and never raises the node or character totals. |
| `ConflictContract.PartIsCopyable` | adapters/patrol/src/main/java/com/ouroboros/harness/adapter/patrol/PatrolConflictV2Client.java:519-524 | A map inside an acceptable value is acceptable on its own, merged or not: the event's own copy already pays for data and payload. |
| `ConflictContract.ValidateEvent` | adapters/patrol/src/main/java/com/ouroboros/harness/adapter/patrol/PatrolConflictV2Client.java:464-572 | In the client's own order of checks: accepts exactly the events that meet the field contract and can be copied once under a fresh budget, and hands back the numbers and identifiers under eventId, aggregateId and aggregateRevision; the two earlier trial copies never change the verdict. |
| `ConflictContract.KindChecks` | adapters/patrol/src/main/java/com/ouroboros/harness/adapter/patrol/PatrolConflictV2Client.java:467-487 | The three checks of type and action leave exactly the listed pairs. |
| `ConflictContract.ValidateStatusSnapshot` | adapters/patrol/src/main/java/com/ouroboros/harness/adapter/patrol/PatrolConflictV2Client.java:383-405 | The checks of a status in their own order amount to the declared contract. |
| `ConflictContract.ValidateCombatStatus` | adapters/patrol/src/main/java/com/ouroboros/harness/adapter/patrol/PatrolConflictV2Client.java:407-462 | Likewise for combat participation: none of it, or all of it with a tag of 5 seconds to 10 minutes. |
| `ConflictContract.ValidateActor` | adapters/patrol/src/main/java/com/ouroboros/harness/adapter/patrol/PatrolConflictV2Client.java:539-568 | Likewise for who acted: nobody only for the system, otherwise one player under all three names, the aggregate or its counterparty where the role says so. |
| `ConflictContract.StatusCall` | adapters/patrol/src/main/java/com/ouroboros/harness/adapter/patrol/PatrolConflictV2Client.java:105-123 | A status is returned exactly when it meets the contract of an available or unavailable status and can be copied; what is returned mirrors it. |
| `ConflictContract.CopyReads` | adapters/patrol/src/main/java/com/ouroboros/harness/adapter/patrol/PatrolConflictV2Client.java:140-176 | Reading a field of the returned copy gives the copy of that field of the peer's map. |
| `LiveEvidence.WindowIsLongestSuffix` | adapters/patrol/src/main/java/com/ouroboros/harness/adapter/patrol/PatrolConflictV2Client.java:341-349 | The window is a suffix, and every longer suffix breaks a cap. |
| `LiveEvidence.WindowSlides` | adapters/patrol/src/main/java/com/ouroboros/harness/adapter/patrol/PatrolConflictV2Client.java:341-353 | Evicting event by event gives the same window as cutting the whole history once. |
| `LiveEvidence.EvidenceOfRun` | adapters/patrol/src/main/java/com/ouroboros/harness/adapter/patrol/PatrolConflictV2Client.java:329-357 | After every interleaving of captures, rejections, clears and closes: the retained events are the longest suffix of the accepted ones within the count, character and node caps, the running totals are the sums over it, and every lost event is counted, as truncated or as dropped by a close. |
| `LiveEvidence.ConservationExact` | adapters/patrol/src/main/java/com/ouroboros/harness/adapter/patrol/PatrolConflictV2Client.java:207-214 | After every run, retained + truncated is what was accepted since the last reset plus the count a last close kept; so it is what was accepted if and only if that count is 0. |
| `LiveEvidence.ConservationWithoutClose` | adapters/patrol/src/main/java/com/ouroboros/harness/adapter/patrol/PatrolConflictV2Client.java:329-357 | Without a close, retained + truncated = accepted since the last clear. |
| `LiveEvidence.ConservationAfterClose` | adapters/patrol/src/main/java/com/ouroboros/harness/adapter/patrol/PatrolConflictV2Client.java:873-882 | After a close, that equation holds if and only if nothing had been truncated before it, because close keeps the old count. |
| `LiveEvidence.StaleCountWitness` | adapters/patrol/src/main/java/com/ouroboros/harness/adapter/patrol/PatrolConflictV2Client.java:873-882 | 65 events of 131,072 characters, then a close: nothing retained, nothing accepted, one truncated. |
| `LiveEvidence.LiveBuffer.Append` | adapters/patrol/src/main/java/com/ouroboros/harness/adapter/patrol/PatrolConflictV2Client.java:340-353 | The eviction loop moves the queue, both totals and the counter to exactly the next state of the window. |
| `LiveEvidence.LiveBuffer.RecordLiveError` | adapters/patrol/src/main/java/com/ouroboros/harness/adapter/patrol/PatrolConflictV2Client.java:854-859 | Keeps the last 64 errors. |
| `LiveEvidence.LiveBuffer.ClearEvents` | adapters/patrol/src/main/java/com/ouroboros/harness/adapter/patrol/PatrolConflictV2Client.java:207-217 | Back to the empty state, count included. |
| `LiveEvidence.LiveBuffer.Close` | adapters/patrol/src/main/java/com/ouroboros/harness/adapter/patrol/PatrolConflictV2Client.java:874-882 | Back to the empty state, except for the count. |
| `LiveEvidence.LiveBuffer.Capture` | adapters/patrol/src/main/java/com/ouroboros/harness/adapter/patrol/PatrolConflictV2Client.java:329-357 | One event of the feed is an invalid-event error exactly when it breaks the contract, a size error exactly when the text of its copy is too long, and otherwise captured as a value that mirrors it with its length and its nodes; the second copy cannot fail. |
| `ConflictReplay.NoteDescribes` | adapters/patrol/src/main/java/com/ouroboros/harness/adapter/patrol/PatrolConflictV2Client.java:246-251 | One more event keeps the meaning of the flags: strictly increasing above the start, distinct ids, right player, largest revision. |
| `ConflictReplay.IsForPlayer` | adapters/patrol/src/main/java/com/ouroboros/harness/adapter/patrol/PatrolConflictV2Client.java:493-497 | An accepted event is the player's own under aggregateId and has a positive aggregateRevision, so aggregateMatches can only be cleared by a failed event. |
| `ConflictReplay.ReplayResult` | adapters/patrol/src/main/java/com/ouroboros/harness/adapter/patrol/PatrolConflictV2Client.java:220-274 | No error exactly when the list is within bound and within the cumulative budget, every event is valid for the player, the numbers under aggregateRevision strictly increase above afterRevision and the identifiers under eventId differ. Otherwise the flags and the largest revision are those of the accepted prefix, copied up to the first event that was refused or too much for the budget; only an unreadable number makes the call fail. |
| `ConflictReplay.ReplayFrom` | adapters/patrol/src/main/java/com/ouroboros/harness/adapter/patrol/PatrolConflictV2Client.java:123-138 | The same for a replay request, refused for a negative revision or a failing provider. |
| `ConflictReplay.Reconcile` | adapters/patrol/src/main/java/com/ouroboros/harness/adapter/patrol/PatrolConflictV2Client.java:140-187 | Valid if and only if the status is accepted and available, the replay conforms, and the status revision is at least afterRevision and every replayed aggregateRevision; an error is reported exactly when one of the first two fails. |
| `ConflictWitness.ValidReconciliationExists` | adapters/patrol/src/main/java/com/ouroboros/harness/adapter/patrol/PatrolConflictV2Client.java:140-187 | For every player some client accepts two events with different ids of their own and revisions 1 and 2, their replay conforms, and an accepted available status covers it. |
| `ConflictSubscription.Subscription.Provider` | adapters/patrol/src/main/java/com/ouroboros/harness/adapter/patrol/PatrolConflictV2Client.java:277-327 | A lookup changes nothing when the provider is missing, malformed or already subscribed to; any other usable one replaces it, after the old handle was closed; every error tells what was wrong. |
| `ConflictSubscription.Subscription.CheckProtocol` | adapters/patrol/src/main/java/com/ouroboros/harness/adapter/patrol/PatrolConflictV2Client.java:278-304 | A provider is usable exactly when it is a bounded map with both expected versions and three functions; otherwise the error is the first thing wrong. |
| `ConflictSubscription.Follow` | adapters/patrol/src/main/java/com/ouroboros/harness/adapter/patrol/PatrolConflictV2Client.java:276-327 | Every history of lookups and closes: the subscription is the one the history prescribes, at most one handle is open, and every other was closed exactly once. |
| `ConflictSubscription.Subscription.CloseSubscription` | adapters/patrol/src/main/java/com/ouroboros/harness/adapter/patrol/PatrolConflictV2Client.java:861-871 | The handle is forgotten whether or not closing it throws. |
| `ConflictSubscription.AtMostOneOpen` | adapters/patrol/src/main/java/com/ouroboros/harness/adapter/patrol/PatrolConflictV2Client.java:276-327 | In every history that opens and closes as the class does, at most one handle is open, it is the current one, and every other was closed exactly once. |
| `ProviderControl.CofferAdapter.CaptureAndPublish` | adapters/coffer/src/main/java/com/ouroboros/harness/adapter/coffer/CofferHarnessAdapterMod.java:137-145 | The original is captured once, before the replacement is computed from it; on failure the provider shows what it showed. |
| `ProviderControl.CofferAdapter.RestoreProvider` | adapters/coffer/src/main/java/com/ouroboros/harness/adapter/coffer/CofferHarnessAdapterMod.java:147-150 | A captured provider shows its original again; an uncaptured one is left alone. |
| `ProviderControl.CofferAdapter.RestoreAllProviders` | adapters/coffer/src/main/java/com/ouroboros/harness/adapter/coffer/CofferHarnessAdapterMod.java:152-157 | All captured providers show their originals, none stays captured, the break guard is gone. |
| `ProviderControl.CofferAdapter.ProviderControl` | adapters/coffer/src/main/java/com/ouroboros/harness/adapter/coffer/CofferHarnessAdapterMod.java:97-120 | After every command, accepted or refused, each provider does what its persisted control says, told by what a caller sees, and any other is the original; a command succeeds exactly when it is supported, names a player where one is needed and the original can carry the fault, and persists exactly its own mode and player. |
| `ProviderControl.CofferAdapter.Switch` | adapters/coffer/src/main/java/com/ouroboros/harness/adapter/coffer/CofferHarnessAdapterMod.java:106-118 | The registry and guard after a supported command are those of its new control, or unchanged in what they show if it fails. |
| `ProviderControl.CofferAdapter.Restart` | adapters/coffer/src/main/java/com/ouroboros/harness/adapter/coffer/CofferHarnessAdapterMod.java:122-135 | A restart succeeds exactly when every persisted control applies to the newly published originals, and then every provider does what its control says; if it stops half-way each provider shows its original or its prescribed value. |
| `ProviderControl.Execute` | adapters/coffer/src/main/java/com/ouroboros/harness/adapter/coffer/CofferHarnessAdapterMod.java:97-157 | Over every history of commands and restarts with the same originals, every provider does what its persisted control says over its original, never over an earlier replacement. |
| `ProviderControl.LastCommandWins` | adapters/coffer/src/main/java/com/ouroboros/harness/adapter/coffer/CofferHarnessAdapterMod.java:97-120 | A provider shows what the last effective command for it prescribes, whatever came before and however often the process restarted. |
| `ProviderControl.RestoreBringsBack` | adapters/coffer/src/main/java/com/ouroboros/harness/adapter/coffer/CofferHarnessAdapterMod.java:147-157 | Restoring one provider, or all, brings back the original after any history. |
| `ProviderControl.FaultIsolation` | adapters/coffer/src/main/java/com/ouroboros/harness/adapter/coffer/CivilizationProviderControl.java:32-92 | A fault keeps every member of the original protocol except the ones it names, which are all replaced. |
| `ProviderControl.Projections` | adapters/coffer/src/main/java/com/ouroboros/harness/adapter/coffer/CivilizationProviderControl.java:94-127 | For every request: the resident projection admits the player, keeps earlier residents in order and everything else, and is idempotent; the transfer makes the owner player:<id> and keeps everything else; null and empty answers stay. |
| `ProviderControl.ReplacementObserved` | adapters/coffer/src/main/java/com/ouroboros/harness/adapter/coffer/CivilizationProviderControl.java:16-127 | What each fault does to a caller: missing publishes nothing, malformed only protocolVersion 1, resident and transferred project every answer, stale denies both predicates, the throwing faults replace exactly the members they name. |
| `ProviderControl.ReplaceableIff` | adapters/coffer/src/main/java/com/ouroboros/harness/adapter/coffer/CivilizationProviderControl.java:16-92 | A replacement can be built exactly for a supported pair, over a published map where one is needed, with a player and a callable at function for the two structure faults. |
| `ProtocolClient.SettledByFirstDecision` | src/client.ts:222-263 | Over every interleaving, a request settles exactly as the first reply with its id, timeout, fatal message or exit after it was sent. |
| `ProtocolClient.SettledForGood` | src/client.ts:228-235 | A settled request keeps its outcome for ever; the id counter never falls. |
| `ProtocolClient.IdsAreNeverReused` | src/client.ts:227 | No id is handed out twice, reconnects included. |
| `ProtocolClient.LateRepliesChangeNothing` | src/client.ts:237-244 | A reply has an effect if and only if its request was sent and has not settled. |
| `ProtocolClient.NothingPendingAfterExit` | src/client.ts:114-123 | After an exit nothing is pending and every request ever sent has settled. |
| `ProtocolClient.ConnectedMeansSpawned` | src/client.ts:35-39 | Connected if and only if a spawn came with no end, exit or finished disconnect since. |
| `ProtocolClient.ChildLives` | src/client.ts:71-117 | The child held is the one started last, unless it has exited since. |
| `ProtocolClient.ExpectsWhenAsked` | src/client.ts:76-145 | An exit is expected exactly when it was asked for, by a disconnect of a living child or after a failed connect, since the last start. |
| `ProtocolClient.RecordedEvents` | src/client.ts:110-147 | The recorded events are those of the recording steps, in order: events under their own names, disconnects of a living child, and an end for each exit that was not expected. |
| `ProtocolClient.Connection.SendRequest` | src/client.ts:222-235 | A request gets the next id and becomes pending, unless there is no writable child. |
| `ProtocolClient.Connection.RejectAll` | src/client.ts:258-262 | Every pending request that has not settled settles with this error, and no other. |
| `ProtocolClient.Connection.ChildExited` | src/client.ts:114-123 | The exit handler's whole new state. |
| `ProtocolClient.Connection.HandleEvent` | src/client.ts:245-257 | Records the event and moves the connection flag. |
| `PeerLoop.Handle` | client/src/main.rs:86-180 | One turn of the select appends exactly what the wake prescribes after the wakes before it, keeps what was written, and keeps the account of the whole. |
| `PeerLoop.Run` | client/src/main.rs:85-181 | The output is, message by message and in order, what the handled wakes prescribe. So each parsed request is answered once, in order, under its own id; one spawn, then dimension changes; each death once until the next spawn; window messages add up to the last tick's window; health is reported on each change of a known value. |
| `PeerLoop.OutputByWake` | client/src/main.rs:86-180 | The output falls into one segment per wake, told by the wake alone: the response behind the writes of its request, end, error, fatal and protocol error each at its own wake, nothing else. |
| `PeerLoop.DistinctRequestsGetDistinctAnswers` | client/src/main.rs:99-114 | If no id is asked twice, no id is answered twice. |
| `LogMonitor.ScannerSplits` | src/log-monitor.ts:30-31 | The \r?\n scanner splits at every newline and drops one return before it. |
| `LogMonitor.Reassembles` | src/log-monitor.ts:29-32 | The text is its lines, each followed by the one separator it was cut at, and the partial rest: nothing else is lost. |
| `LogMonitor.FindingsAreReports` | src/log-monitor.ts:48-62 | The findings of a log are, each once and in order of lines and rules, the pairs of a rule and a line it matches, does not ignore and does not exempt after the line before. |
| `LogMonitor.ChunksDoNotMatter` | src/log-monitor.ts:28-33 | However a text is cut into chunks, also between \r and \n, the monitor ends with the text's own lines, partial line and findings. |
| `LogMonitor.ChunkIndependence` | src/log-monitor.ts:28-33 | Two ways of cutting the same text end in the same state. |
| `LogMonitor.Monitor.Accept` | src/log-monitor.ts:28-33 | A chunk moves lines, partial and findings to exactly that state. |
| `LogMonitor.Monitor.AcceptLine` | src/log-monitor.ts:48-62 | One more line: findings stay those of the whole log, numbered, with the closed-channel exemption looking at the previous line. |
| `LogMonitor.Monitor.Flush` | src/log-monitor.ts:35-38 | A non-empty partial line becomes a line, once. |
| `Interpolation.KeyAtExact` | src/utils.ts:123-125 | A placeholder starts here exactly when the text begins with its written form and the key is non-empty without closing brace. |
| `Interpolation.HolesAfterReplace` | src/utils.ts:125 | When the texts it inserts are inert, exactly the template's unbound placeholders remain, in order: none survives and none is created by gluing. |
| `Interpolation.TextsExactIff` | src/utils.ts:125 | Substitution leaves exactly the unbound placeholders of every template if and only if every bound text is inert. |
| `Interpolation.InterpolationExact` | src/utils.ts:121-132 | On whole trees with inert bindings: exactly the unbound placeholders remain and a second pass changes nothing; with primitive bindings shape and keys are kept. |
| `Interpolation.TreesExactIff` | src/utils.ts:121-132 | Interpolation leaves exactly the unbound placeholders of every tree if and only if every binding is inert as a text and names no variable itself. |
| `Interpolation.UnboundNoChange` | src/utils.ts:121-132 | A tree that names no bound variable is left as it is. |
| `Interpolation.NoBindingsNoChange` | src/utils.ts:121-132 | Without non-null bindings interpolation is the identity. |
| `InterpolatedValues.LonePlaceholder` | src/utils.ts:123-124 | A text that is one placeholder becomes the bound value itself, or stays. |
| `InterpolatedValues.CutExists` | src/utils.ts:125 | Every text can be cut into literal characters and placeholders such that no placeholder starts at a literal. |
| `InterpolatedValues.TextBecomes` | src/utils.ts:122-126 | Along any such cut: a lone placeholder becomes its value, any other text keeps its literals and its unbound placeholders and has each bound one's text in between. |
| `InterpolatedValues.ReplaceFills` | src/utils.ts:125 | The replacement fills every such cut, and the names found are the names between its braces. |
| `InterpolatedValues.TextByKind` | src/utils.ts:125 | The text of a value, kind by kind: lists joined by commas with null items empty, objects alike. |
| `InterpolatedValues.PartBecomes` | src/utils.ts:121-132 | At every path of a tree a text becomes what it should, a list keeps its length, an object its keys in order, and any other leaf stays. |
| `Interpolation.LoadsIffAllBound` | src/portfolio.ts:38-49 | With inert variables a manifest loads exactly when it names only bound ones, and otherwise the error names exactly the unbound ones. |
| `Interpolation.LoadingExactIff` | src/portfolio.ts:34-50 | Over all accepted manifests with these own variables, loading succeeds exactly when every named variable is bound, if and only if the variables in use are inert or the manifest's own ones name an unbound variable. |
| `Interpolation.ErrorsExactIff` | src/portfolio.ts:34-50 | Over the same manifests the outcome is right and the error lists exactly the unbound names, if and only if no bound value, alone or behind a dollar sign, opens a placeholder or names a variable other than the unbound ones among the manifest's own. |
| `Interpolation.UnboundLeavesSome` | src/portfolio.ts:34-50 | A tree that names an unbound variable never loads, whatever the bindings. |
| `InterpolatedValues.VariablesMean` | src/portfolio.ts:38-43 | Each name stands for the platform's value if it is one of the two, otherwise for the override, otherwise for what the manifest says. |
| `InterpolatedValues.LoadedParts` | src/portfolio.ts:34-50 | Every part of a manifest that loads became what it should, with each name standing for that meaning. |
| `Interpolation.SpoiledManifest` | src/portfolio.ts:34-50 | Unless the variables are inert, some accepted manifest that names one more bound variable keeps a placeholder. |
| `Interpolation.DollarTextCreatesPlaceholder` | src/utils.ts:125 | A dollar sign in a bound text, last or before a brace not closed at once, creates a placeholder with a literal {b} behind the text; it is ${b} when that dollar sign is the last character and the only one. |
| `Interpolation.BraceTextCreatesPlaceholder` | src/utils.ts:125 | A bound text that starts with an opening brace not closed at once creates one with a dollar sign before it. |
| `Interpolation.EmptyTextCreatesPlaceholder` | src/utils.ts:125 | So does an empty text between a dollar sign and {b}. |
| `ModsDirectory.AuditModsDirectory` | src/production-manifest.ts:335-368 | A finding is reported if and only if it is justified, and the report is empty if and only if every enabled mod has one jar, disabled mods none, no two mods share a name up to case, and every jar belongs to a mod. |
| `ModsDirectory.RecordMatches` | src/production-manifest.ts:342-346 | The map of claims holds, per lower-cased name, the ids of the mods that match it. |
| `ModsDirectory.MatchesExact` | src/production-manifest.ts:388-393 | A file matches a name up to the case of the 26 letters, and a pattern when it can be cut into runs without line terminators at the stars and single characters elsewhere. |
| `ModsDirectory.LowerExact` | src/production-manifest.ts:343 | Two lowered names are equal exactly when they differ only in the case of letters. |
| `ModsDirectory.ResolveProductionArtifacts` | src/production-manifest.ts:233-263 | Succeeds exactly when each enabled mod has one jar and no two share a name; otherwise the error tells the first mod that cannot be resolved and why. |
| `ModsDirectory.SoundIsBijection` | src/production-manifest.ts:233-368 | A clean audit makes the resolution a bijection between enabled mods and jars. |
| `ModsDirectory.SoundIsCaseDistinct` | src/production-manifest.ts:343-344 | In a clean directory no two jars are equal up to case. |
| `ModsDirectory.BijectionIsSound` | src/production-manifest.ts:335-368 | Conversely, a bijective resolution with no jar of a disabled mod audits clean. |
| `ModsDirectory.AuditThenResolve` | src/production-manifest.ts:233-368 | On one listing: the audit is clean if and only if the resolution succeeds as a bijection and no disabled mod is present. |
| `Retries.WaitUntilAssertion` | src/runner.ts:685-716 | Returns n exactly when the first n - 1 attempts failed their assertion in time and the n-th passed; every other end is determined likewise; at most ceil(timeout / interval) + 1 attempts. |
| `Retries.AttemptBound` | src/runner.ts:696-715 | The attempt bound, for any environment. |
| `Retries.RetryClientConnection` | src/runner.ts:718-744 | A whole run: each attempt is granted the time left, a retry follows only an ambiguous rejection with more than the delay left, such a rejection is final only on the last attempt or when time is short, and the end is classified exactly. |
| `Retries.RunIsDetermined` | src/runner.ts:718-744 | The operation and the parameters determine the run. |
| `Retries.ChainKeepsDeadline` | src/runner.ts:724-741 | If attempts keep their budgets and the delay is not negative or never used, every budget is positive and everything ends by the deadline, or after one millisecond where there was no time. |
| `Retries.NegativeDelayMissesDeadline` | src/runner.ts:736-740 | With any negative delay, some time and two attempts, a whole run whose attempts keep their budgets ends one millisecond late. |
| `Retries.NoTimeMissesDeadline` | src/runner.ts:726 | With a timeout of zero or less the first attempt is still granted a millisecond, and a run of one attempt ends late. |
| `Retries.DeadlineKeptIff` | src/runner.ts:724-741 | For all parameters: runs whose attempts keep their budgets are certain to end by the deadline if and only if there is no attempt, or timeoutMs >= 1 and the delay is not negative or there is at most one attempt. |
| `ScenarioRunner.ScenarioRun.RunSteps` | src/runner.ts:142-152 | One result per step in order; the first failure becomes the error. |
| `ScenarioRunner.ScenarioRun.CleanupServices` | src/runner.ts:1111-1118 | Every service is tried; the failing ones are reported together and are exactly the ones kept. |
| `ScenarioRunner.ScenarioRun.CleanUp` | src/runner.ts:160-178 | Every client, the server and every service gets one attempt, in order, whatever fails. |
| `ScenarioRunner.ScenarioRun.Run` | src/runner.ts:140-233 | The report's error is the first thing that went wrong, never replaced; the cleanup attempts depend on nothing; the run aborts exactly when the log cannot be closed, a file or the report cannot be written, or a log pattern is invalid. |
| `ScenarioRunner.FailsExactlyWhen` | src/runner.ts:151-196 | Failed exactly when a step failed, an unallowed finding was in the log after the steps, or a cleanup threw. |
| `ScenarioRunner.SkippedAfterFirstFailure` | src/runner.ts:143-151 | After the first failed step exactly the later steps that are not always-steps are skipped. |
| `TickMetrics.HarnessMetrics.EndTick` | bridge/src/main/java/com/ouroboros/harness/bridge/HarnessMetrics.java:18-24 | The ring holds the last 12,000 durations after every tick. |
| `TickMetrics.HarnessMetrics.TakeSnapshot` | bridge/src/main/java/com/ouroboros/harness/bridge/HarnessMetrics.java:42-64 | Every reported number in terms of the plain history: nearest ranks and maximum of the last 12,000, the last duration, the last 100 in order; p50 <= p95 <= p99 <= max. |
| `TickMetrics.RingIsWindow` | bridge/src/main/java/com/ouroboros/harness/bridge/HarnessMetrics.java:43-45 | The copied slots are the last min(n, 12,000) durations, rotated. |
| `TickMetrics.PercentileIsNearestRank` | bridge/src/main/java/com/ouroboros/harness/bridge/HarnessMetrics.java:66-70 | The indexed value is the smallest sample value that at least the given share of the sample does not exceed. |
| `TickMetrics.NearestRankIsUnique` | bridge/src/main/java/com/ouroboros/harness/bridge/HarnessMetrics.java:66-70 | There is only one such value. |
| `TickMetrics.SamplePerformanceExact` | src/runner.ts:951-961 | The runner's statistics meet the same specification. |
| `RaidSafety.AuditRaidSafetyMatrix` | src/raid-safety-matrix.ts:75-227 | A finding is reported if and only if it is justified; ready and valid mean exactly the declared conditions. |
| `RaidSafety.AuditArtifact` | src/raid-safety-matrix.ts:89-133 | The findings about one required artifact are exactly its justified ones. |
| `RaidSafety.AuditReference` | src/raid-safety-matrix.ts:138-199 | The findings about one scenario reference are exactly its justified ones, and the artifacts it binds are collected. |
| `RaidSafety.AuditEntry` | src/raid-safety-matrix.ts:135-211 | Likewise for an entry, unbound artifacts included. |
| `RaidSafety.LastModFound` | src/raid-safety-matrix.ts:83 | Of several mods with one id the last is found. |
| `RaidSafety.LastScenarioFound` | src/raid-safety-matrix.ts:82 | So is the last scenario. |
| `RaidSafety.LastTargetFound` | src/raid-safety-matrix.ts:84 | So is the last target. |
| `RaidSafety.LastListingFound` | src/raid-safety-matrix.ts:85-87 | Of several targets that list a scenario the last is found. |
| `RaidSafety.BasenameIsLastSegment` | src/raid-safety-matrix.ts:403 | The base name is the last non-empty segment of a path; only a path of slashes has none. |
| `RaidSafety.ReadyIffNoIssue` | src/raid-safety-matrix.ts:216-219 | Nothing justified to find is the same as every required artifact deployed and every entry ready. |
| `RaidSafety.SoundIffNoError` | src/raid-safety-matrix.ts:216 | No justified error is the same as every entry sound. |
| `RaidSafety.ReadyMeans` | src/raid-safety-matrix.ts:213-219 | For a validated matrix: every claim is executable and each of its artifacts rests on a known, catalogued scenario whose every binding is a required installed slot supplied with a jar that a deployed production mod accepts. |

## Left out

- ToJson: which of the limits an error names is not stated, only when the copy succeeds, and that a number BigDecimal cannot read is behind the one exception that is no contract failure.
- ReplayResult: the text of an error is not stated; a call fails only over an unreadable number, but such a number need not make it fail if an earlier check refuses the event.
- Reconcile: the revision read from the copy of an unavailable status is modelled but nothing is stated about it.
- Snapshot: provider answers are read as values once per call; a map or list that changes between two reads of the same answer is not modelled. The same holds for every value of the conflict peer, except that the claimed size of a collection need not match what it yields. Which error a malformed answer gives is modelled, in the order of the checks, but stated only as that function.
- Provider: what the three functions of a protocol do when called is an arbitrary outcome; that they are functions is checked.
- Capture: a null event and a peer map whose lookups disagree with its iteration are not modelled; the length of the serialized copy is a parameter.
- ValidateEvent: UUID and timestamp parsing, exact and truncating number conversion, blankness and equality of JSON copies are parameters.
- Contains: the coordinates echoed in the answer are left out.
- Restart: reading and writing the controls file always succeeds, and no other mod writes the same registry keys afterwards.
- RestoreAllProviders: the order in which captured providers are restored is not modelled; it does not matter.
- Connection: how the connect promise itself settles, spawning and killing the process, and stream errors are left out; whether standard input is writable is a parameter, and one child is alive at a time.
- Run: message payloads and NaN health of the peer loop; preparation and dry runs of the scenario runner, and the contents of its files and report.
- Accept: decoding bytes that split a character, and the regular expressions of the rules, are parameters.
- Interpolate: names that collide with members of JavaScript's object prototype, as keys or as fields of a bound object, are not modelled.
- MatchesIgnoresCase: case folding is ASCII, and a pattern is a name in which only * is special.
- AuditModsDirectory: the directory listing is fixed; the order of findings is not stated.
- AuditRaidSafetyMatrix: the entry and the message of a finding are left out; paths use forward slashes.
- TakeSnapshot: durations are reals and the ranks exact rationals; a tick during a snapshot is not modelled.
- WaitUntilAssertion: milliseconds are integers and sleeps exact.
- Block, inventory and protection calls into Minecraft, Fabric and Coffer; HTTP, SQLite, Docker and downloads: effects in code that is not part of this model.
- Accepted: of the portfolio validator, the rules for targets are a parameter; some valid targets name no variable.
- Schema validation and the other field-by-field validators of the TypeScript manifests: each line is settled by one branch; their conclusions are preconditions.
- HTML, Markdown and JUnit reports, formatting and command-line help: presentation only.
