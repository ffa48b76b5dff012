# Hermes Link Server: verified models

Dafny models of the parts of Hermes Link Server whose behaviour spans several calls, and proofs about them.
`dafny verify dfyconfig.toml` checks everything.

| modules | what they model |
|---|---|
| `DirectLog`, `EventTable`, `Filters`, `PublishLaws` | the DIRECT notification table: two unique keys, a sequence that is never reused, and pruning by age and then by count inside every insert |
| `Delivery`, `DeliveryOrder`, `DeliveryLimits`, `DeliveryExamples`, `StreamLoop` | one device's notification stream as steps of a publisher, the server's cursor loop and a client that reconnects with the last event id it received |
| `SseBlocks`, `TraceEvents`, `BlockFields`, `ExecutionEvents`, `ChatRelay`, `RelayLaws`, `TerminalLaws` | the relay of a chat stream: incremental splitting at blank lines (section 9.2.5 of the WHATWG HTML Living Standard), rewriting of tool progress, terminal state, and a client that may stop listening |
| `Pairing`, `PairingRuns`, `TokenLife` | pairing tickets, device tokens, and every interleaving of their transactions |
| `OciArchive`, `MerkleUniqueness`, `ArchiveAcceptance` | verification of an OCI image archive from a pinned digest to its layers (OCI Image Format Specification, "OCI Content Descriptors") |
| `Base64`, `Base64Laws`, `Attachments`, `AttachmentLaws`, `MessageContent` | base64 and unpadded base64url (sections 4, 5 and 3.2 of RFC 4648), and the rewriting of chat attachments |
| `PathRouting`, `RoutingLaws`, `RoutingTable`, `HeaderLaws` | protocol paths, Agent paths, headers, and the profile a device token is checked for |
| `PyText`, `TextPatterns`, `Json`, `ByteStrings`, `Wrappers` | Python string operations, identifier patterns, JSON values, bytes, and results |

Where the source mutates, the model does: the notification store and the pairing store are classes, and the
read, relay, archive, attachment and header loops are methods with loops. Each is proved equal to a function of
its inputs or of the old state, and the results below are about those functions.

Library routines enter as arbitrary functions, so that the results hold whatever they do: JSON parsing, `str` of
non-strings, `str.lower`, redaction, UTF-8 decoding, percent-decoding, and SHA-256. Where a hash must not
collide, the hypothesis speaks only of the contents or tokens at hand. Clock readings and random codes, ids and
tokens are arbitrary parameters that may repeat and collide.

## Main results

- **At least once** (`Delivery.AtLeastOnce`). In every interleaving of publishes, polls, writes, stops, receipts
  and reconnects in which no event id is stored again while it is held, the client has every retained in-scope
  event up to the row its cursor resolves to; an idle stream means it has all of them. Timestamps are arbitrary,
  so age pruning need not remove a prefix. The hypothesis is tight (`DeliveryLimits.AtLeastOnceIsTight`): after any
  such run, one more in-scope publish keeps the guarantee for every continuation if and only if its id is not held,
  whether by the client, on the wire or in the unread batch. `DeliveryLimits.ReusedIdSkipsExactly` says what is lost
  otherwise, `DeliveryExamples.AnEventIsLost` is a concrete run, and `StreamLoop.ServedIsARun` ties the server's
  actual loop to these runs.
- **Exactly once, in order** (`DeliveryOrder.ExactlyOnceInOrder`). With distinct ids and non-decreasing timestamps,
  received sequences strictly increase across all reconnects and leave no gap.
  `DeliveryLimits.PollRepeatsExactlyWhen` says exactly when a poll repeats without the second hypothesis, and
  `DeliveryExamples.AnEventIsRepeated` is a concrete run.
- **The store keeps what was published**: over every run the history lists the accepted events with their own fields
  (`PublishLaws.HistoryIsTheAcceptedEvents`), and incremental pruning refines a one-shot filter
  (`DirectLog.IncrementalPruningIsWindow`), without any hypothesis on timestamps when the store's clock stamps them and
  does not go back (`PublishLaws.ClockedPublishesAreWindowed`).
- **The relay depends on the text alone** (`ChatRelay.RelayChatStream`), however it is cut into chunks, and its
  output is a fixed point of relaying if and only if the input does not end in an open tail: unterminated text that
  closes with one newline and is not a tool-progress event (`RelayLaws.RelayingAgainIffClosed`). Its state is "failed"
  exactly when the last unit that ends anything gives one of four reasons (`TerminalLaws.FinalStateIs`), and a client
  reads every rewritten block back as the members of the upstream event (`ExecutionEvents.RewrittenBlockSays`).
- **Pairing** keeps a one-to-one correspondence between device rows and used tickets
  (`PairingRuns.DevicesAreUsedTickets`); a code is good until it is spent or expires, whatever happens in between
  (`PairingRuns.CodeIsGoodUntilSpentOrExpired`); no code succeeds twice, a token stands for exactly the granted scope until
  it is revoked (`TokenLife.TokenIsGoodUntilRevoked`); revocation is permanent, and inserting a revocation into any
  history changes no other token's answers.
- **Archives** are accepted if and only if a complete way leads from the pinned digest to a manifest, its config and
  its layers (`ArchiveAcceptance.AcceptedIff`). **Merkle uniqueness** (`MerkleUniqueness.AcceptedArchivesAgree`): a pinned digest fixes every byte that was
  checked, up to the kind of the root, which the unhashed `index.json` states; an archive in which a reachable
  blob was changed or removed is rejected, unless the pinned root reads both as an index and as a manifest
  (`MerkleUniqueness.TamperedBlobIsRejected`).
- **Attachments**: a request is accepted exactly when every message is (`MessageContent.RequestAcceptedExactly`), and
  each message then presents its text, a section for every file and a part for every image that decodes to the
  image's bytes (`MessageContent.AcceptedContent`); the result is a normal form that keeps order and other fields.
- **Routing** is exactly the table of routes (`RoutingTable.RoutesExactly`), and agrees with **authorisation** on the
  profile of every translated path.

The terminal state of a chat stream is last-wins in the code: an error followed by `[DONE]` is returned as
"completed" (`RelayLaws.DoneOverridesError`), and the model states it that way.

## Model

| member | source | states |
|---|---|---|
| DirectLog.DirectNotificationStore.constructor | src/hermes_link/notifications/direct.py:21-47 | a new store is empty, keeps at least 60 seconds and at least one event, and otherwise what was configured |
| DirectLog.DirectNotificationStore.Publish | src/hermes_link/notifications/direct.py:60-96 | inserts and prunes, or returns the stored row and changes nothing; keeps the store consistent; what the row holds is `PublishLaws.AcceptedRowCarriesTheEvent` |
| DirectLog.DirectNotificationStore.Prune | src/hermes_link/notifications/direct.py:98-115 | the two deletions, by age and then by count |
| DirectLog.DirectNotificationStore.ReadAfter | src/hermes_link/notifications/direct.py:117-131 | fails exactly for a blank profile; otherwise the first rows of the profile after the sequence, at most 500 |
| DirectLog.DirectNotificationStore.ReadAfterEventId | src/hermes_link/notifications/direct.py:133-180 | succeeds exactly for valid profiles, at least one, and a valid or blank cursor, with the error for each other case; returns the batch of those profiles after the resolved cursor |
| DirectLog.ScopeOf | src/hermes_link/notifications/direct.py:148-157 | the non-blank profiles at their first occurrences, or failure exactly when one is no identifier |
| DirectLog.FirstNamesAreDistinct | src/hermes_link/notifications/direct.py:148-157 | those profiles are exactly the non-blank stripped values, each once |
| DirectLog.FirstNamesKeepOrder | src/hermes_link/notifications/direct.py:148-157 | later values only append, so the order is that of first occurrences |
| DirectLog.PublishKeepsConsistent | src/hermes_link/notifications/direct.py:35-46 | event ids and dedupe keys stay unique and sequences ascending after any publish |
| DirectLog.PublishIsIdempotentOnBothKeys | src/hermes_link/notifications/direct.py:64-96 | accepted exactly when no retained row has either key; otherwise nothing changes, one or two rows match, and the lowest sequence is returned |
| DirectLog.AcceptedRowSurvivesItsPrune | src/hermes_link/notifications/direct.py:81-115 | whatever the timestamps, an accepted row survives its own prune with the next sequence, and the table stays within its bound |
| DirectLog.PrunedIsNewest | src/hermes_link/notifications/direct.py:103-115 | the OFFSET query and the second deletion keep exactly the newest `max_events` rows |
| DirectLog.SequencesAreNeverReused | src/hermes_link/notifications/direct.py:35-46 | over every run accepted rows are numbered 1, 2, 3, ..., keys of retained rows are unique, and the bound holds |
| DirectLog.IncrementalPruningIsWindow | src/hermes_link/notifications/direct.py:98-115 | with non-decreasing timestamps the table after any run is the one-shot window of the whole history |
| DirectLog.ResolveRetained | src/hermes_link/notifications/direct.py:164-171 | a retained event id resolves to its own sequence |
| DirectLog.PagingEqualsOneRead | src/hermes_link/notifications/direct.py:158-180 | reading batch after batch from the last id ends and lists each row of one unbounded read once, in order, for any limit |
| PublishLaws.AcceptedRowCarriesTheEvent | src/hermes_link/notifications/direct.py:60-84 | an accepted row has the event's id, dedupe key, profile and body, and its time or, without one, the clock's; it is the newest row of the table |
| PublishLaws.PruneIsRelativeToTheRow | src/hermes_link/notifications/direct.py:85-115 | no row older than the retention before the new row's time is kept, and a younger one is dropped only at the bound |
| PublishLaws.HistoryIsTheAcceptedEvents | src/hermes_link/notifications/direct.py:60-96 | over every run the rows ever stored are the accepted events, in order, each with its own fields and time |
| PublishLaws.ClockedPublishesAreWindowed | src/hermes_link/notifications/direct.py:62-115 | publishes without a time under a clock that does not go back: every row carries its clock reading, the history is in time order, and the table is its window |
| PublishLaws.ReadsReturnTheLimit | src/hermes_link/notifications/direct.py:160-179 | a read returns the first rows in scope: the limit between 1 and 500, at most 500, at least one if there is one |
| PublishLaws.TakesTheLimit | src/hermes_link/notifications/direct.py:121-130 | the same bound for a read after a sequence |
| PublishLaws.PollsReadAHundred | src/hermes_link/integrations/hermes_agent/bridge.py:609-613 | a poll reads 100 rows in scope, or all there are |
| Delivery.NothingIsSkipped | src/hermes_link/integrations/hermes_agent/bridge.py:604-641 | the invariant of all runs: no point of the pipeline from server to client has passed over a retained in-scope event |
| Delivery.AtLeastOnce | src/hermes_link/integrations/hermes_agent/bridge.py:604-641 | at-least-once delivery over every interleaving, and completeness of an idle stream |
| Delivery.DistinctIdsAreNotReused | src/hermes_link/integrations/hermes_agent/bridge.py:425-433 | publishers that never repeat an id meet the hypothesis of at-least-once delivery |
| DeliveryOrder.FallbackReadsTheSame | src/hermes_link/notifications/direct.py:164-179 | falling back to 0 for an expired cursor reads the same rows as the lost sequence would |
| DeliveryOrder.ExactlyOnceInOrder | src/hermes_link/integrations/hermes_agent/bridge.py:604-641 | strictly increasing, gap-free delivery over whole runs including reconnects |
| DeliveryLimits.ReusedIdSkipsExactly | src/hermes_link/notifications/direct.py:164-179 | after storing a new event under any held id, writes and receipts lead to a point from which a reconnect is sent nothing and exactly what was not yet received is lost, an in-scope new event always |
| DeliveryLimits.CoveredIffNotHeld | src/hermes_link/notifications/direct.py:164-179 | after an accepted in-scope publish, every run that reuses no held id stays covered if and only if the stored id was not held |
| DeliveryLimits.AtLeastOnceIsTight | src/hermes_link/integrations/hermes_agent/bridge.py:604-641 | the same after every run from an empty store: the hypothesis of at-least-once delivery cannot be weakened |
| DeliveryLimits.PollRepeatsExactlyWhen | src/hermes_link/notifications/direct.py:164-179 | a poll repeats exactly when the last sent row has expired and an older in-scope row is retained |
| DeliveryExamples.AnEventIsLost | src/hermes_link/notifications/direct.py:98-115 | a concrete run of a one-event store in which an id is stored again and its new event is never sent |
| DeliveryExamples.AnEventIsRepeated | src/hermes_link/notifications/direct.py:98-115 | a concrete run with distinct ids and timestamps that go back in which one row is received twice |
| StreamLoop.WriteEvents | src/hermes_link/integrations/hermes_agent/bridge.py:617-640 | the write loop of one batch writes it all, or as many events as can be written, and the cursor is the last written id |
| StreamLoop.ServeStream | src/hermes_link/integrations/hermes_agent/bridge.py:604-641 | the rows the polling loop writes and the cursor it ends with, for any tables polled and any failing write |
| StreamLoop.ReadErrorEndsTheStream | src/hermes_link/integrations/hermes_agent/bridge.py:608-615 | a read that raises ends the stream, whatever would be polled later |
| StreamLoop.ServedIsARun | src/hermes_link/integrations/hermes_agent/bridge.py:604-641 | what the loop writes is what a run of publish, poll and write steps puts on the wire |
| StreamLoop.QuietStoreIsDrained | src/hermes_link/integrations/hermes_agent/bridge.py:604-641 | from any session with readable rows, with nothing more published, a reconnect and finitely many steps deliver each remaining event once and in order, and leave the store alone |
| SseBlocks.SplitConserves | src/hermes_link/integrations/hermes_agent/bridge.py:394-395 | splitting loses no text, and leaves no blank line in a block or in the tail |
| SseBlocks.SplitIsUnique | src/hermes_link/integrations/hermes_agent/bridge.py:394-395 | any blocks and tail that make up a text are the ones splitting finds |
| SseBlocks.SplitExtends | src/hermes_link/integrations/hermes_agent/bridge.py:389-395 | splitting the kept tail with the next chunk continues the split of everything, even inside a blank line |
| TraceEvents.TraceTool | src/hermes_link/integrations/hermes_agent/bridge.py:282-284 | the published tool name always matches its pattern, and is the asked-for one exactly when that matches |
| TraceEvents.TraceStatus | src/hermes_link/integrations/hermes_agent/bridge.py:287-288 | the status is "completed" exactly when the stripped lower-case text is, and "running" otherwise |
| TraceEvents.TraceDetail | src/hermes_link/integrations/hermes_agent/bridge.py:291-300 | the detail is a prefix of the redacted text with its spaces collapsed, all of it below 280 characters, and empty when redaction fails |
| TraceEvents.CollapsingKeepsWords | src/hermes_link/integrations/hermes_agent/bridge.py:300 | collapsing keeps the words, in order, joined by single spaces |
| PyText.WordsAre | src/hermes_link/integrations/hermes_agent/bridge.py:300 | what `split` finds: a word between white space whole, and nothing in white space |
| TraceEvents.NormalizeChatSseEvent | src/hermes_link/integrations/hermes_agent/bridge.py:311-344 | the line loop computes the rewritten block, which `ExecutionEvents.RewrittenBlockSays` tells member by member |
| TraceEvents.ChatStreamTerminalState | src/hermes_link/integrations/hermes_agent/bridge.py:347-374 | the line loop computes the block's terminal state, which `TerminalLaws.TerminalStateIs` tells case by case |
| TraceEvents.NormalizedTwice | src/hermes_link/integrations/hermes_agent/bridge.py:311-344 | rewriting is idempotent, changes exactly tool-progress blocks whose data is an object, and yields one block without carriage returns |
| TraceEvents.EscapeRoundTrip | src/hermes_link/integrations/hermes_agent/bridge.py:303-308 | every string is read back from its JSON form |
| TraceEvents.PayloadIsBounded | src/hermes_link/integrations/hermes_agent/bridge.py:328-343 | the published fields match their patterns and bounds, and phase and status agree |
| BlockFields.LinesMakeTheBlock | src/hermes_link/integrations/hermes_agent/bridge.py:315 | the lines of a block make it up and hold no newline |
| BlockFields.EventNameIsLast | src/hermes_link/integrations/hermes_agent/bridge.py:313-317 | the last `event:` line names the block, and "message" is the name without one |
| BlockFields.DataPartsAppend | src/hermes_link/integrations/hermes_agent/bridge.py:315-319 | the data of consecutive lines is their data in order |
| BlockFields.DataPartsOne | src/hermes_link/integrations/hermes_agent/bridge.py:318-319 | a `data:` line gives its stripped value, any other line nothing |
| BlockFields.TextOrCases | src/hermes_link/integrations/hermes_agent/bridge.py:282-293 | `str(value or default)` for every JSON value |
| ExecutionEvents.ObjectRoundTrip | src/hermes_link/integrations/hermes_agent/bridge.py:303-308 | a reader of JSON objects of texts reads the dump of any members back as exactly these members |
| ExecutionEvents.RewrittenExactly | src/hermes_link/integrations/hermes_agent/bridge.py:320-327 | a block is rewritten exactly when it is named after tool progress and its data is an object |
| ExecutionEvents.RewrittenBlockSays | src/hermes_link/integrations/hermes_agent/bridge.py:328-344 | a rewritten block is named `hermes.execution.event` and its data reads as id, type, phase, tool, status, summary and, if there is one, detail, each from its own upstream key |
| ChatRelay.RelayChatStream | src/hermes_link/integrations/hermes_agent/bridge.py:377-415 | state and offered frames are functions of the received text; the state does not depend on the client |
| RelayLaws.CutsAreInvisible | src/hermes_link/integrations/hermes_agent/bridge.py:389-393 | any cut into non-empty chunks is received as the single chunk would be, carriage returns removed |
| RelayLaws.ReadingStopsAtTheEnd | src/hermes_link/integrations/hermes_agent/bridge.py:389-392 | nothing after the empty chunk is read |
| RelayLaws.OfferedUpToRefusal | src/hermes_link/integrations/hermes_agent/bridge.py:400-414 | offered frames are all frames, or those up to and including the first not accepted |
| RelayLaws.StateIsLastWins | src/hermes_link/integrations/hermes_agent/bridge.py:396-398 | the state is the last non-empty one over all units, and empty exactly when there is none |
| RelayLaws.DoneOverridesError | src/hermes_link/integrations/hermes_agent/bridge.py:355-398 | an error followed by `[DONE]` ends as completed |
| TerminalLaws.TerminalStateIs | src/hermes_link/integrations/hermes_agent/bridge.py:347-374 | a block answers "failed" exactly when its first choice finishes with one of the four words, "completed" exactly for `[DONE]` or another reason, and nothing otherwise |
| TerminalLaws.FinalStateIs | src/hermes_link/integrations/hermes_agent/bridge.py:396-415 | the relay's state is "failed" or "completed" exactly as the last unit that ends anything, and empty when none does |
| RelayLaws.RelayingAgainIffClosed | src/hermes_link/integrations/hermes_agent/bridge.py:394-414 | the output splits into the rewritten units, and is relayed to the same frames, if and only if the tail is blank, does not end in a newline, or is a tool-progress event whose data is an object |
| RelayLaws.OpenTailExample | src/hermes_link/integrations/hermes_agent/bridge.py:405-412 | a concrete input for which relaying again changes the frames |
| RelayLaws.WithoutToolProgressNothingChanges | src/hermes_link/integrations/hermes_agent/bridge.py:320-321 | without tool progress the output is the input, with a blank tail dropped and any other terminated |
| Pairing.PairingStore.NormalizeProfiles | src/hermes_link/pairing/store.py:74-80 | the loop computes the scope |
| Pairing.PairingStore.CreateTicket | src/hermes_link/pairing/store.py:152-194 | the tables and result after creating a ticket, with every failure |
| Pairing.PairingStore.Exchange | src/hermes_link/pairing/store.py:196-254 | the tables and result after an exchange, a collision being rolled back |
| Pairing.PairingStore.DeviceProfileIds | src/hermes_link/pairing/store.py:256-283 | the scope of a live token, and only `last_used_at` of its row changes |
| Pairing.PairingStore.AuthenticateDeviceToken | src/hermes_link/pairing/store.py:285-290 | whether the token is good for the profile |
| Pairing.PairingStore.RevokeDeviceToken | src/hermes_link/pairing/store.py:292-306 | the rows after a revocation, and whether one was live |
| Pairing.ScopeHoldsTheValidIds | src/hermes_link/pairing/store.py:74-80 | a scope holds exactly the valid stripped ids |
| Pairing.ScopeHasNoDuplicates | src/hermes_link/pairing/store.py:74-80 | and each of them once |
| Pairing.ScopeKeepsFirstOccurrences | src/hermes_link/pairing/store.py:74-80 | later values only append, so the order is that of first occurrences |
| Pairing.ScopeTwice | src/hermes_link/pairing/store.py:74-80 | normalising profiles is idempotent |
| Pairing.OnlySlashesAreTrimmed | src/hermes_link/pairing/store.py:53-57 | only slashes are trimmed from the end of the address, and all of them |
| PairingRuns.CreationAddsOneTicket | src/hermes_link/pairing/store.py:161-194 | exactly when a ticket is created, what it holds, that nothing else changes, and which error a refusal names |
| PairingRuns.AuthenticatesIff | src/hermes_link/pairing/store.py:256-290 | a token authenticates exactly when a live row has its hash and its scope is empty or holds the profile |
| PairingRuns.DevicesAreUsedTickets | src/hermes_link/pairing/store.py:196-254 | over every run device rows and used tickets correspond one to one, tickets live 30 to 3600 seconds and are used before they expire, and ids and token hashes stay unique |
| PairingRuns.ExchangeIsAllOrNothing | src/hermes_link/pairing/store.py:200-254 | exactly when an exchange succeeds and what it then changes, the new device row included; a failure changes nothing; the scope is the ticket's |
| PairingRuns.TicketOverTime | src/hermes_link/pairing/store.py:201-254 | over any history an unused ticket keeps every field until an exchange of its code succeeds, and is used exactly when one has |
| PairingRuns.CodeIsGoodUntilSpentOrExpired | src/hermes_link/pairing/store.py:152-254 | what exchanging a created code answers after any history: used exactly if an exchange of it succeeded, expired exactly from its expiry on, a collision as an error, and otherwise the address and scope it was created with |
| PairingRuns.NoCodeSucceedsTwice | src/hermes_link/pairing/store.py:209-219 | once exchanged, a code is reported as used after any further history |
| PairingRuns.RevocationIsPermanent | src/hermes_link/pairing/store.py:265-306 | a revoked token never authenticates again and is never revoked again, even if the same token is drawn anew |
| PairingRuns.RevocationIsIsolated | src/hermes_link/pairing/store.py:292-306 | inserting a revocation into any history leaves every other token's answers as they were |
| TokenLife.MintedIsValid | src/hermes_link/pairing/store.py:168-226 | 32 random bytes always make a valid pairing code, and prefixed a valid device token |
| TokenLife.UrlCarriesTheCode | src/hermes_link/pairing/store.py:190-194 | the code is read back from the pairing URL, which begins with the server's address |
| TokenLife.InvitationIsRedeemable | src/hermes_link/pairing/store.py:152-254 | the code read in the pairing URL is answered after any history as used, expired, collided or with the grant |
| TokenLife.TokenIsGoodUntilRevoked | src/hermes_link/pairing/store.py:225-306 | after an exchange and any history without its revocation a token has exactly the granted scope, authenticates exactly for that scope or for every profile if it is empty, and can be revoked |
| TokenLife.RevokesExactly | src/hermes_link/pairing/store.py:292-306 | a revocation reports true exactly when a live row has the token's hash, and leaves none |
| TokenLife.UnknownTokensAreRefused | src/hermes_link/pairing/store.py:259-271 | a token of another form, or whose hash no row has, is refused |
| OciArchive.ArchiveMembers | scripts/release_manifest.py:139-150 | the loop builds the map of entries or rejects the archive |
| OciArchive.MembersAreAcceptedIff | scripts/release_manifest.py:139-150 | entries are accepted exactly when all are safe and regular under distinct names |
| OciArchive.MembersAreTheEntries | scripts/release_manifest.py:139-150 | every name leads to the entry that carries it |
| OciArchive.VerifyDescriptorBlob | scripts/release_manifest.py:173-201 | the chunked loop accepts exactly a blob of the stated size and digest, and returns its bytes when asked |
| OciArchive.VerifyImageManifest | scripts/release_manifest.py:231-253 | the verdict on a manifest, its config and all its layers |
| OciArchive.VerifyOciArchive | scripts/release_manifest.py:256-316 | the verdict of the whole walk, with its kind of failure; exactly when it accepts is `ArchiveAcceptance.AcceptedIff` |
| MerkleUniqueness.AcceptedArchiveIsSound | scripts/release_manifest.py:231-316 | an accepted archive has safe distinct entries, a config for the platform, at least one layer, and blobs of the sizes and digests one manifest states |
| MerkleUniqueness.AcceptedArchivesAgree | scripts/release_manifest.py:256-316 | two archives accepted for one image with the same kind of root agree on config, layers and all digests checked |
| MerkleUniqueness.DifferentKindsNeedDoubleRoot | scripts/release_manifest.py:287-313 | archives accepted under different kinds have the same root payload, and it reads both as an index and as a manifest |
| MerkleUniqueness.ReachedBlobsHold | scripts/release_manifest.py:181-200 | every digest checked is that of the blob stored under its name |
| MerkleUniqueness.AcceptedArchivesShareBlobs | scripts/release_manifest.py:181-200 | and they hold the same bytes under every digest checked |
| MerkleUniqueness.TamperedBlobIsRejected | scripts/release_manifest.py:199-200 | changing or removing a reachable blob makes the archive unacceptable, unless the accepted root payload reads as both kinds, and with a root of the same kind even then |
| ArchiveAcceptance.TheChildIsTheOnlyOne | scripts/release_manifest.py:218-300 | the child walked is the only entry of the index for linux and amd64, whatever else it lists |
| ArchiveAcceptance.ManifestIsRunnable | scripts/release_manifest.py:231-253 | a manifest is verified exactly when its config, for the platform, and its layers, at least one, are stored as described |
| ArchiveAcceptance.DigestAfterColon | scripts/release_manifest.py:83-84 | the digest is what follows the last colon of the reference |
| ArchiveAcceptance.AcceptedIff | scripts/release_manifest.py:256-316 | an archive is accepted if and only if it is for linux/amd64 and a complete way leads through it, and it holds that way's config and layers |
| ArchiveAcceptance.EveryDigestIsReached | scripts/release_manifest.py:173-316 | the digests checked are those of the root, of the child if there is one, of the config and of every layer, in order |
| ArchiveAcceptance.RejectedExactly | scripts/release_manifest.py:83-316 | which of the three exceptions a rejection raises |
| Base64.DecodeUndoesEncode | src/hermes_link/api/attachments.py:49-50 | decoding undoes encoding in both alphabets and both modes |
| Base64.EncodedLength | src/hermes_link/api/attachments.py:46-47 | an encoding has four characters for every started group of three bytes |
| Base64.UrlSafeIsTranslated | src/hermes_link/identity/server.py:47-51 | decoding URL-safe text is translating `-_` to `+/` and decoding that, for every text |
| Base64.DecodeShrinks | src/hermes_link/api/attachments.py:46-54 | no accepted text decodes to more than three quarters of its length |
| Base64.Base64UrlRoundTrip | src/hermes_link/identity/server.py:36-51 | restoring the stripped padding recovers the encoding and so the bytes |
| Base64.Base64UrlLength | src/hermes_link/identity/server.py:36-37 | 32 bytes are 43 characters |
| Base64.ValidatePublicKey | src/hermes_link/identity/server.py:47-56 | accepts exactly what the lenient URL-safe decoder reads as 32 bytes, and returns it stripped |
| Base64.EveryKeyIsValid | src/hermes_link/identity/server.py:36-56 | every 32-byte key is valid in the form the server publishes |
| Base64Laws.DigitsOfTheTables | src/hermes_link/api/attachments.py:49-50 | the alphabets are tables 1 and 2 of RFC 4648 |
| Base64Laws.GroupsAreBigEndian | src/hermes_link/api/attachments.py:49-50 | four digits spell the 24 bits of three bytes, most significant first |
| Base64Laws.StrictAccepts | src/hermes_link/api/attachments.py:49-52 | strict decoding accepts exactly digits followed by the padding that completes the last quad |
| Base64Laws.StrictIsLenient | src/hermes_link/identity/server.py:47-51 | what strict decoding accepts, lenient decoding reads the same |
| Base64Laws.NoiseIsIgnored | src/hermes_link/identity/server.py:47-51 | lenient decoding refuses text that is not ASCII and reads only the digits and the padding of any other |
| Base64Laws.EncodeUndoesDecode | src/hermes_link/api/attachments.py:49-50 | a text of whole groups is the encoding of what it decodes to |
| Attachments.NormalizeChatAttachmentRequest | src/hermes_link/api/attachments.py:94-154 | the message loop computes the rewritten request or its error; exactly when, and what it says, is `MessageContent.RequestAcceptedExactly` and `AcceptedContent` |
| Attachments.RewriteOne | src/hermes_link/api/attachments.py:101-153 | the loop's body computes a message's new form and the bytes counted, or its error |
| Attachments.AddAttachments | src/hermes_link/api/attachments.py:116-145 | the attachment loop computes content, images and total, or the first error |
| AttachmentLaws.ImageUriCarriesTheBytes | src/hermes_link/api/attachments.py:123-132 | an accepted image's data URI decodes to exactly the attachment's bytes |
| AttachmentLaws.SizeGuardIsExactEnough | src/hermes_link/api/attachments.py:44-55 | the length guard never refuses a canonical encoding within the maximum, refuses larger payloads, and lets through at most eight bytes more |
| AttachmentLaws.AttachmentsKeepTheirOrder | src/hermes_link/api/attachments.py:117-145 | images and text files each keep their order, and all bytes are counted and bounded |
| AttachmentLaws.MessageIsRewrittenInPlace | src/hermes_link/api/attachments.py:101-153 | what an accepted message must have, and that every field but its content stays; the content is told part by part by `AcceptedContent` |
| AttachmentLaws.MessagesKeepTheirPlaces | src/hermes_link/api/attachments.py:100-153 | each message is rewritten by itself at its own place |
| AttachmentLaws.RequestsAreBounded | src/hermes_link/api/attachments.py:94-154 | an accepted request decodes to at most 4 MiB and changes nothing but its messages |
| AttachmentLaws.NormalisingTwice | src/hermes_link/api/attachments.py:100-154 | the result carries no attachments and is normalised to itself |
| MessageContent.CheckedExactly | src/hermes_link/api/attachments.py:116-138 | an attachment is read as an image or a file exactly when it is named, typed and has a payload within its bound |
| MessageContent.RefusedExactly | src/hermes_link/api/attachments.py:38-71 | which error any other attachment gives |
| MessageContent.AddRefusedExactly | src/hermes_link/api/attachments.py:74-145 | and which one an attachment gives that is read but cannot be added |
| MessageContent.FirstErrorWins | src/hermes_link/api/attachments.py:117-145 | the first attachment that cannot be added decides the error |
| MessageContent.AllAddedExactly | src/hermes_link/api/attachments.py:117-145 | a list of attachments is added exactly when each can be and all fit in 4 MiB |
| MessageContent.MessageAcceptedExactly | src/hermes_link/api/attachments.py:101-145 | a message is accepted exactly when it has no attachments, or comes from the user with text content and one to four that can be added |
| MessageContent.MessageRefusedExactly | src/hermes_link/api/attachments.py:101-115 | which error a message gives before its attachments are looked at |
| MessageContent.AcceptedContent | src/hermes_link/api/attachments.py:74-151 | the content is the text with a section for every file and, if there are images, a list of that text, unless blank, and one part per image whose URL decodes to its bytes |
| MessageContent.RequestAcceptedExactly | src/hermes_link/api/attachments.py:94-154 | a request is rewritten exactly when it is an object with a list of messages that are all accepted |
| PathRouting.ForwardAgentHeaders | src/hermes_link/integrations/hermes_agent/adapter.py:55-66 | forwards exactly the four named headers that are present |
| PathRouting.PrepareAgentHeaders | src/hermes_link/integrations/hermes_agent/adapter.py:95-139 | a device token is checked for the path's profile and replaced; each refusal; other tokens pass |
| RoutingLaws.TargetIsInjective | src/hermes_link/integrations/hermes_agent/adapter.py:152-158 | without profile, different paths have different Agent paths |
| RoutingLaws.RoutedProfileIsAuthorized | src/hermes_link/integrations/hermes_agent/adapter.py:87-158 | the profile checked is the profile in the Agent path, and the rest is the translated suffix |
| RoutingLaws.SameAgentPathIff | src/hermes_link/integrations/hermes_agent/adapter.py:142-158 | two paths share an Agent path exactly when presence of a profile, decoded profile and suffix agree |
| RoutingLaws.ServedProfileIsInScope | src/hermes_link/integrations/hermes_agent/adapter.py:115-125 | a device token never reaches a profile outside its scope |
| RoutingTable.TargetExactly | src/hermes_link/integrations/hermes_agent/adapter.py:26-158 | a path without profile is translated exactly by the table of routes |
| RoutingTable.ProfileMatchExactly | src/hermes_link/integrations/hermes_agent/adapter.py:25 | exactly which paths name a profile, and their segment and rest |
| RoutingTable.RoutesExactly | src/hermes_link/integrations/hermes_agent/adapter.py:142-158 | every path reaches exactly the Agent path of the table, under its profile if it names a valid one |
| RoutingTable.AuthorizedExactly | src/hermes_link/integrations/hermes_agent/adapter.py:87-92 | the profile checked for is the decoded and stripped segment if valid, none if not, and "default" without a profile |
| HeaderLaws.BearerExactly | src/hermes_link/integrations/hermes_agent/adapter.py:69-76 | the bearer token is the stripped rest after the scheme, if the scheme is bearer |
| HeaderLaws.NoBearer | src/hermes_link/integrations/hermes_agent/adapter.py:69-76 | without the header or a space in it there is no token |
| TextPatterns.CharacterClasses | src/hermes_link/integrations/hermes_agent/adapter.py:24 | the character classes of identifiers, by enumeration |
| TextPatterns.WhiteSpace | src/hermes_link/integrations/hermes_agent/bridge.py:282-300 | the 29 characters that `strip` and `split` take for white space |
| TextPatterns.ProfileIds | src/hermes_link/integrations/hermes_agent/adapter.py:24 | one to 64 of these characters |
| TextPatterns.Identifiers | src/hermes_link/notifications/events.py:10 | one to 160 of these characters or colons |
| TextPatterns.TraceIds | src/hermes_link/integrations/hermes_agent/bridge.py:110 | one to 128 of these characters |
| TextPatterns.TraceTools | src/hermes_link/integrations/hermes_agent/bridge.py:109 | one to 40, without capital letters |
| TextPatterns.PairingCodes | src/hermes_link/pairing/store.py:24 | 32 to 128 URL-safe characters |
| TextPatterns.BaseUrls | src/hermes_link/pairing/store.py:27-57 | http or https and a host without path, query, fragment and user is an address |
| TextPatterns.BaseUrlParts | src/hermes_link/pairing/store.py:27-57 | and every address is one |

## Left out

- HTTP handlers, sockets, threads, `urlopen`, keepalive frames and waiting; reads and writes are sequences of results.
- SQLite itself: tables are sequences and maps under the stated constraints, a transaction is one step, and the
  63-bit limit of AUTOINCREMENT sequences is not modelled.
- Locks and timeouts of SQLite; each transaction either happens or does not.
- `validate_event`: events enter with the identifiers it has checked; `created_at` is a real number, so NaN and infinity are not modelled.
- JSON, UTF-8, tar, SHA-256, `str.lower` and percent-decoding as algorithms; characters are Unicode scalar values. A lone
  surrogate, which `json.loads` makes of `"\ud800"` in a label, is excluded: encoding the frame would leave the relay
  by a `UnicodeEncodeError`, which the handler of `OSError` (bridge.py:403) does not catch.
- Per-chunk UTF-8 decoding with replacement: chunks enter as decoded text, because a code point cut between two chunks is decoded to replacement characters.
- Errors of the upstream read itself, which leave the relay by an exception.
- Redaction: an arbitrary function of the text, which may also fail.
- StreamLoop.ServeStream: a failing keepalive is not told apart from the end of the polls, since both end the stream without an event.
- Base64.DecodeUndoesEncode: the decoder follows `base64` and `binascii` of Python 3.11: text that is not ASCII is refused, URL-safe text may also use `+` and `/`, lenient mode skips other characters, and padding after a complete quad is ignored, which later versions may reject.
- MerkleUniqueness.AcceptedArchivesAgree: stated for roots of the same kind, because `index.json`, which gives the kind, is not hashed; the other case is `DifferentKindsNeedDoubleRoot`.
- Attachments.NormalizeChatAttachmentRequest: starts from the parsed body; the empty payload, the parse error and the order of members in the written JSON are not modelled.
- PathRouting.PrepareAgentHeaders: header names are compared as given, and the credential lookup in the environment is a parameter.
- Pairing.PairingStore.CreateTicket: the code is drawn from URL-safe characters, so its percent-encoding is the identity; profile columns are lists, not JSON text.
- Legacy schema migration, the command lines, Cloud delivery, deployment scripts, capability documents, log tailing and model-config export.
