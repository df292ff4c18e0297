# Workflow stores, services and codecs: a verified model

This project models the parts of the Project Koios workflow package whose correctness rests on
several functions or on whole histories, and proves properties of that model with Dafny 4.11.
`dafny verify dfyconfig.toml` checks all of it.

## What is modelled

**The pure-action store.** A net instance has one current coordinate, a marking at a revision. A
reservation holds that coordinate; a commit consumes the reservation and advances the coordinate.

- `Records.dfy` has the records. An identity that is a SHA-256 digest is represented by the content
  it is a digest of; `ReservationPreimage.dfy` and `Framing.dfy` show that the digested bytes
  determine that content, and `RowCodecs.dfy` that the rows do.
- `DurableTables.dfy` gives the SQLite tables and each transaction over them as a function of the
  tables and of the fault the environment injects: the preparation or the main transaction may be
  rolled back, and a COMMIT that raises may or may not have taken effect. The four reads that a
  commit makes after its ROLLBACK each get tables of their own.
- `DurableInvariant.dfy`, `DurableCommit.dfy` and `DurableMigration.dfy` state what every reachable
  store satisfies and prove that reservations, commits, migrations and bootstraps keep it.
  `DurableRuns.dfy`, `DurableOrder.dfy`, `DurableChain.dfy`, `DurableRetry.dfy` and
  `SafetyReader.dfy` draw the theorems about whole runs from that. `DurableIntegrity.dfy` says what
  loads, transactions and the safety reader still guarantee when rows have been damaged.
  `DurableStore.dfy` is the repository object itself, row by row, proved against the functions.
- `ReferenceStore.dfy` is the in-memory reference repository, as functions and as an object, and
  `Refinement.dfy` relates the two stores.
- `Services.dfy`, `Workers.dfy` and `DurableService.dfy` are the reservation, invocation, firing and
  commit services, with any number of workers interleaved at every access to the store.

**The revision store** (`RevisionStore.dfy`): compare-and-append with global idempotency keys.

**The transition processor** (`Collections.dfy`, `CoreModels.dfy`, `Processing.dfy`,
`ProcessingTheorems.dfy`, `ProcessingFindings.dfy`, `ProcessingRuns.dfy`): validation, verdict,
successor, audit and runs.

**Checkers and codecs**: the firer's payload checks (`Payloads.dfy`), the net definition and marking
codecs on JSON trees (`Json.dfy`, `NetCodec.dfy`, `NetEncoding.dfy`) with their texts in UTF-8
(`Utf8.dfy`), and SDK documents with their sizes (`Documents.dfy`, `Sizes.dfy`).

`Runs.dfy` holds the induction principles that all theorems about runs share.

## Where the code differs from what one might expect

- A durable `reserve` that loses to another active reservation answers ERROR, not CONFLICT: it first
  demands the lifecycle of the reservation it was asked for. The reference store answers CONFLICT.
- A replay with evidence other than the retained one is IDEMPOTENT for the reference store, which
  keeps no evidence, and CONFLICT for the durable one.
- Retrying an INDETERMINATE commit always settles the rows of the reservation, but the branch where
  the COMMIT took effect and the one where it did not can end with different rows for the net. If no
  other caller repeats the commit, they do exactly when a call in between reserves the successor
  (`RetryAndTheNet`, `RetryCanLeaveAnotherNet`).
- SQLite integers have 64 bits. A reservation with a revision or ordinal of 2^63 or more, a commit to
  such a revision and a new configured predecessor at one raise an OverflowError, which no call
  catches, where they would else be granted and the reference store grants them. The transaction
  that raises changes nothing.
- The durable store accepts a commit whose record names another request than its reservation; the
  safety reader then reports corruption. No commit service makes such a commit.
- After a foreign advance on the reference store a stale reservation blocks its net for ever: nothing
  removes it (`StaleForever`).
- Transition processing raises for a run whose revision has more than 4,300 digits, the default limit
  of the interpreter on integer texts: identities and findings write revisions, while the
  constructor of a run does not. It also raises for a transition that would be applied to the last
  revision that can be written. On no other input does it raise.
- A merely constructible firing success can be too long to encode (`LargeSuccessDoesNotFit`); one that
  passes result correlation never is.
- The encoder of net definitions leaves some lists unbounded that the decoder bounds
  (`WideDefinitionsAreRefused`).
- No digest of the store is keyed. A commit row that is consistently rewritten in the digests of its
  outcomes, an evidence row that is rewritten to another retained bundle of the same net step, and the
  rewritten coordinates of a net are read back as they are. Nothing else in a snapshot can change
  through damage to one table (`SnapshotsResistDamage`).
- The dictionary check of payloads accepts a role given twice in the place of two; the constructors
  of requests and results exclude such payloads.

## Model

| member | source | states |
|---|---|---|
| `DurableInvariant.LoadCommitExact` | src/python/projectkoios/workflow/persistence/pure_action_sqlite.py:1054-1087 | under the store invariant loading a commit never faults; it gives exactly the retained record, authorities included |
| `DurableInvariant.EvidenceExact` | src/python/projectkoios/workflow/persistence/_pure_action_cpn_replay_sqlite_rows.py:84-143 | under the invariant loading evidence never faults and gives exactly what was retained, through shared bundles |
| `DurableInvariant.LifecycleExact` | src/python/projectkoios/workflow/persistence/_pure_action_reservation_lifecycle_sqlite_rows.py:43-107 | reading a lifecycle never faults; it gives [RESERVED] for an active reservation, [RESERVED, COMMITTED c] for one committed natively as c, nothing otherwise |
| `DurableInvariant.CommittedIsPast` | src/python/projectkoios/workflow/persistence/pure_action_sqlite.py:166-169 | a committed reservation lies strictly below the current revision of its net, so it never matches the current coordinate again |
| `DurableInvariant.ReserveOutcome` | src/python/projectkoios/workflow/persistence/pure_action_sqlite.py:148-225 | every answer of a reservation on a reachable store: stale, recognised, faulting when another one holds the net, raising when SQLite cannot hold its revision or ordinal, or granted with the stated rows; CONFLICT is unreachable |
| `DurableInvariant.ReserveTxOutcome` | src/python/projectkoios/workflow/persistence/pure_action_sqlite.py:148-225 | the same for the whole transaction with faults: only a granted reservation depends on its COMMIT, and then answers INDETERMINATE |
| `DurableInvariant.RevalidateOutcome` | src/python/projectkoios/workflow/persistence/pure_action_sqlite.py:227-259 | on a reachable store CONSUMED iff committed, CURRENT iff the active one of its net, ABSENT otherwise, never STALE |
| `DurableInvariant.ReserveKeeps` | src/python/projectkoios/workflow/persistence/pure_action_sqlite.py:198-216 | a granted reservation keeps the whole store invariant |
| `DurableCommit.WritesSucceed` | src/python/projectkoios/workflow/persistence/pure_action_sqlite.py:396-442 | when a commit is granted, which needs a successor revision below 2^63, none of its nine writes can violate a constraint, and together they leave exactly the stated rows in every table |
| `DurableCommit.CommitOutcome` | src/python/projectkoios/workflow/persistence/pure_action_sqlite.py:288-461 | every decision of a commit on a reachable store, in order, with the revisions on which it raises; no integrity fault is reachable and the compare-and-set of the coordinate never loses |
| `DurableCommit.CommitTxOutcome` | src/python/projectkoios/workflow/persistence/pure_action_sqlite.py:333-473 | the same for the whole transaction with faults and an uncertain COMMIT |
| `DurableCommit.CommitKeeps` | src/python/projectkoios/workflow/persistence/pure_action_sqlite.py:396-461 | a granted commit keeps the whole store invariant, its history growing by exactly this commit |
| `DurableCommit.LastRevision` | src/python/projectkoios/workflow/persistence/pure_action_sqlite.py:148-461 | a free net is reserved where it stands and then committed by any acceptable call under a new commit identity, up to revision 2^63 - 1: there a net can still be reserved, but every commit raises and changes nothing, as does a reservation with a larger ordinal |
| `DurableMigration.MigrateShape` | src/python/projectkoios/workflow/persistence/_pure_action_sqlite_schema.py:158-241 | a migration of version 2 or 3 changes the version and adds the lifecycle and legacy rows, nothing else |
| `DurableMigration.MigrateReady` | src/python/projectkoios/workflow/persistence/_pure_action_sqlite_schema.py:158-241 | migrating a well-formed version 2 or 3 store gives a well-formed version 4 store |
| `DurableMigration.MigratePreserves` | src/python/projectkoios/workflow/persistence/_pure_action_sqlite_schema.py:191-241 | a migration keeps coordinates, reservations and commits, and with them the answer of every commit lookup, evidence lookup and revalidation |
| `DurableMigration.MigrateTwice` | src/python/projectkoios/workflow/persistence/_pure_action_sqlite_schema.py:158-241 | a second migration changes nothing |
| `DurableMigration.MigratedActiveCommits` | src/python/projectkoios/workflow/persistence/_pure_action_sqlite_schema.py:216-228 | a reservation active before the migration can still be committed after it, unless its successor revision overflows |
| `DurableMigration.ComparisonOutcome` | src/python/projectkoios/workflow/persistence/pure_action_sqlite.py:338-365 | a replay compares as IDEMPOTENT exactly when the record is the retained one and it carries no evidence or the retained evidence |
| `DurableMigration.MigratedReplay` | src/python/projectkoios/workflow/persistence/pure_action_sqlite.py:956-969 | a replay of a commit older than the migration is recognised through its legacy row, exactly without evidence or with the evidence version 3 retained |
| `DurableMigration.BootstrapOneOutcome` | src/python/projectkoios/workflow/persistence/pure_action_sqlite.py:893-927 | a configured predecessor is refused only if it contradicts the initial one of a known net, or is new with a revision of 2^63 or more; a known net is left alone |
| `DurableMigration.BootstrapOutcome` | src/python/projectkoios/workflow/persistence/pure_action_sqlite.py:893-927 | a configuration without repeated nets goes in exactly when each predecessor would by itself, and raises exactly when the first that would not overflows |
| `DurableMigration.PrepareOutcome` | src/python/projectkoios/workflow/persistence/pure_action_sqlite.py:880-933 | a preparation of a well-formed store of any version goes through exactly when every configured predecessor is the initial one of its net or new with a revision below 2^63, and raises exactly when the first that is neither is one of a new net |
| `DurableMigration.PreparedRows` | src/python/projectkoios/workflow/persistence/pure_action_sqlite.py:880-933 | after it every new configured net stands in both coordinate tables exactly where it was configured, every other net where it stood, no other net is added, and reservations, commits and evidence are as they were |
| `DurableMigration.PrepareTxOutcome` | src/python/projectkoios/workflow/persistence/pure_action_sqlite.py:880-933 | the same for the whole transaction with its faults: all of it or nothing, and how the call goes on |
| `DurableMigration.ConfiguredNetIsReservable` | src/python/projectkoios/workflow/persistence/pure_action_sqlite.py:148-225 | a net configured for the first time is open for reservations at exactly the configured coordinate: RESERVED there, STALE anywhere else |
| `DurableMigration.PrepareKeeps` | src/python/projectkoios/workflow/persistence/pure_action_sqlite.py:880-933 | whatever well-formed store of any version a preparation finds, it leaves one the main transactions can work on |
| `DurableRuns.StepIsAtomic` | src/python/projectkoios/workflow/persistence/pure_action_sqlite.py:148-478 | a transaction of any call with any fault either changes nothing or has its whole effect |
| `DurableRuns.RunKeeps` | src/python/projectkoios/workflow/persistence/pure_action_sqlite.py:148-478 | the store invariant holds after every interleaving of calls with every fault, from a well-formed store of any version |
| `DurableRuns.ReachableReservations` | src/python/projectkoios/workflow/persistence/pure_action_sqlite.py:148-478 | in every reachable store an active reservation sits on the current coordinate and is not consumed, consumed means committed, and a non-legacy lifecycle is [RESERVED] iff active and [RESERVED, COMMITTED c] iff committed as c |
| `DurableOrder.RunKeepsFiles` | src/python/projectkoios/workflow/persistence/pure_action_sqlite.py:396-442 | what is retained for a commit (record, evidence, legacy row) never changes in any later store |
| `DurableOrder.LateReadsAreHarmless` | src/python/projectkoios/workflow/persistence/pure_action_sqlite.py:338-365 | the four reads made after the ROLLBACK may each find any later store, and the answer is still the one of the moment of decision |
| `DurableOrder.RunMovesClocks` | src/python/projectkoios/workflow/persistence/pure_action_sqlite.py:396-461 | along any run the rows of a net either stay as they are or move on for good |
| `DurableOrder.DurableNoAba` | src/python/projectkoios/workflow/persistence/pure_action_sqlite.py:374-461 | if an active reservation can be committed after a run, the net stood at its coordinate with that reservation active at every moment in between |
| `DurableOrder.OwnConfigurationStays` | src/python/projectkoios/workflow/persistence/pure_action_sqlite.py:893-927 | an instance that has prepared the store once can go on doing so: after any run its own configuration is accepted and changes nothing |
| `DurableChain.CommitsFormOneChain` | src/python/projectkoios/workflow/persistence/pure_action_sqlite.py:396-461 | the commits of a net form one gap-free chain from its initial to its current predecessor, and the current revision counts them |
| `DurableRetry.RetrySettles` | src/python/projectkoios/workflow/persistence/pure_action_sqlite.py:333-473 | after an INDETERMINATE commit and any undisturbing calls, a fault-free retry answers COMMITTED or IDEMPOTENT and leaves the same rows for the reservation in every table, whether or not the COMMIT took effect |
| `DurableRetry.RetryAndTheNet` | src/python/projectkoios/workflow/persistence/pure_action_sqlite.py:333-473 | after the retry the two branches agree in every table if no call reserved the successor before another one repeated the commit; and if none repeated it, the rows of the net agree exactly when no call reserved the successor |
| `DurableRetry.RetryCanLeaveAnotherNet` | src/python/projectkoios/workflow/persistence/pure_action_sqlite.py:148-225 | the interleaving for which they do not: a reservation of the successor coordinate in between |
| `DurableRetry.OvertakenBranchesMayMeetAgain` | src/python/projectkoios/workflow/persistence/pure_action_sqlite.py:148-473 | why it goes one way otherwise: with the successor reserved and then the commit repeated the branches differ, and one more call makes every table the same again |
| `SafetyReader.ReadingExact` | src/python/projectkoios/workflow/persistence/pure_action_sqlite.py:690-810 | every answer of the safety reader on a reachable store and the exact condition of each, with the snapshot it gives |
| `SafetyReader.ServiceRunsReadSoundly` | src/python/projectkoios/workflow/persistence/pure_action_sqlite.py:690-810 | on stores reached through the commit services it never reports corruption: FOUND iff committed natively with evidence, LEGACY_PARTIAL iff committed otherwise, ABSENT iff not committed |
| `SafetyReader.OtherRequestReadsCorrupt` | src/python/projectkoios/workflow/persistence/_pure_action_sqlite_rows.py:130-156 | without the services it can: the store accepts a commit that names another request than its reservation, and the snapshot check then refuses it |
| `DurableIntegrity.LoadedCommitsAreWhole` | src/python/projectkoios/workflow/persistence/pure_action_sqlite.py:1054-1087 | on any tables, damaged or not, a commit loads exactly if columns, authority rows and event are those of one valid record of its reservation, and gives that record |
| `DurableIntegrity.LifecycleLoadsExactly` | src/python/projectkoios/workflow/persistence/_pure_action_reservation_lifecycle_sqlite_rows.py:43-107 | on any tables a lifecycle loads exactly from the rows written for it, column by column, and only if it is the one that the commit row calls for |
| `DurableIntegrity.EvidenceLoadsExactly` | src/python/projectkoios/workflow/persistence/_pure_action_cpn_replay_sqlite_rows.py:84-143 | on any tables evidence loads exactly from its row, its bundle and a commit row that agrees with it |
| `DurableIntegrity.UnreadableRowsAreErrors` | src/python/projectkoios/workflow/persistence/pure_action_sqlite.py:148-461 | rows of a reservation that cannot be loaded make every call that reads them answer ERROR and leave every table alone |
| `DurableIntegrity.CommitLoadResists` | src/python/projectkoios/workflow/persistence/pure_action_sqlite.py:1054-1087 | a commit row that is damaged in its columns and authority rows, or in its event, but not in both, loads as before or not at all |
| `DurableIntegrity.EvidenceLoadResists` | src/python/projectkoios/workflow/persistence/_pure_action_cpn_replay_sqlite_rows.py:84-143 | an evidence row with its identity or its bundle identity intact loads as before or not at all, whatever happens to bundles and commits |
| `DurableIntegrity.LifecycleLoadResists` | src/python/projectkoios/workflow/persistence/_pure_action_reservation_lifecycle_sqlite_rows.py:43-107 | damaged lifecycle rows load as before, fault, or have all been removed |
| `DurableIntegrity.GrantsAreGuarded` | src/python/projectkoios/workflow/persistence/pure_action_sqlite.py:148-216 | on any tables a reservation is granted only for the current coordinate of a free net, to one never consumed, without a lifecycle and with integers SQLite can hold; any refusal changes nothing |
| `DurableIntegrity.SnapshotsResistDamage` | src/python/projectkoios/workflow/persistence/pure_action_sqlite.py:690-810 | after damage to the commits alone, to the evidence alone or to any other tables together, digests rewritten or not, a found snapshot differs at most in what no intact table repeats; otherwise rows are gone or the reader reports corruption |
| `DurableIntegrity.RewrittenOutcomesAreFound` | src/python/projectkoios/workflow/persistence/_pure_action_sqlite_rows.py:250-403 | that limit is reached: a commit row rewritten consistently in its four outcome digests is found as rewritten |
| `DurableIntegrity.RewrittenEvidenceIsFound` | src/python/projectkoios/workflow/persistence/_pure_action_cpn_replay_sqlite_rows.py:84-143 | so is an evidence row rewritten to another retained bundle of the same plan, firing and markings |
| `DurableIntegrity.ReservationsAppend` | src/python/projectkoios/workflow/persistence/pure_action_sqlite.py:198-216 | on any tables, damaged or not, a reservation only adds rows, and keeps every unique identity column unique |
| `DurableIntegrity.CommitsAppend` | src/python/projectkoios/workflow/persistence/pure_action_sqlite.py:396-461 | on any tables, damaged or not, a commit changes or removes no row but those of coordinates and active reservations, and keeps the identities of commits, evidence and lifecycle events unique |
| `DurableIntegrity.ReadyIsUnique` | src/python/projectkoios/workflow/persistence/_pure_action_sqlite_schema.py:20-156 | on reachable stores they are |
| `DurableIntegrity.SecondTimeNeedsDamageEverywhere` | src/python/projectkoios/workflow/persistence/pure_action_sqlite.py:148-461 | a committed reservation is granted again only if coordinates, consumed identities and its lifecycle were all damaged, and committed again only if commits and active reservations were too |
| `DurableIntegrity.RecognitionResistsDamage` | src/python/projectkoios/workflow/persistence/pure_action_sqlite.py:338-365 | with the commits intact, whatever happened to the other tables, a replay is recognised only for the record committed, and only with the evidence retained if that table is intact |
| `DurableStore.Store.LoadLifecycleEvents` | src/python/projectkoios/workflow/persistence/_pure_action_reservation_lifecycle_sqlite_rows.py:43-107 | the loop over rows with its ordinal and commit checks computes the specified load |
| `DurableStore.Store.InsertReplayEvidence` | src/python/projectkoios/workflow/persistence/_pure_action_cpn_replay_sqlite_rows.py:47-81 | evidence goes in with a new or an equal shared bundle and fails where the specification does |
| `DurableStore.Store.MigrateV3Store` | src/python/projectkoios/workflow/persistence/_pure_action_sqlite_schema.py:191-241 | the loop that writes one event per active reservation, in any order, never fails and performs the specified migration |
| `DurableStore.Store.PrepareStore` | src/python/projectkoios/workflow/persistence/pure_action_sqlite.py:880-933 | the preparation statement by statement performs the specified transaction, overflow included, keeps the store valid and, if it goes on, leaves every net where it stood or was newly configured |
| `DurableStore.Store.Reserve` | src/python/projectkoios/workflow/persistence/pure_action_sqlite.py:148-225 | the call leaves exactly the tables and gives the answer of its two transactions, raising where one overflows and rolling back on every refusal, and keeps the store valid |
| `DurableStore.Store.Revalidate` | src/python/projectkoios/workflow/persistence/pure_action_sqlite.py:227-259 | the call changes nothing but what its preparation does and answers as specified, or raises where that overflows |
| `DurableStore.Store.Commit` | src/python/projectkoios/workflow/persistence/pure_action_sqlite.py:288-478 | uncorrelated arguments raise before the store is touched; otherwise the call, write by write, leaves the tables and answer of its two transactions, raises only on an overflow, which changes nothing, and keeps the store valid |
| `RowCodecs.ReservationRowsAreExact` | src/python/projectkoios/workflow/persistence/_pure_action_sqlite_rows.py:159-247 | a row decodes to a reservation exactly when it is the row written for it |
| `RowCodecs.CommitRowsAreExact` | src/python/projectkoios/workflow/persistence/_pure_action_sqlite_rows.py:250-403 | commit and authority rows decode to a record exactly when they are the rows written for it, event and digest included |
| `ReservationPreimage.DomainTellsParts` | src/python/projectkoios/workflow/runtime/_pure_action_reservation_records.py:186-240 | of a valid reservation the domain of the preimage tells how many optional parts follow the base, and thereby which |
| `ReservationPreimage.PreimagesAreInjective` | src/python/projectkoios/workflow/runtime/_pure_action_reservation_records.py:212-240 | valid reservations with equal identity preimages are equal |
| `ReservationPreimage.UncheckedReservationsCollide` | src/python/projectkoios/workflow/runtime/_pure_action_reservation_records.py:186-211 | without the constructor's rule on optional parts two different reservations would share a preimage |
| `ReferenceStore.PreloadedIsValid` | src/python/projectkoios/workflow/runtime/_pure_action_reservation_repository.py:45-140 | whatever the constructor accepts as preloaded state satisfies the invariant |
| `ReferenceStore.PreloadedExactly` | src/python/projectkoios/workflow/runtime/_pure_action_reservation_repository.py:45-140 | the constructor accepts exactly lists without repetition whose records belong to given commits, and then holds exactly what it was given, with committed reservations consumed and none active |
| `ReferenceStore.Repository.Reserve` | src/python/projectkoios/workflow/runtime/_pure_action_reservation_repository.py:149-167 | the method changes only the active reservations, as specified |
| `ReferenceStore.Repository.Commit` | src/python/projectkoios/workflow/runtime/_pure_action_reservation_repository.py:183-273 | the method raises, refuses or installs the whole new state, as specified |
| `ReferenceStore.Repository.Revalidate` | src/python/projectkoios/workflow/runtime/_pure_action_reservation_repository.py:169-181 | the method answers as specified and changes nothing |
| `ReferenceStore.Repository.AdvanceCurrentPredecessor` | src/python/projectkoios/workflow/runtime/_pure_action_reservation_repository.py:394-411 | a foreign advance is accepted exactly for a new net or a later revision |
| `ReferenceStore.ReserveExactly` | src/python/projectkoios/workflow/runtime/_pure_action_reservation_repository.py:149-167 | every answer of a reservation with its exact condition; it is current afterwards exactly if granted or recognised, and no other net is touched |
| `ReferenceStore.CommitExactly` | src/python/projectkoios/workflow/runtime/_pure_action_reservation_repository.py:183-273 | it raises exactly on coordinates of another reservation, net or predecessor or on a record of other coordinates; it is granted exactly to a current reservation under a new commit identity, moves that one net to the successor and retains what it was given; every other answer has its exact condition and changes nothing |
| `ReferenceStore.CommitWithoutRecord` | src/python/projectkoios/workflow/runtime/_pure_action_reservation_repository.py:183-273 | a commit without its record is decided like one with it and leaves the same state but for the record; its replay is recognised by the coordinates alone |
| `ReferenceStore.LoadExactly` | src/python/projectkoios/workflow/runtime/_pure_action_reservation_repository.py:325-342 | loading gives the coordinates of a commit, nothing for another reservation, and raises for one preloaded without its record |
| `ReferenceStore.AdvanceExactly` | src/python/projectkoios/workflow/runtime/_pure_action_reservation_repository.py:394-411 | a foreign advance is accepted exactly for a new net or a later revision, moves that net to exactly the given coordinate and touches nothing else |
| `ReferenceStore.RunKeeps` | src/python/projectkoios/workflow/runtime/_pure_action_reservation_repository.py:149-273 | the reference invariant holds after every run, foreign advances included |
| `ReferenceStore.RunIsLater` | src/python/projectkoios/workflow/runtime/_pure_action_reservation_repository.py:394-411 | between any two moments consumed stays consumed, commits and records stay as they are, a changed coordinate has a higher revision, and the rows of a net never come back |
| `ReferenceStore.ConsumedForever` | src/python/projectkoios/workflow/runtime/_pure_action_reservation_repository.py:169-181 | CONSUMED is permanent |
| `ReferenceStore.StaleForever` | src/python/projectkoios/workflow/runtime/_pure_action_reservation_repository.py:169-181 | an active reservation that is once STALE is STALE ever after, can never commit, and its net can never be reserved again |
| `ReferenceStore.CurrentThroughout` | src/python/projectkoios/workflow/runtime/_pure_action_reservation_repository.py:169-181 | a reservation CURRENT at two moments was CURRENT at every moment between them |
| `Refinement.ReserveRefines` | src/python/projectkoios/workflow/runtime/_pure_action_reservation_repository.py:149-167 | where the durable reserve overflows it raises and changes nothing while the reference grants; otherwise both accept the same reservations, leave the same state and answer alike, but for a loser: ERROR against CONFLICT |
| `Refinement.RevalidateRefines` | src/python/projectkoios/workflow/runtime/_pure_action_reservation_repository.py:169-181 | both stores revalidate alike |
| `Refinement.CommitRefines` | src/python/projectkoios/workflow/runtime/_pure_action_reservation_repository.py:183-273 | where the durable commit overflows it raises and changes nothing while the reference commits; otherwise both accept the same correlated commits, leave the same state and answer alike, but for a replay with other evidence, which only the durable store looks at |
| `Refinement.StepRefines` | src/python/projectkoios/workflow/persistence/pure_action_sqlite.py:148-478 | every durable step, with every fault, is invisible to the reference store or exactly its step for that call; without a fault it is that step, or changes nothing because of an integer SQLite cannot hold |
| `Refinement.RunRefines` | src/python/projectkoios/workflow/persistence/pure_action_sqlite.py:148-478 | a durable run with any faults ends where a reference run ends that makes the same calls but for those that left no trace |
| `Refinement.FaultFreeRunsAgree` | src/python/projectkoios/workflow/runtime/_pure_action_reservation_repository.py:149-273 | on a fault-free history the two stores run in lock step, the reference store without the calls whose integers SQLite cannot hold |
| `PureActionServices.RevalidateSources` | src/python/projectkoios/workflow/runtime/_pure_action_reservation_service.py:198-235 | the loop answers nothing iff every source still resolves as authorized, and otherwise the failure of the first one that does not |
| `PureActionServices.ReservationCarriesItsRequest` | src/python/projectkoios/workflow/runtime/_pure_action_reservation_service.py:118-134 | the reservation made for authorized inputs carries, field by field, the net, coordinate, occurrence and attempt of the request, the identities it was authorized under and the plan, and is one that the later services accept with these inputs |
| `PureActionServices.InvocationIsTotal` | src/python/projectkoios/workflow/execution/pure_action_invocation.py:241-417 | every invocation outcome the service builds, before and after the owner, passes the outcome constructor; each status has its exact condition, and the outcome carries the answer and the mapped result |
| `PureActionServices.ConstructedExactly` | src/python/projectkoios/workflow/execution/pure_action_invocation.py:97-213 | the outcome constructor accepts exactly what the service can make of its authorized inputs, but for the words of the diagnostics |
| `PureActionServices.FiringIsTotal` | src/python/projectkoios/workflow/execution/pure_action_firing.py:194-284 | every outcome after firing passes its constructor, carries the result fired, and is stale, rejected or a candidate under exact conditions |
| `PureActionServices.FiringConstructedExactly` | src/python/projectkoios/workflow/execution/pure_action_firing.py:88-167 | the constructor of firing outcomes accepts exactly what firing can make: an outcome without a result that says why, or what is made of a result of the kernel |
| `PureActionServices.PreparedIsFaithful` | src/python/projectkoios/workflow/execution/pure_action_commit.py:330-487 | whatever a caller presents, a prepared commit starts at the authorized context and ends where the kernel fires its marking; the record holds the identities of just this invocation, owner result, mapped result, firing and net step, each in its place; coordinates and record correlate exactly for the request's own net |
| `PureActionServices.PreparedExactly` | src/python/projectkoios/workflow/execution/pure_action_commit.py:330-457 | a candidate is prepared exactly when reservation, invocation, firing, plan and authorization all bear out one step of one net |
| `PureActionServices.IdentityNamesCandidate` | src/python/projectkoios/workflow/execution/pure_action_commit.py:67-91 | with digests that tell contents apart, a commit identity determines the whole candidate, record included, whoever prepared it and from whatever inputs |
| `Workers.WorkIsSound` | src/python/projectkoios/workflow/execution/pure_action_invocation.py:241-417 | each access of a worker to the store, in every stage from reservation to commit, keeps what is known of that worker |
| `Workers.StartExactly` | src/python/projectkoios/workflow/runtime/_pure_action_reservation_service.py:81-151 | a worker begins only with its admitted plan, sources that still resolve, and a net that stands where the request expects it and is free or its own; its reservation is then current, and every refusal has its exact condition |
| `Workers.InvokingExactly` | src/python/projectkoios/workflow/execution/pure_action_invocation.py:241-417 | the owner is asked exactly after two moments at which nothing was stale, with the worker admitted in between; in every other case there is an outcome without a result that says why not |
| `Workers.StartFiringExactly` | src/python/projectkoios/workflow/execution/pure_action_firing.py:194-384 | firing is refused outright exactly unless the inputs belong to one net and the invocation was made for the reservation; the kernel then sees exactly the definition, transition, marking, selection and binding of the authorized request, unless something went stale |
| `Workers.FiredStageExactly` | src/python/projectkoios/workflow/execution/pure_action_commit.py:281-327 | whatever was fired, a worker goes on to commit exactly with a candidate that everything bears out and a reservation not committed yet, and recognises a commit exactly by its coordinates |
| `Workers.CommittingStageExactly` | src/python/projectkoios/workflow/execution/pure_action_commit.py:281-327 | the commit is granted exactly to a current reservation whose sources still resolve, under a new commit identity; a source that no longer does makes it STALE, and nothing but a grant changes the store |
| `Workers.NoAba` | src/python/projectkoios/workflow/execution/pure_action_commit.py:281-327 | with any number of workers and foreign calls, a COMMITTED answer means the coordinate was unchanged and reserved at every step from the reservation to the commit, and that the record leads from the authorized context to where the kernel fires exactly its definition, transition, marking, selection and the binding of the recorded mapped result |
| `Workers.AnswersStand` | src/python/projectkoios/workflow/execution/pure_action_commit.py:281-327 | what a worker is told of a commit stays true: after COMMITTED or IDEMPOTENT the candidate is the commit of its reservation in every later state, and after CONFLICT on a replay another one is |
| `Workers.UndisturbedWorkersCommit` | src/python/projectkoios/workflow/execution/pure_action_commit.py:281-327 | progress: a worker that is granted its reservation and left alone, with coherent inputs, an owner that succeeds and a kernel that fires, commits, and the net stands where the kernel took it; only a commit identity already in use keeps it from that |
| `Workers.CoherentInputsExist` | src/python/projectkoios/workflow/execution/pure_action_commit.py:395-457 | such inputs exist for the context of every request, every kernel that moves its net and all distinct authorities within the bound |
| `DurableService.EvidenceForExactly` | src/python/projectkoios/workflow/execution/pure_action_durable_cpn_commit.py:79-110 | the evidence for a record is exactly the well-formed one that names its commit, plan, firing and markings and holds the given bundle |
| `DurableService.PreparedCallsAreAcceptable` | src/python/projectkoios/workflow/execution/pure_action_durable_cpn_commit.py:79-110 | every prepared commit with evidence is one the repository accepts, exactly for the request's own net, and one the safety reader can read back |
| `DurableService.ServiceCommitsNameTheirContent` | src/python/projectkoios/workflow/execution/pure_action_durable_cpn_commit.py:111-163 | in every store that only services commit to, a commit identity determines its record, with digests that tell contents apart |
| `DurableService.ServiceAgreesWithRepository` | src/python/projectkoios/workflow/execution/pure_action_durable_cpn_commit.py:111-163 | however other callers interleave with its parts, the service answers, or raises, as the repository would, unless a source went stale before a commit that was not there yet |
| `DurableService.OldCommitsAreNotReplayable` | src/python/projectkoios/workflow/execution/pure_action_durable_cpn_commit.py:118-149 | a commit from a version 2 store has no evidence, so the service answers CONFLICT to its replay |
| `RevisionStore.AtomicRevisionStore.CommitRevision` | src/python/projectkoios/workflow/persistence/sqlite.py:231-363 | the method answers and appends as specified, keeps every history linear, and its result passes the result constructor |
| `RevisionStore.AtomicRevisionStore.Read` | src/python/projectkoios/workflow/persistence/sqlite.py:147-229 | the method observes as specified, which ReadingExact ties to the rows retained |
| `RevisionStore.CommitExact` | src/python/projectkoios/workflow/persistence/sqlite.py:253-341 | on a reachable store every answer of a commit with any payload limit and any fault, and the exact condition of each: it recognises exactly the revision its key stands for, and appends exactly when key and revision are new and the head is expected |
| `RevisionStore.NewRevisionsAreCommitted` | src/python/projectkoios/workflow/persistence/sqlite.py:231-341 | progress: every stream can be begun, and continued from its head, by any new revision under a new key within the payload limit |
| `RevisionStore.AppendExact` | src/python/projectkoios/workflow/persistence/sqlite.py:286-341 | an append leaves the candidate under its stream, identity and key, as the head of its stream, and every other row and head as it was |
| `RevisionStore.RunKeeps` | src/python/projectkoios/workflow/persistence/sqlite.py:231-363 | after every run of calls by instances with any payload limits, with every fault, the store is well-formed and no row has changed |
| `RevisionStore.HistoriesAreLinear` | src/python/projectkoios/workflow/persistence/sqlite.py:231-341 | each stream is one acyclic predecessor chain from a root to the head that contains every revision of the stream |
| `RevisionStore.AppliedIsIdempotent` | src/python/projectkoios/workflow/persistence/sqlite.py:253-284 | an applied commit is answered IDEMPOTENT in every later state by every instance whose limit admits it, and its key never appends again |
| `RevisionStore.ReadingExact` | src/python/projectkoios/workflow/persistence/sqlite.py:84-229 | on a reachable store a reading finds the whole revision retained under the stream and identity asked for, or under the head, and the only corrupt one is a payload above the reader's own limit |
| `RevisionStore.CommittedIsRead` | src/python/projectkoios/workflow/persistence/sqlite.py:147-341 | what was committed is what is read: at once as the latest revision of its stream, and under its identity after any run with any faults, by every instance whose limit admits the payload |
| `Utf8.TextIsDetermined` | src/python/projectkoios/workflow/persistence/sqlite.py:65-66 | texts are determined by their UTF-8 bytes |
| `Utf8.LengthIsExact` | src/python/projectkoios/workflow/compilation/_cpn_representation.py:104-110 | the byte length that bounds a text is the length of its UTF-8 encoding |
| `Framing.FrameIsSelfDelimiting` | src/python/projectkoios/workflow/persistence/sqlite.py:59-62 | a tagged, length-prefixed frame determines its value and what follows it |
| `Framing.RevisionPreimagesAreInjective` | src/python/projectkoios/workflow/persistence/sqlite.py:69-81 | different revision and key pairs give different digested bytes |
| `Framing.PredecessorPreimagesAreInjective` | src/python/projectkoios/workflow/persistence/_pure_action_sqlite_rows.py:433-449 | different predecessors give different digested bytes |
| `Framing.RecordPreimagesAreInjective` | src/python/projectkoios/workflow/persistence/_pure_action_sqlite_rows.py:452-489 | different commit records, with whatever numbers of authorities, give different digested bytes |
| `Framing.FeedFrames` | src/python/projectkoios/workflow/persistence/sqlite.py:69-81 | the digest loop feeds exactly the concatenated frames |
| `Framing.FeedPlain` | src/python/projectkoios/workflow/persistence/_pure_action_sqlite_rows.py:452-489 | the record digest loop feeds exactly the concatenated prefixed values |
| `Collections.MergeExact` | src/python/projectkoios/workflow/core/processing.py:739-760 | a merge fails exactly on an identity collision and otherwise gives exactly the items, sorted and unique |
| `Collections.Merge` | src/python/projectkoios/workflow/core/processing.py:739-760 | the loop over collections with its dictionary computes that merge |
| `Collections.MergeNeverFails` | src/python/projectkoios/workflow/core/processing.py:739-748 | content identities never collide, so merges of identified collections never fail |
| `Processing.AddDecisionFindings` | src/python/projectkoios/workflow/core/processing.py:548-562 | the loop adds one finding for each decision of another subject |
| `Processing.BoundFindings` | src/python/projectkoios/workflow/core/processing.py:763-783 | the truncation computes the specified bounded list |
| `Processing.TruncationLosesNoCount` | src/python/projectkoios/workflow/core/processing.py:763-783 | retained and omitted findings, as written in the note, add up to all findings |
| `Processing.ReasonsNameFindings` | src/python/projectkoios/workflow/core/processing.py:786-798 | each reason is the message of the finding in its place, and the last one of too many counts those left out |
| `Processing.TruncationKeepsVerdict` | src/python/projectkoios/workflow/core/processing.py:763-783 | truncation never changes a verdict that rests on at most two revision conflicts |
| `Processing.TruncationOfConflicts` | src/python/projectkoios/workflow/core/processing.py:763-783 | that bound is needed: a long list of nothing but conflicts would change from conflict to rejection |
| `ProcessingTheorems.AtMostTwoConflicts` | src/python/projectkoios/workflow/core/processing.py:497-515 | the validators together report at most two revision conflicts |
| `ProcessingTheorems.FindingsTotal` | src/python/projectkoios/workflow/core/processing.py:438-688 | collecting the findings raises exactly when the revision of the run has more than 4,300 digits |
| `ProcessingTheorems.NoFindingsMeansConsistent` | src/python/projectkoios/workflow/core/processing.py:438-688 | there are no findings exactly when run, state, definition, request and evidence all fit together |
| `ProcessingFindings.FindingsExact` | src/python/projectkoios/workflow/core/processing.py:438-688 | a check is reported exactly when what it objects to is the case |
| `ProcessingFindings.RelatedExactly` | src/python/projectkoios/workflow/core/processing.py:515-546 | a conflict of revisions names the expected and the current one, and no other finding names a number |
| `ProcessingFindings.KindExactly` | src/python/projectkoios/workflow/core/processing.py:249-341 | the kind of every outcome from the input alone: rejected if anything but an expected state or revision is objected to, a conflict if only those are, and otherwise what failure or adapter say |
| `ProcessingFindings.OutcomeExactly` | src/python/projectkoios/workflow/core/processing.py:249-341 | every outcome names the run, request, prior state and revision it answers and the evidence supplied, gives the reasons of the findings, of the failure or of the adapter, has findings exactly when it is a rejection or a conflict, and successors exactly when it is applied |
| `ProcessingFindings.AuditExactly` | src/python/projectkoios/workflow/core/processing.py:225-246 | the audit event records the attempt, the kind and outcome, the revision that the run then has, and validation and evidence in order |
| `ProcessingTheorems.SuccessorTotal` | src/python/projectkoios/workflow/core/processing.py:691-736 | when everything fits, the constructors of the successor state and run accept what they are given exactly if the next revision can be written |
| `ProcessingTheorems.ProcessingIsTotal` | src/python/projectkoios/workflow/core/processing.py:206-341 | processing raises exactly on a run whose revision cannot be written, and on a transition that would be applied where the next one cannot; otherwise outcome and execution pass their constructors and the kind is the one that all findings and the evidence call for |
| `ProcessingTheorems.AppliedExactly` | src/python/projectkoios/workflow/core/processing.py:249-341 | APPLIED iff everything fits, the adapter enabled the transition and the next revision can be written |
| `ProcessingTheorems.LastRevision` | src/python/projectkoios/workflow/core/models.py:1608-1628 | those runs in numbers: processing raises on a revision above 10^4300 - 1 and on what would be applied to that one |
| `ProcessingRuns.StartIsConsistent` | src/python/projectkoios/workflow/core/models.py:705-757 | a run starts exactly from a bounded key and bounded collections without duplicates whose decisions apply to the subject; it agrees with its state at revision zero and they hold exactly the given references, each once, in canonical order |
| `ProcessingRuns.StepExact` | src/python/projectkoios/workflow/core/processing.py:691-736 | a run moves exactly if everything fits, the adapter enabled the transition and the next revision can be written; it then raises the revision by one, links the state to its predecessor, gives run and state the status, the reasons and the state references of the adapter, and adds exactly the requested and produced references; otherwise it stays |
| `ProcessingRuns.OperationsCanBeApplied` | src/python/projectkoios/workflow/core/processing.py:206-341 | progress: from every position that is not terminal, any operation of the definition can take the run to any status with any state references |
| `ProcessingRuns.RunIsLater` | src/python/projectkoios/workflow/core/processing.py:691-760 | between any two moments of a run the identity stays, references only grow, states link back step by step, and a terminal run stands still |
| `ProcessingRuns.RevisionCounts` | src/python/projectkoios/workflow/core/processing.py:691-736 | the revision counts the applied transitions |
| `ProcessingRuns.NoRequestAppliesTwice` | src/python/projectkoios/workflow/core/processing.py:497-515 | no request is ever applied twice on a run |
| `ProcessingRuns.StartedRuns` | src/python/projectkoios/workflow/core/models.py:592-665 | at every moment after a start the run agrees with its state, with canonical bounded references |
| `Payloads.ValidateSequence` | sdk/src/python/projectkoios/workflow_sdk/firing.py:555-584 | the check by dictionary and sorted positions accepts what is specified |
| `Payloads.ValidateZip` | src/python/projectkoios/workflow/actions/_validation.py:42-91 | the positional check accepts what is specified |
| `Payloads.AcceptsMatchingSubsequences` | sdk/src/python/projectkoios/workflow_sdk/firing.py:555-584 | with unique roles the dictionary check accepts exactly the matching subsequences of the contracts |
| `Payloads.ExactIsZip` | src/python/projectkoios/workflow/actions/_validation.py:42-91 | in exact mode the positional check accepts exactly what the dictionary check accepts of payloads with unique roles |
| `Payloads.RepeatedRoleIsAccepted` | sdk/src/python/projectkoios/workflow_sdk/firing.py:565-584 | without unique payload roles they differ |
| `Payloads.LaterChecksAreImplied` | sdk/src/python/projectkoios/workflow_sdk/firing.py:360-387 | every later count and byte check of fire is implied by the payload checks and the descriptor; only the number of codes can still be refused |
| `Payloads.FireExactly` | sdk/src/python/projectkoios/workflow_sdk/firing.py:360-387 | fire returns exactly the owner's own result, and exactly to a request for this firer whose inputs follow the contracts, if it names the request, its outputs follow the output contracts and its evidence some of the evidence contracts in order |
| `Payloads.FiringAtTheBounds` | sdk/src/python/projectkoios/workflow_sdk/firing.py:43-133 | the bounds can be met: 64 inputs of 256 KiB are fired to 32 outputs and 32 pieces of evidence of 256 KiB by a firer whose descriptor admits exactly that |
| `Payloads.LargestResults` | sdk/src/python/projectkoios/workflow_sdk/firing.py:508-538 | results of 16 MiB of outputs and as much evidence, or of 64 codes, and bounds at the hard limits are constructible |
| `Json.IntegerRoundTrip` | src/python/projectkoios/workflow/compilation/_cpn_representation.py:51-55 | every integer decodes from its decimal text |
| `NetCodec.ValueAgrees` | src/python/projectkoios/workflow/compilation/_cpn_representation.py:14-65 | an encoded value decodes to itself iff its integer text or its sequence is within the bounds the encoder leaves unchecked, and is refused otherwise |
| `NetCodec.GuardAgrees` | src/python/projectkoios/workflow/compilation/pure_action_cpn_representation.py:348-366 | the same for guard trees of any depth the encoder accepts |
| `NetCodec.EncodedGuardsAreShallow` | src/python/projectkoios/workflow/compilation/pure_action_cpn_representation.py:348-366 | a guard nested deeper than 64 is never encoded |
| `NetCodec.ArcAgrees` | src/python/projectkoios/workflow/compilation/pure_action_cpn_representation.py:269-345 | the same for arcs with their patterns and templates |
| `NetEncoding.GuardEncodes` | src/python/projectkoios/workflow/compilation/pure_action_cpn_representation.py:348-386 | a guard is encoded exactly when it is nested at most 64 deep, with at most 65,536 operands each and good texts throughout |
| `NetEncoding.ArcEncodes` | src/python/projectkoios/workflow/compilation/pure_action_cpn_representation.py:269-345 | an arc is encoded exactly when its texts are good and it has at most 65,536 patterns or templates |
| `NetEncoding.DefinitionEncodes` | src/python/projectkoios/workflow/compilation/pure_action_cpn_representation.py:214-386 | a definition is encoded exactly when its identities, strings and real texts are good, its four counted lists, patterns, templates and operands at most 65,536, and its guards at most 64 deep |
| `NetEncoding.MarkingEncodes` | src/python/projectkoios/workflow/compilation/pure_action_cpn_marking_representation.py:73-134 | a marking is encoded exactly when its texts are good and places, and tokens in all of them, are at most 65,536 |
| `NetEncoding.DecodedExactly` | src/python/projectkoios/workflow/compilation/pure_action_cpn_representation.py:388-634 | the decoder accepts exactly the trees that encode a definition within its bounds, and gives that definition |
| `NetEncoding.MarkingDecodedExactly` | src/python/projectkoios/workflow/compilation/pure_action_cpn_marking_representation.py:210-270 | the same for markings |
| `NetCodec.DefinitionRoundTrip` | src/python/projectkoios/workflow/compilation/pure_action_cpn_representation.py:214-426 | the state tree of an encoded definition decodes to the original exactly when the unchecked lists and integer texts are within bounds, and is refused otherwise |
| `NetCodec.WideDefinitionsAreRefused` | src/python/projectkoios/workflow/compilation/pure_action_cpn_representation.py:214-260 | a definition that is encoded and then refused: a transition with more than 65,536 different external output variables |
| `NetCodec.KernelIntegersAreGood` | src/python/projectkoios/workflow/petrinet/colored/values.py:156-160 | integers of the kernel's 64-bit range are always within the text bound |
| `NetCodec.EncodeAllPlaces` | src/python/projectkoios/workflow/compilation/pure_action_cpn_marking_representation.py:73-116 | the loop over places with its running total computes the specified encoding |
| `NetCodec.MarkingRoundTrip` | src/python/projectkoios/workflow/compilation/pure_action_cpn_marking_representation.py:73-250 | the state tree of an encoded marking decodes to the original exactly when its values are within bounds, and is refused otherwise |
| `Sizes.RequestsFit` | sdk/src/python/projectkoios/workflow_sdk/serialization.py:146-149 | every constructible request encodes within 32 MiB, whatever its strings escape to |
| `Sizes.CorrelatedResultsFit` | sdk/src/python/projectkoios/workflow_sdk/serialization.py:195-210 | every result that passes result correlation encodes within 32 MiB |
| `Sizes.BytesDecide` | sdk/src/python/projectkoios/workflow_sdk/firing.py:533-538 | of a merely constructible result the bytes of outputs and evidence decide: up to 23,000,000 it fits, whatever else it holds, and above 25,165,824 it never does |
| `Sizes.LargeSuccessDoesNotFit` | sdk/src/python/projectkoios/workflow_sdk/firing.py:533-538 | a constructible success that does not: four outputs and four pieces of evidence of 4 MiB each |
| `Sizes.Base64Fits` | sdk/src/python/projectkoios/workflow_sdk/serialization.py:63 | no encoded payload exceeds the Base64 limit of the decoder, which the longest one meets exactly |
| `Documents.RequestTextLength` | sdk/src/python/projectkoios/workflow_sdk/serialization.py:796-806 | the sizes above are those of the documents: the JSON text of a request, with its escapes, Base64 and sorted keys, has exactly the stated length |
| `Documents.ResultTextLength` | sdk/src/python/projectkoios/workflow_sdk/serialization.py:796-806 | so has the JSON text of a result of every outcome |

## Left out

- SQLite itself, files, permissions, pragmas, timeouts and connections; a transaction is one atomic step with the faults named above.
- SHA-256, the parsing of JSON text, lone surrogates and `float.hex`: identities are injective, the net codecs work on JSON trees whose object keys are an enumeration, JSON text is written out for SDK requests and results alone, and a real is its hexadecimal text.
- The net kernel: firing is a function of its input, and the constructors of net definitions and markings, which reorder some lists and refuse some values, are not modelled beyond the range of integers; nor is the decoder's final comparison with a second encoding, which rests on them.
- Owner code and source repositories: whatever they answer is an input of the step that asks.
- Subclass and exact-type checks, text grammars of identities and the reconstruction of records before use: Dafny types and record predicates stand for them.
- Human-readable diagnostics and the paths and messages of findings: only whether a list of diagnostics is empty, and which check a finding comes from, is kept.
- The bytes of replay bundles: a bundle is its plan, firing, markings and an opaque remainder.
- Interleavings inside one transaction: BEGIN IMMEDIATE excludes them.
- Reads of single rows without a branch of their own (`current_predecessor`, `load_commit_event`) and the statuses by which readers tell an unsupported version from other faults.
- The transition replayer, which compares an execution with the recomputed one, and the audit event's bounded strings.
- Interpreters started with another limit on integer texts than the default of 4,300 digits, and records whose construction that limit prevents.
- The OverflowError inside the preparation of a read: the readers are modelled on prepared tables.
- The course-review and reference-review adapters, manifests and re-exporting modules.
- RetryAndTheNet: goes one way only for a successor reserved before another caller repeats the commit; the branches then differ at first and may meet again, as OvertakenBranchesMayMeetAgain shows.
- The service objects as classes: each `execute` is modelled as the sequence of its accesses to the store, so that other workers can come between them.
- The digest over a row of replay evidence, whose framing is that of the record digest.
- Workers.WorkIsSound: the diagnostics of stale outcomes are two constant words rather than the statuses, because only their presence matters to the constructors.
