# Verified model of the customer data platform's core protocols

A Dafny 4.11 project that models the stateful heart of the platform and proves what it is built to keep. To verify it,
run `dafny verify dfyconfig.toml` here.

## What is modelled

**Contact writes.** `Tables` holds the tables of one tenant: contacts with their generated columns, the index
`unique_values`, field definitions, lists, the append-only consent history, the events put in the outbox, relational
rows, identity links and access requests. `FieldValues`, `StoredText`, `KeyResolver` and `BatchChecks` are the
validation of a batch, `BatchCommit` is its transaction, as functions on these tables. `ContactsWriteService` is the
engine itself, a class that updates the tables in place with the loops of the service, each method proved against
those functions. On top of them: validation is complete (`BatchSafety`, `BatchTheorems`) for keys that read like what
is stored for them, and `StableKeys` shows what becomes of the others; the batch is its items one by one in any order,
table by table and log by log (`BatchRefinement`, `ContactLog`); when sending it again changes nothing (`BatchReplay`,
`PartialReplay`); and every transaction keeps the invariant `Tables.Consistent` (`CommitInvariant`): the index agrees
with the contacts, unique columns are unique, consents replay to the current values, and the last snapshot of every
live contact is current. What a call answers and records is also said in its own terms, with the codes, columns and
events written out: `CallAnswers` for modes, keys, fields and unique values, `ConsentRecords` for consents,
`ValueRules` for what each type of field takes, `TenantRecords` for the other transactions. `TenantOps`, `Gdpr` and
`TenantServices` add soft deletion, lists, field removal and purge, and erasure; `RelationalRows` is the upsert of
relational rows; `TenantRuns` proves the invariant over all runs and says exactly when an erasure is for good.
`SampleTenant` is a small tenant on which failures that need a special state are shown to happen.

**Outbox relay.** `OutboxProtocol` is the protocol of commits, locks, sends, deletes and failures of any number of relays
against a stream that drops duplicates for 120 seconds; `OutboxRelay` is one relay with its drain and its wake-ups.

**Job queue.** `Jobs` holds the statements, `JobStore` the table as a class, `JobQueue` and `JobRuns` the protocol of
workers, janitor, cancellations and crashes, `JobPaging` and `JobCursors` the listing.

**Imports.** `ImportRun` and `ImportConservation` are the run with its concurrent sends as a step relation,
`ImportHandler` the loops of the handler, `ImportIntoCore` the link to the write engine.

**Sessions.** `TokenFamilies` is refresh-token rotation under interleaved requests, `AuthService` the service class.

**Smaller pieces.** `Redelivery` is the resolution of stream deliveries and its back-off, `Utf8` and `Sniff` the
detection of encoding and delimiter.

A transaction is one atomic step that commits or leaves the tables as they were; `FOR UPDATE SKIP LOCKED` is a set of
locked rows; new IDs, clocks, and what core or the stream answers are parameters. Members named `Step`, `Next`, `Moved` or
`Event` of a protocol over-approximate the order in which concurrent parts may run.

## Where the code does less than it seems to

These are results of the proofs, each with the lemma that shows it.

- The service trims keys of fields 3 and 4 with JavaScript's `trim`, the generated columns with PostgreSQL's, which
  strips spaces only, although the code says the two normalizations are the same. Keys of other unique fields are looked
  up as sent but stored as normalized: "01" is stored as 1. A contact is found by its own key, and sending it again works,
  exactly for keys on which the two agree; with any other, such as "\ta@b.c" or "01", every resend fails
  (`StableKeys.OwnKeyAgain`, `StableKeys.TabbedEmail`, `StableKeys.PaddedNumber`, `KeyResolver.FoundByOwnValue`).
- A numeric "-0" is stored as 0 and never found equal to it: each resend raises the version and announces the contact
  again, and this is the only way a fully accepted batch is not a no-op when sent again (`BatchReplay.ReplayExactly`,
  `BatchReplay.MinusZeroIsSigned`).
- An item accepted in a partly accepted batch can be refused with 2014 when the batch is sent again, because an item
  refused before comes further and asks for its value first (`PartialReplay.PartialReplayExactly`,
  `SampleTenant.AcceptedOnceHappens`).
- Numbers from 1e21 on, and below 1e-6, are printed with an exponent, which the pattern for numbers refuses
  (`StoredText.TextRoundTrip`, `StoredText.TenMillionth`).
- A relational upsert or an access request that looked a contact up before its erasure and writes after it names the
  contact again, as neither table has a foreign key to contacts; a relational row of this kind stays until its table is
  dropped (`TenantRuns.ErasureIsPermanentExactly`, `TenantRuns.RowOutlivesContact`, `TenantRuns.StrayRowStays`).
- A fetch that delivers messages and then fails leaves the decoded ones unresolved; if that was the last delivery, the
  message is lost without a dead letter (`Redelivery.ResolvedExactly`, `Redelivery.FailedFetchLoses`).
- `finish` and `saveProgress` check the status but not the attempt: exclusive leases depend on punctual heartbeats
  (`JobRuns.RecoverIsSafeExactly`, `JobRuns.LateWorkerEndsNewerAttempt`).
- A revocation between a rotation and its issue does not end the family (`TokenFamilies.RevokeKillsExactly`).
- Duplicates are dropped only if the rows are resent within the window (`OutboxRelay.RetryIsInvisible`).
- A kick is lost to the next tick when the loop is just leaving, and also when the running drain throws
  (`OutboxRelay.KickIsHeard`).
- The counters of an import add up exactly if core's reasons name rows of the batch (`ImportConservation.Conservation`),
  which the write engine guarantees (`ImportIntoCore.EngineCountsOut`).
- A cut sample with up to four bytes of rubbish at its end passes for UTF-8, and the fourth byte dropped serves no
  well-formed file, as at most three are a part of a character (`Sniff.MisledExactly`, `Sniff.FourthDropGainsNothing`).

## Model

| member | source | states |
|---|---|---|
| BatchTheorems.ValidationIsComplete | services/core/src/modules/contacts-write/contacts-write.service.ts:170-308 | Without another writer, with canonical keys and plain values of fields 3 and 4, the items that pass `keyed`, `resolve` and `checkUnique` commit on the first attempt: no unique index refuses a row and no `Retry` is raised. A key is canonical if it reads like the value stored for it, as every text key does (`BatchTheorems.TextKeyIsCanonical`) |
| BatchTheorems.AcceptedSound | services/core/src/modules/contacts-write/contacts-write.service.ts:152-237 | The items left after validation are fit to be written together: known fields, located contacts, distinct contacts, and no unique value two of them or another live contact holds |
| BatchTheorems.ChecksComplete | services/core/src/modules/contacts-write/contacts-write.service.ts:219-237 | If no unique field of any item is held elsewhere or claimed by an earlier item, the unique checks fail nobody |
| BatchTheorems.CandidateFits | services/core/src/modules/contacts-write/contacts-write.service.ts:152-202 | An item that got a contact carries its key as a value, sends only known fields and is new exactly when its key finds nobody |
| BatchTheorems.FieldsSent | services/core/src/modules/contacts-write/contacts-write.service.ts:174-189 | An accepted item sends, for each of its properties, that property's normalized value, and nothing else |
| CallAnswers.ModeDecides | services/core/src/modules/contacts-write/contacts-write.service.ts:191-201 | What the mode does with an item good in itself: `create` fails it with 2012 if its key finds a contact; `update`, and any call by `id`, with 2008 if it finds none |
| CallAnswers.AnswersFollowTheMode | services/core/src/modules/contacts-write/contacts-write.service.ts:191-201 | An answer with a contact and `created` false means the mode is not `create` and the key finds that contact; with `created` true, that the mode is not `update`, the key not `id`, the key finds nobody and the ID is the new one; either way the key is usable and every property good |
| CallAnswers.ModeKeepsRows | services/core/src/modules/contacts-write/contacts-write.service.ts:191-282 | In the tables: `create` leaves every contact there was as it was; `update`, and a call by `id`, add none |
| CallAnswers.BadItemsFail | services/core/src/modules/contacts-write/contacts-write.service.ts:157-189 | An item whose key is missing, blank or repeated fails with 2014; one with a bad property with the code of the first one: 2011 unknown, 2013 read-only, 2010 not taken |
| CallAnswers.UniqueDecides | services/core/src/modules/contacts-write/contacts-write.service.ts:220-237 | An item passes the unique checks exactly if in every unique field but the key its value is nobody's or its own and no earlier item in the race asks for it; else it fails at the lowest such field, with 2014 for a repetition and 2012 for a value of another contact |
| CallAnswers.KeyTextIs | services/core/src/modules/contacts-write/contacts-write.service.ts:158-159 | The key of an item is its string, or its number as printed, and nothing for any other value |
| CallAnswers.DeleteAnswers | services/core/src/modules/contacts-write/contacts-write.service.ts:115-128 | A delete fails an item with 2014 for its key, with 2008 if the key finds nobody, and else answers with the contact found |
| CallAnswers.FirstOfThree | services/core/src/modules/contacts-write/contacts-write.service.ts:97-105 | A call is the first of three attempts that commits |
| CallAnswers.ChangedInOrder | services/core/src/modules/contacts-write/contacts-write.service.ts:256 | `changed` names fields in the order they were sent, each once |
| CallAnswers.ChangedExactly | services/core/src/modules/contacts-write/contacts-write.service.ts:249-265 | An answer names exactly the sent fields whose stored value the call changed, and those sent as -0 |
| CallAnswers.BlankIsShared | services/core/src/modules/contacts-write/contacts-write.service.ts:224 | A blank value of a unique field is never refused and never indexed |
| BatchSafety.SoundCommits | services/core/src/modules/contacts-write/contacts-write.service.ts:207-308 | A transaction over items that are fit together always commits: each row is found, no row insert conflicts and every `unique_values` insert succeeds |
| BatchSafety.SyncSucceeds | services/core/src/modules/contacts-write/contacts-write.service.ts:285-308 | Clearing the changed entries first makes room for every value the batch inserts in `unique_values` |
| BatchSafety.RowsSucceed | services/core/src/modules/contacts-write/contacts-write.service.ts:240-282 | No row of such a batch is refused by the partial unique indexes on email and external ID |
| StableKeys.OwnKeyAgain | services/core/src/modules/contacts-write/contacts-write.service.ts:191-308 | For every unique field: sending a live contact's own stored key again is the no-op it should be if and only if the key is stable (for fields 3 and 4, trimmed alike by service and database; else written like the stored value) and no -0; if it is not stable, and no other contact answers to it, every attempt ends in a retry |
| StableKeys.SentTwice | services/core/src/modules/contacts-write/contacts-write.service.ts:94-107 | On a new tenant: the first upsert of any valid key is written; the second finds that contact exactly if the key is stable, and is refused for good if it is not |
| StableKeys.TabbedEmail | services/core/prisma/migrations/20260918010000_contacts/migration.sql:50-51 | The concrete key "\ta@b.c": written once into a new tenant, after which sending it again ends in a retry |
| StableKeys.PaddedNumber | services/core/src/modules/contacts-write/contacts-write.service.ts:158 | The concrete key "01" of a unique numeric field: stored as 1, looked up as "01", and refused ever after |
| StableKeys.KeyTaken | services/core/src/modules/contacts-write/contacts-write.service.ts:269-282 | A live contact that already has the email or external ID makes the insert of another one with it fail |
| StableKeys.ValueTaken | services/core/src/modules/contacts-write/contacts-write.service.ts:285-308 | A live contact that already has the value of a custom unique field makes every write of it to another one fail |
| StableKeys.NotBlankInDatabase | services/core/prisma/migrations/20260918010000_contacts/migration.sql:50-51 | A key that is not blank to the service is not blank to the generated column either |
| BatchRefinement.BatchIsOneByOne | services/core/src/modules/contacts-write/contacts-write.service.ts:170-308 | The set-at-a-time batch leaves in every table what its accepted items leave when each is sent alone, in any order; consent entries and events are the same for each contact, in the same order; and each of those calls answers what the batch answered |
| BatchRefinement.CommitApplies | services/core/src/modules/contacts-write/contacts-write.service.ts:240-308 | After the transaction each written contact has its merged data, a new one version 1, and an old one a version more exactly if `changed` is not empty; no other contact, index entry or table moves |
| BatchReplay.VersionRisesExactly | services/core/src/modules/contacts-write/contacts-write.service.ts:256-265 | The version of an existing contact rises by one exactly if a stored value differs afterwards or the item sends a -0 |
| BatchRefinement.CommitLogs | services/core/src/modules/consents/consents.service.ts:45-76 | The history and the events of each written contact gain exactly its own change's entries, `consent.changed` before the snapshot of the row as it then is; those of every other contact stay |
| ConsentRecords.ItemIsRecorded | services/core/src/modules/consents/consents.service.ts:45-76 | Each accepted item adds to its contact's history one row for each channel it changed, with the new value, and the source, text and actor of the explicit call if that is about the channel, else the source of the call and neither text nor actor; to the events one with channel, value, source and text for each row, and the snapshot if it changed or created anything |
| ConsentRecords.PutIsRecorded | services/core/src/modules/consents/consents.service.ts:79-82 | An explicit consent that changes the value appends exactly one row, with the value, source, text and actor given, and exactly two events, the row's and the snapshot |
| ConsentRecords.PutForNobody | services/core/src/modules/consents/consents.service.ts:83-85 | An explicit consent for a contact that is not live reports that there is none |
| ConsentRecords.PutReports | services/core/src/modules/consents/consents.service.ts:83-86 | What is reported: recorded exactly without an error, no contact exactly for 2008, any other error as it is |
| BatchRefinement.EveryItemAnswered | services/core/src/modules/contacts-write/contacts-write.service.ts:151-217 | Result `i` is about item `i` and carries an ID or an error but not both; with an ID exactly for accepted items |
| BatchRefinement.AcceptedAnswer | services/core/src/modules/contacts-write/contacts-write.service.ts:170-217 | An accepted item is answered with its contact, whether it was created and which fields changed |
| BatchRefinement.AppliedSame | services/core/src/modules/contacts-write/contacts-write.service.ts:239-308 | What a set of written items leaves is determined by the items, not by their order |
| BatchRefinement.OneStep | services/core/src/modules/contacts-write/contacts-write.service.ts:170-217 | Writing one accepted item alone, after some of the others, gives the same answer and the same row |
| BatchReplay.ReplayExactly | services/core/src/modules/contacts-write/contacts-write.service.ts:191-265 | A fully accepted upsert or update sent again is accepted and leaves every table as it is, with no version, event or consent entry more, if and only if no property it sends normalizes to -0 |
| BatchReplay.ReplayAnswers | services/core/src/modules/contacts-write/contacts-write.service.ts:191-265 | Each of its items is answered as before but for `created`, with `changed` empty exactly if it sends no -0 |
| BatchReplay.MinusZeroIsSigned | services/core/src/modules/contacts-write/contacts-write.service.ts:256 | The concrete value "-0" in a numeric field: `isDeepStrictEqual` tells it from the 0 stored for it on every resend |
| PartialReplay.PartialReplayExactly | services/core/src/modules/contacts-write/contacts-write.service.ts:191-237 | A partly accepted batch sent again: an item accepted before is accepted again, as a no-op but for a -0, if and only if no earlier item, not refused until some unique field, asks for the same value of that field; otherwise it fails with 2014 |
| PartialReplay.AcceptedIsKept | services/core/src/modules/contacts-write/contacts-write.service.ts:191-265 | Accepted again or not, its contact keeps the data the first call gave it |
| PartialReplay.NothingSharedReplays | services/core/src/modules/contacts-write/contacts-write.service.ts:220-237 | If no two items of the batch ask for the same value of a unique field, every accepted item is accepted again |
| PartialReplay.AcceptedOnce | services/core/src/modules/contacts-write/contacts-write.service.ts:224-234 | A two-item batch whose second item is accepted once and refused on the resend, because the first item, refused at a lower field before, now gets far enough to ask for its value |
| SampleTenant.AcceptedOnceHappens | services/core/src/modules/contacts-write/contacts-write.service.ts:224-234 | That run spelled out on a tenant of two contacts with two unique text fields: "c" is accepted by the first call, and refused with 2014 by the second |
| BatchReplay.MergeTwice | services/core/src/modules/contacts-write/contacts-write.service.ts:249-258 | Merging the same sent keys twice is merging them once |
| BatchReplay.NoOpCommits | services/core/src/modules/contacts-write/contacts-write.service.ts:240-265 | A batch whose items change nothing commits and changes no table |
| BatchCommit.MergeAt | services/core/src/modules/contacts-write/contacts-write.service.ts:250-255 | A merge sets what was sent, drops what was sent as null and keeps the rest |
| BatchCommit.ChangedHas | services/core/src/modules/contacts-write/contacts-write.service.ts:256 | `changed` holds exactly the sent fields whose stored value differs afterwards, and those sent as -0, which `isDeepStrictEqual` never finds equal to what is stored |
| CommitInvariant.CommitKeepsConsistent | services/core/src/modules/contacts-write/contacts-write.service.ts:207-308 | Any transaction that commits, even one validated against stale tables, keeps the index, the unique columns, the consent history and the snapshots in agreement with the contacts |
| CommitInvariant.IndexKept | services/core/src/modules/contacts-write/contacts-write.service.ts:284-308 | `syncUniqueValues` keeps `unique_values` exactly the values live contacts hold in custom unique fields |
| CommitInvariant.ConsentsKept | services/core/src/modules/consents/consents.service.ts:45-76 | The hook keeps every contact's and channel's history replaying to the current field value, adjacent entries different |
| CommitInvariant.SaysAfterRowsBy | services/core/src/modules/consents/consents.service.ts:48-62 | The rows of one change say the new value of each channel it touched and nothing about the others |
| CommitInvariant.SnapshotsKept | services/core/src/modules/contacts-write/outbox.ts:102-125 | Every changed contact gets a snapshot of its new version, data and lists; the others keep theirs |
| CommitInvariant.PutRowsUnique | services/core/prisma/migrations/20260918010000_contacts/migration.sql:174-178 | Rows written through the partial unique indexes stay unique in email and external ID |
| FieldValues.NormalizeIsIdempotent | services/core/src/modules/fields/field-registry.ts:18-52 | What is stored for a value, sent back as the JSON it reads back as, is normalized to itself, for every field type and option set |
| FieldValues.MinusZeroExactly | services/core/src/modules/fields/field-registry.ts:27-31 | A value normalizes to -0 exactly if the field is numeric and it is -0 or text that spells zero behind a minus |
| ValueRules.BooleanExactly | services/core/src/modules/fields/field-registry.ts:36-40 | A boolean field takes exactly the scalars that print as "true" or "1", as true, and as "false" or "0", as false; all else fails with 2010 |
| ValueRules.NumericExactly | services/core/src/modules/fields/field-registry.ts:27-30 | A numeric field takes numbers, and strings that are, once trimmed, a sign, digits and behind a point more digits |
| ValueRules.NumberIsKept | services/core/src/modules/fields/field-registry.ts:28 | The number stored for such a string is the one it spells, whatever its zeros |
| ValueRules.KeptAsSent | services/core/src/modules/fields/field-registry.ts:19-35 | Null removes the value; text and dates are stored to the letter, dates only if they name a day |
| ValueRules.DaysAreGregorian | services/core/src/modules/fields/field-registry.ts:33 | The years before `y` have 365y plus the Gregorian number of leap days, counted month by month |
| ValueRules.LeapDayExactly | services/core/src/modules/fields/field-registry.ts:33 | 29 February is taken exactly in years divisible by 4 but not by 100, or by 400 |
| ValueRules.MultiExactly | services/core/src/modules/fields/field-registry.ts:46-51 | A field of many options takes a list exactly if each entry names one of them, and stores each once, in the order first named |
| ValueRules.SingleExactly | services/core/src/modules/fields/field-registry.ts:22-45 | A field of one option takes exactly a number or digits that name one of them |
| ValueRules.ExponentialExactly | services/core/src/modules/fields/field-registry.ts:28 | Printed with an exponent are exactly the numbers from 1e21 on and those closer to zero than 1e-6 |
| ValueRules.ListTextOnce | services/core/src/modules/contacts-write/contacts-write.service.ts:224-234 | Lists of options are compared as unique values by a text that tells any two apart |
| StoredText.TextRoundTrip | services/core/src/modules/fields/field-registry.ts:18-52 | A stored value written with `String` and sent back, as an import file does, is stored as it was if and only if the field is not a list of options and the value not a number that JavaScript prints with an exponent |
| StoredText.NumberRoundTrip | services/core/src/modules/fields/field-registry.ts:28-31 | A decimal in its shortest form reads back from its printed form exactly if that has no exponent; with one it is refused |
| StoredText.TenMillionth | services/core/src/modules/fields/field-registry.ts:28-31 | The concrete value "0.0000001": stored, printed as "1e-7", and refused when that comes back |
| KeyResolver.LookupIsScan | services/core/src/modules/fields/key-resolver.ts:26-59 | Resolving a value by a unique field finds contact `c` exactly if `c` is live and holds that value, as a scan of the contacts would tell |
| KeyResolver.FoundExactly | services/core/src/modules/fields/key-resolver.ts:26-59 | Whom a key finds: by email, the live contact whose email is the same but for case and surrounding white space; by external ID, but for surrounding white space; by another unique field, the same text; by `id`, that ID |
| Text.SameKeyExactly | services/core/src/modules/fields/key-resolver.ts:30 | Two texts are one key exactly if they are emails that differ in case and surrounding white space at most, external IDs that differ in surrounding white space at most, or the same |
| Text.TrimIs | services/core/prisma/migrations/20260918010000_contacts/migration.sql:50-51 | The service strips the 25 white space characters of ECMA-262 around a text and the generated columns spaces alone; each leaves what stands between them |
| KeyResolver.KeyExistsExactly | services/core/src/modules/fields/key-resolver.ts:19-23 | Keys are `id` and the unique fields that are not deleted |
| KeyResolver.LookupUnique | services/core/src/modules/fields/key-resolver.ts:26-59 | A key names at most one live contact |
| KeyResolver.FoundByOwnValue | services/core/src/modules/fields/key-resolver.ts:30 | A live contact is found by its own value exactly if service and generated column normalize it alike |
| ContactsWriteService.Service.Resolve | services/core/src/modules/fields/key-resolver.ts:26-44 | One query and two loops give, for each value, the contact `resolve` promises, and none for the others |
| ContactsWriteService.Service.Query | services/core/src/modules/fields/key-resolver.ts:46-59 | The query's rows by key: a key has a row exactly if a live contact answers to it |
| ContactsWriteService.Service.Keyed | services/core/src/modules/contacts-write/contacts-write.service.ts:152-168 | Items without a key and repeated keys fail with 2014; the others stand |
| ContactsWriteService.Service.Validate | services/core/src/modules/contacts-write/contacts-write.service.ts:175-188 | The fields of an item up to the first bad one, or that one's error |
| ContactsWriteService.Service.Screen | services/core/src/modules/contacts-write/contacts-write.service.ts:171-189 | Keys and fields of every item checked; the keys of those without error are collected |
| ContactsWriteService.Service.Place | services/core/src/modules/contacts-write/contacts-write.service.ts:191-202 | Each item left gets the contact its key names or a new one, or fails by the mode of the call as `CallAnswers.ModeDecides` spells out |
| ContactsWriteService.Service.Settle | services/core/src/modules/contacts-write/contacts-write.service.ts:203-204 | The items the unique checks reject fail; the others are written |
| ContactsWriteService.Service.CheckField | services/core/src/modules/contacts-write/contacts-write.service.ts:221-235 | One unique field: values repeated in the batch fail with 2014, values of other contacts with 2012, in item order |
| ContactsWriteService.Service.CheckUnique | services/core/src/modules/contacts-write/contacts-write.service.ts:220-237 | The checks of all unique fields but the key, an item failing once at most |
| ContactsWriteService.Service.Update | services/core/src/modules/contacts-write/contacts-write.service.ts:240-266 | Existing rows are merged and written set-wise; refused exactly when a row is missing or a unique column conflicts |
| ContactsWriteService.Service.Insert | services/core/src/modules/contacts-write/contacts-write.service.ts:269-282 | New rows with the values that are not null; refused exactly on a conflict |
| ContactsWriteService.Service.SyncUniqueValues | services/core/src/modules/contacts-write/contacts-write.service.ts:285-308 | Cleared entries out, new values in; refused exactly when a value is taken |
| ContactsWriteService.Service.Record | services/core/src/modules/consents/consents.service.ts:45-76 | One history row and one `consent.changed` for each changed consent field, in order, with the columns `ConsentRecords.ItemIsRecorded` spells out |
| ContactsWriteService.Service.Transact | services/core/src/modules/contacts-write/contacts-write.service.ts:207-215 | The transaction commits all of it or leaves the tables as they were |
| ContactsWriteService.Service.Attempt | services/core/src/modules/contacts-write/contacts-write.service.ts:170-217 | One attempt answers every item and writes the accepted ones, or changes nothing; by mode as in `CallAnswers.AnswersFollowTheMode` |
| ContactsWriteService.Service.Write | services/core/src/modules/contacts-write/contacts-write.service.ts:94-107 | Up to three attempts; the call answers with the first that commits, and changes nothing if none does (`CallAnswers.FirstOfThree`) |
| ContactsWriteService.FirstAttemptCommits | services/core/src/modules/contacts-write/contacts-write.service.ts:94-107 | Under the conditions of complete validation the first attempt is the answer |
| ContactsWriteService.Service.SoftDelete | services/core/src/modules/contacts-write/contacts-write.service.ts:132-149 | The live contacts among the IDs are marked deleted, lose their index entries and are announced once each |
| ContactsWriteService.Service.Delete | services/core/src/modules/contacts-write/contacts-write.service.ts:115-129 | An unusable key is refused with 2009 and changes nothing; else items are answered by key and the contacts they name are soft-deleted, with the answers of `CallAnswers.DeleteAnswers` and the rows of `TenantRecords.SoftDeleteRecords` |
| ContactsWriteService.DeleteIsExact | services/core/src/modules/contacts-write/contacts-write.service.ts:115-129 | After a delete a contact is live exactly if it was and no item was answered with it |
| TenantOps.SoftDeleteKeepsConsistent | services/core/src/modules/contacts-write/contacts-write.service.ts:132-149 | Soft deletion keeps all invariants and takes exactly the named contacts |
| TenantRecords.SoftDeleteRecords | services/core/src/modules/contacts-write/contacts-write.service.ts:132-149 | Each live contact named is marked deleted with a version more and its data kept, loses its index entries and is announced by one event with reason `api`; nothing else moves |
| TenantOps.ListChangeKeepsConsistent | services/core/src/modules/lists/lists.service.ts:213-241 | Adding or removing contacts changes exactly the memberships of the live ones named and refreshes their snapshots |
| TenantOps.ListRemoveKeepsConsistent | services/core/src/modules/lists/lists.service.ts:124-134 | Removing a list refreshes the snapshot of every member, in whatever order the rows come |
| TenantRecords.ListChangeRecords | services/core/src/modules/lists/lists.service.ts:213-240 | Live contacts that were not on the list, or were, get on it, or off it, and one snapshot each with no changed fields and the lists they are now in; unknown lists are refused |
| TenantRecords.ListRemoveRecords | services/core/src/modules/lists/lists.service.ts:124-134 | The list goes with its memberships, each member gets such a snapshot, and nothing else moves |
| TenantOps.FieldCreateKeepsConsistent | services/core/src/modules/fields/fields.service.ts:59-83 | A new field under a new ID keeps all invariants |
| TenantOps.FieldRemoveKeepsConsistent | services/core/src/modules/fields/fields.service.ts:125-135 | Marking a field deleted keeps all invariants before the purge has run |
| TenantOps.PurgeKeepsConsistent | services/core/src/modules/fields/fields.service.ts:138-146 | A purge leaves no trace of the field in contacts and index and keeps all invariants |
| TenantRecords.FieldRecords | services/core/src/modules/fields/fields.service.ts:125-146 | A new field has the next ID and the definition given; removal marks exactly a custom field that is there; purge takes the field out of data and index and keeps version, deletion and every other value |
| TenantOps.EraseForgets | services/core/src/modules/gdpr/gdpr.service.ts:206-238 | After an erasure no contact, index, list, relational, link or request row names the contact; its consents keep channel, value and order without text; every other row is as it was |
| TenantRecords.ExportRecords | services/core/src/modules/gdpr/gdpr.service.ts:140-198 | An open export of a contact that has a row ends done, with its document; any other open export fails; neither touches anything else, and a request that has ended stays |
| TenantRecords.ForgetRecords | services/core/src/modules/gdpr/gdpr.service.ts:206-232 | An open erasure ends done with the subject's hash in place of the contact, takes the row and announces it with reason `gdpr`; one without a contact is done at once |
| TenantOps.EraseKeepsConsistent | services/core/src/modules/gdpr/gdpr.service.ts:213-232 | Erasure keeps all invariants for the other contacts |
| TenantRuns.RunsKeepConsistent | services/core/src/modules/contacts-write/contacts-write.service.ts:132-308 | Every run of writes, deletes, list and field changes, purges, relational upserts, requests and erasures, interleaved in any order, keeps index, unique columns, consent history and snapshots in agreement with the contacts |
| TenantRuns.FreshIsConsistent | services/core/prisma/migrations/20260918010000_contacts/migration.sql:45-68 | A new tenant satisfies the invariant |
| TenantRuns.ReachableLookup | services/core/src/modules/fields/key-resolver.ts:26-59 | In every reachable state resolving a unique value finds what a scan of the live contacts would |
| TenantRuns.ErasureIsPermanentExactly | services/core/src/modules/gdpr/gdpr.service.ts:201-238 | Once a forget request is processed nothing names the contact, and nothing that may still happen brings it back, if and only if no relational upsert and no request that had looked the contact up was between its two transactions |
| TenantRuns.RowOutlivesContact | services/core/src/modules/relational/relational.service.ts:122-152 | An upsert that finds a contact before its erasure and writes after it leaves a row of no contact |
| TenantRuns.StrayRowStays | services/core/src/modules/relational/relational.service.ts:144-152 | Such a row stays until its table is dropped, as no later erasure names the contact |
| SampleTenant.RowOutlivesContactHappens | services/core/src/modules/relational/relational.service.ts:122-152 | That run spelled out on a tenant of two contacts |
| Gdpr.RestartIsSafe | services/core/src/modules/gdpr/gdpr.service.ts:70-78 | A request cut short after its claim ends as if there had been no restart, and one that ended is not touched again |
| Gdpr.QueuedAfterForget | services/core/src/modules/gdpr/gdpr.service.ts:140-159 | Once a contact is forgotten a queued export of it fails, and a queued erasure is done without any change of data |
| Gdpr.ForgetUnlinks | services/core/src/modules/gdpr/gdpr.service.ts:221-224 | Erasure takes the contact and the export document off every request about it |
| Gdpr.NoDocumentLeft | services/core/src/modules/gdpr/gdpr.service.ts:221-237 | No request keeps an export document of the forgotten contact |
| Gdpr.ProcessKeepsConsistent | services/core/src/modules/gdpr/gdpr.service.ts:140-154 | Processing any request keeps all invariants |
| TenantServices.Lists.Change | services/core/src/modules/lists/lists.service.ts:213-241 | The loop over the contacts leaves the membership and events the specification gives, counts the changes and names the IDs that are no live contact |
| TenantServices.Lists.ByKeys | services/core/src/modules/lists/lists.service.ts:200-211 | An unknown list and an unusable key (2009) change nothing; else every resolved contact is changed and exactly the values that resolve to nobody come back as errors |
| TenantServices.Lists.Named | services/core/src/modules/lists/lists.service.ts:203-208 | The contacts the values name, each once, and the values that name nobody |
| TenantServices.Lists.Targets | services/core/src/modules/lists/lists.service.ts:218-225 | The live contacts among the IDs, each once, and the IDs that are none |
| TenantServices.Lists.Move | services/core/src/modules/lists/lists.service.ts:226-232 | Exactly the memberships that were missing are added, or those that were there removed |
| TenantServices.Lists.Tell | services/core/src/modules/lists/lists.service.ts:233 | One snapshot of each contact whose lists changed, in order |
| TenantServices.Lists.Remove | services/core/src/modules/lists/lists.service.ts:124-134 | Unknown lists are refused; a known one goes with its memberships and an event for each member |
| RelationalRows.Service.Upsert | services/core/src/modules/relational/relational.service.ts:113-157 | An unknown table (2017) or key (2009) fails the call; else each row is written or reported, and look-up and write, with no other transaction between them, are those of a run |
| RelationalRows.Service.Check | services/core/src/modules/relational/relational.service.ts:124-142 | A row fails if its contact is not found, for its first bad value, or as a repetition of a row already taken; the others are written, and both together are all rows |
| RelationalRows.ErrorsAre | services/core/src/modules/relational/relational.service.ts:126-142 | Exactly the rows with an error are reported, each once and in order |
| RelationalRows.RowErrorIs | services/core/src/modules/relational/relational.service.ts:124-142 | A row fails with 2008 if its contact is not found, with 2011 or 2010 for its first bad value, with 2014 if it repeats an earlier good row, and is written otherwise |
| TenantServices.Consents.Put | services/core/src/modules/consents/consents.service.ts:79-87 | An explicit consent is a one-item write by `id`; recorded as `ConsentRecords.PutIsRecorded` spells out; the outcome tells a missing contact from other errors |
| TenantServices.Fields.Remove | services/core/src/modules/fields/fields.service.ts:125-135 | Unknown and system fields are refused with no change; a custom field is marked and purged |
| TenantServices.Fields.Purge | services/core/src/modules/fields/fields.service.ts:138-146 | The field leaves every contact's data and the index, and nothing else changes |
| TenantServices.Requests.Request | services/core/src/modules/gdpr/gdpr.service.ts:88-95 | Refused for a contact without a row; else queued, and its two transactions, with no other between them, are the run that looks the contact up and then stores the request unseen |
| TenantServices.Requests.DeleteContact | services/core/src/modules/gdpr/gdpr.service.ts:218-220 | The contact's row goes, announced exactly if there was one |
| TenantServices.Requests.Anonymize | services/core/src/modules/gdpr/gdpr.service.ts:229-230 | The contact's consents lose their text and nothing else |
| TenantServices.Requests.Forget | services/core/src/modules/gdpr/gdpr.service.ts:206-232 | The deletes in turn leave the state of the erasure specification |
| TenantServices.Requests.Run | services/core/src/modules/gdpr/gdpr.service.ts:140-154 | One request: left alone unless open, else claimed and carried through |
| TenantServices.Requests.Idle | services/core/src/modules/gdpr/gdpr.service.ts:112-138 | The queue is worked off first come first served |
| TenantServices.QueueForgets | services/core/src/modules/gdpr/gdpr.service.ts:136-154 | Whatever else is queued, once a request to forget has had its turn nothing names the contact any more, at the end of the queue too, provided nobody else writes meanwhile |
| OutboxProtocol.RunsKeepInvariant | services/core/src/modules/contacts-write/outbox.ts:54-83 | In every run with any number of relays, crashes, lost acknowledgements and expired transactions: only committed events are published, each committed event is in the outbox or published, open transactions hold disjoint rows, and copies of one message are a window apart |
| OutboxProtocol.DeletedIsPublished | services/core/src/modules/contacts-write/outbox.ts:72-74 | A row leaves the outbox only once its event is in the stream |
| OutboxProtocol.OncePerWindow | deploy/nats/streams/CONTACTS.json:7 | In no stretch shorter than the duplicate window does the stream hold an event twice |
| OutboxProtocol.SettledForGood | services/core/src/modules/contacts-write/outbox.ts:66-79 | Once its row is gone and no relay still has it to send, an event is in the stream and is never published again |
| OutboxProtocol.StepKeepsApart | services/core/src/modules/contacts-write/outbox.ts:71 | `SKIP LOCKED` keeps the rows of open transactions disjoint |
| OutboxProtocol.PickedAre | services/core/src/modules/contacts-write/outbox.ts:70-71 | A drain takes all unlocked rows, or 500 with every other one above them |
| OutboxRelay.RetryIsInvisible | services/core/src/modules/contacts-write/outbox.ts:66-79 | A drain that failed after some sends and was done over leaves the stream of one clean drain exactly if every row already sent is resent within the duplicate window |
| OutboxRelay.KickIsHeard | services/core/src/modules/contacts-write/outbox.ts:45-63 | A kick is followed by a fresh drain before the loop is over exactly if no loop runs, or the running one has not left and its drain ends well |
| OutboxRelay.LoopTurns | services/core/src/modules/contacts-write/outbox.ts:54-63 | When a drain ends the loop goes on after a full batch of 500, once more if a kick came and the relay is not stopped, and out in any other case |
| OutboxRelay.Relay.Drain | services/core/src/modules/contacts-write/outbox.ts:66-79 | Up to 500 rows are sent in ID order and removed; if a send fails every row stays |
| OutboxRelay.Relay.DrainAll | services/core/src/modules/contacts-write/outbox.ts:58 | Draining until a batch is not full empties the outbox and publishes every event once, in ID order |
| Jobs.BoundedLife | services/importer/internal/jobs/store.go:171-250 | Along any versions of a row the columns stay sane and the status changes at most as often as the measure allows, 2 * max times for a new job |
| JobRuns.RunsChangeBounded | services/importer/internal/jobs/queue.go:83-179 | In every run, whatever workers, janitor and cancellations do, a job changes status at most 2 * max times, and once ended its row never changes |
| JobRuns.VersionsAreLife | services/importer/internal/jobs/store.go:80-250 | The versions of a row along a run are such a life |
| JobRuns.EndsForAReason | services/importer/internal/jobs/queue.go:135-179 | In every run a job that ends succeeded was finished as succeeded; one that ends failed was finished as failed, or recovered with its attempts used up; one that ends cancelled was cancelled |
| Jobs.RowStepIsSane | services/importer/internal/jobs/store.go:171-250 | Ended jobs never change; `finished_at` is set exactly in them; queued means attempts left, running at least one used; each status change lowers the measure |
| JobQueue.StepIsRowStep | services/importer/internal/jobs/store.go:80-250 | Every statement of the queue takes each row through one of the allowed changes |
| JobQueue.StepIsExact | services/importer/internal/jobs/store.go:80-250 | Each statement sets the columns it names, to the values given, in the rows it names, and nothing else: a claim starts the next attempt, a finish stores the given status, progress and error, a cancellation stops, recovery requeues or fails |
| JobQueue.StepKeepsExclusive | services/importer/internal/jobs/queue.go:118-179 | Every step of workers, janitor and users keeps leases exclusive, provided heartbeats are timely when orphans are recovered |
| JobRuns.RunsAreExclusive | services/importer/internal/jobs/queue.go:83-179 | With punctual heartbeats no interleaving gives a job two live workers or leaves one on a queued job |
| JobRuns.RecoverIsSafeExactly | services/importer/internal/jobs/store.go:236-250 | Recovery keeps leases exclusive exactly if no live worker's job is stale with attempts left |
| JobRuns.LateWorkerEndsNewerAttempt | services/importer/internal/jobs/store.go:199-208 | A concrete run: a worker that misses its heartbeats ends the attempt of the worker that took over, as `finish` checks the status only |
| JobRuns.WaitingIsBounded | services/importer/internal/jobs/store.go:171-187 | While a job stays queued, at most as many other claims happen as older unfinished jobs have attempts left, requeues and cancellations included |
| JobRuns.StepPaysDebt | services/importer/internal/jobs/store.go:176-180 | While a job waits no younger job is claimed, and each claim of another job uses up one of the attempts ahead of it |
| JobStore.Store.Claim | services/importer/internal/jobs/store.go:171-187 | The oldest queued row nobody has locked starts its next attempt; none is claimed exactly if there is none |
| JobStore.Store.SaveProgress | services/importer/internal/jobs/store.go:189-197 | Progress and heartbeat of a running row; any other is left alone |
| JobStore.Store.Finish | services/importer/internal/jobs/store.go:199-208 | A running row gets exactly the status, progress and error given and its end; a cancelled one stays cancelled, and every other row as it is |
| JobStore.Store.Cancel | services/importer/internal/jobs/store.go:210-227 | A queued or running job ends cancelled; missing and ended ones are told apart and nothing changes |
| JobStore.Store.RequeueOrphans | services/importer/internal/jobs/store.go:236-250 | Exactly the stale running rows go back to the queue or fail, and are counted |
| JobPaging.WalkListsOnce | services/importer/internal/jobs/store.go:112-142 | Following `next` lists no job twice and newest first, whatever jobs appear meanwhile, be it with an earlier time; when it ends it has listed every job there was at the start; and it ends before its full pages hold all the jobs it has seen |
| JobPaging.NewerJobsLeaveNoTrace | services/importer/internal/jobs/store.go:112-142 | If only newer jobs appear it lists the jobs of the start and no others |
| JobPaging.PageSplits | services/importer/internal/jobs/store.go:121-140 | A page and what is below its cursor make up everything the query saw |
| JobPaging.ListedExactly | services/importer/internal/jobs/store.go:121-122 | A listing holds exactly the rows, by time from the newest, and by ID from the highest at the same time |
| JobCursors.ListingListsOnce | services/importer/internal/jobs/store.go:112-159 | A client that sends back each `next` string it is given gets every job there was at its first call, once and newest first among all it is given, whatever jobs appear meanwhile; no such string is refused, and it comes to the end |
| JobCursors.NewerJobsUnlisted | services/importer/internal/jobs/store.go:112-159 | If only newer jobs appear it gets the jobs of its first call and no others |
| JobCursors.CursorRoundTrip | services/importer/internal/jobs/store.go:139-159 | An encoded cursor decodes to the job it was made from and is never empty |
| JobCursors.Base64RoundTrip | services/importer/internal/jobs/store.go:139-148 | Unpadded URL base64 decodes to what was encoded |
| JobCursors.EncodeIs | services/importer/internal/jobs/store.go:139 | Letter i of an encoded text is the i-th six bits of its bytes in the URL alphabet (RFC 4648, section 5), zeros filling up the last |
| ImportConservation.Conservation | services/importer/internal/imports/process.go:199-353 | At every point of every run the rows read are the rows written, failed, buffered, under way, given up or dropped, exactly if every reason core gave names a row of its batch |
| ImportConservation.CleanFinish | services/importer/internal/imports/process.go:226-289 | After a clean finish the batches are the accepted rows in order, each of 1 to BatchSize rows and full but for the last; the report holds exactly the failed rows, once each |
| ImportConservation.StraysAre | services/importer/internal/imports/process.go:346-351 | A batch counts out exactly if core's reasons name rows it has; no stray reason ever adds a row |
| ImportConservation.RunsKeep | services/importer/internal/imports/process.go:199-353 | Every interleaving of the reader and the sends keeps batches, report and counters in agreement with the input |
| ImportHandler.Handler.Process | services/importer/internal/imports/process.go:226-276 | The read loop is one of those runs, and ends cleanly exactly if it was neither cancelled nor aborted |
| ImportHandler.Handler.Take | services/importer/internal/imports/process.go:252-265 | A record fails for the first thing wrong with it or joins the batch, which a full one flushes |
| ImportRun.ProblemIs | services/importer/internal/imports/process.go:253-260 | A record is passed on exactly if it parsed, has as many columns as the header and text in its key column; else the first of these that fails is its reason |
| ImportHandler.Handler.Flush | services/importer/internal/imports/process.go:209-224 | The buffered rows are sent off, or dropped when the job is found cancelled |
| ImportHandler.Handler.Send | services/importer/internal/imports/process.go:312-353 | Only a batch core keeps refusing with 5xx or 429, or cannot be reached with, aborts the import; a refusal below 500 other than 429 fails its rows, an answer those it names |
| ImportHandler.Handler.Settle | services/importer/internal/imports/process.go:346-351 | The rows with a reason are reported one by one, the rest counted as written |
| ImportHandler.Handler.Step | services/importer/internal/imports/process.go:226-266 | One turn of the read loop is one read and the send of the batch it completed |
| ImportHandler.Handler.Last | services/importer/internal/imports/process.go:267-269 | At the end of the file the last batch goes out |
| ImportHandler.Handler.ReasonsOf | services/importer/internal/imports/process.go:334-345 | The reason of each index: the last one given, `errors` over `results` |
| ImportHandler.Handler.Post | services/importer/internal/imports/process.go:398-416 | Calls go on while they bring no answer and no status below 500 other than 429, the job lives and retries are left; each wait is twice the one before |
| ImportHandler.FirstFinalCounts | services/importer/internal/imports/process.go:398-416 | If some call within the retries is answered, or refused with a status below 500 other than 429, before the job is over, the calls end with the first such one and its reply is what counts |
| ImportHandler.NoFinalGivesUp | services/importer/internal/imports/process.go:398-416 | If none is, Retries + 1 calls are made and the batch is given up, a core that answers 503 for ever included |
| ImportHandler.WaitsDouble | services/importer/internal/imports/process.go:399-411 | The waits between the calls start with the configured one and double |
| ImportHandler.LandingIs | services/importer/internal/imports/process.go:323-352 | A refused batch fails in all its rows, for its status; an answered one in the rows the answer names; one given up is lost |
| ImportHandler.ReasonsAre | services/importer/internal/imports/process.go:334-345 | A row has a reason exactly if an entry names it; the last one in `errors` counts, and else the last in `results` |
| ImportIntoCore.EngineCountsOut | services/core/src/modules/contacts-write/contacts-write.service.ts:90-93 | The write engine's answer to an import batch always counts out, and fails exactly the rows whose items were not accepted |
| ImportIntoCore.RelationalCountsOut | services/core/src/modules/relational/relational.service.ts:124-155 | So does the answer of a relational upsert, which fails exactly the rows it reports |
| ImportIntoCore.ListCountsOut | services/core/src/modules/lists/lists.service.ts:200-211 | And that of a list call, which fails exactly the values that name nobody |
| TokenFamilies.RunsKeepSingle | services/core/src/modules/auth/auth.service.ts:155-182 | In every interleaving each family has at most one token that is live or about to be issued |
| TokenFamilies.IssuedCanBeUsed | services/core/src/modules/auth/auth.service.ts:259-275 | A token just issued is live, belongs to the family and user its request was for, and can be found exactly until 30 days after that request began |
| TokenFamilies.FoundIsRotated | services/core/src/modules/auth/auth.service.ts:160-172 | A live token found can be rotated and a new one issued for its family and user |
| TokenFamilies.DeadForGood | services/core/src/modules/auth/auth.service.ts:156-174 | A family without a live token or a pending issue can never be refreshed again |
| TokenFamilies.ReuseKills | services/core/src/modules/auth/auth.service.ts:161-169 | With no other request under way, presenting a spent token that has not expired kills its family |
| TokenFamilies.RevokeKillsExactly | services/core/src/modules/auth/auth.service.ts:303-305 | A revocation kills the family exactly if no request is between a rotation and its issue |
| TokenFamilies.RevokedFamilySurvives | services/core/src/modules/auth/auth.service.ts:162-172 | If one is, its token is issued after the revocation and is live |
| AuthService.Service.Refresh | services/core/src/modules/auth/auth.service.ts:156-174 | Unknown and expired tokens change nothing, a spent one ends its family for good, a live one is spent and, if the user is active, answered by a new one, which is live and usable exactly until 30 days later; one live token per family stays one |
| AuthService.Service.Login | services/core/src/modules/auth/auth.service.ts:119 | A login starts a family of its own, whose token is live, of the user, and usable exactly until 30 days later |
| AuthService.Service.Logout | services/core/src/modules/auth/auth.service.ts:176-182 | The caller's family ends; another's is left alone |
| AuthService.Service.RevokeFamily | services/core/src/modules/auth/auth.service.ts:303-305 | Every token of the family that is not revoked yet is |
| Redelivery.BackoffDelay | libs/go/oe/natsx/consume.go:55-66 | The doubling loop gives min(base * 2^(attempt-1), max) and stays within 64 bits for a cap up to 2^62 |
| Redelivery.DelayIsMonotone | libs/go/oe/natsx/consume.go:55-66 | Later attempts never wait less, and none more than the cap |
| Redelivery.DelayDoubles | libs/go/oe/natsx/consume.go:57-65 | The first wait is the base, each later one twice the one before, up to the cap |
| Redelivery.Consumer.Finish | libs/go/oe/natsx/consume.go:106-127 | Ack, delayed Nak, Nak without metadata, or dead letter and Term at the last delivery; a failed dead-letter publish resolves nothing |
| Redelivery.ToldIs | libs/go/oe/natsx/consume.go:109-127 | The resolution of each case: acknowledged, sent back at once without metadata, sent back after the wait, or at the last delivery terminated exactly if its dead letter was taken |
| Redelivery.LettersHave | libs/go/oe/natsx/consume.go:119-124 | A batch puts a message on the dead-letter subject exactly if a decoded copy failed its last delivery there and the publish succeeded |
| Redelivery.Consumer.ConsumeOne | libs/go/oe/natsx/consume.go:185-212 | A batch: malformed messages are terminated; if the fetch ended well the others are resolved by the one outcome of the handler, each lost dead letter apart; if it failed they are left alone and the loop ends |
| Redelivery.ResolvedExactly | libs/go/oe/natsx/consume.go:191-212 | A batch resolves a message at most as often as it was delivered, and exactly that often if and only if none of its decoded copies is left alone by a failed fetch or by a dead letter that could not be published |
| Redelivery.DeadExactly | libs/go/oe/natsx/consume.go:106-127 | A message is acknowledged exactly if some delivery is taken; if none is, it ends with the last one, dead-lettered exactly if that one failed and its letter was published, and else lost |
| Redelivery.FailedFetchLoses | libs/go/oe/natsx/consume.go:191-203 | A fetch that fails after the last delivery of a message: nothing is heard of it, and it is lost without a dead letter |
| Sniff.Sniff | services/importer/internal/imports/csvfmt.go:27-61 | The answer is UTF-8 exactly if the sample is valid, for a truncated one up to four bytes off its end; the delimiter is the first candidate seen most on the first line outside quotes |
| Sniff.Shorten | services/importer/internal/imports/csvfmt.go:31-34 | Dropping bytes finds a valid prefix exactly if there is one within four bytes of the end |
| Sniff.Counts | services/importer/internal/imports/csvfmt.go:39-52 | The counts are those of the first line outside quotes |
| Sniff.CutFileIsUtf8 | services/importer/internal/imports/csvfmt.go:27-38 | The start of a well-formed file is taken for UTF-8 wherever it is cut, byte order mark or not |
| Sniff.WholeFileExactly | services/importer/internal/imports/csvfmt.go:30-38 | An uncut sample is taken for UTF-8 exactly if it is well-formed |
| Sniff.MisledExactly | services/importer/internal/imports/csvfmt.go:27-38 | A cut sample is taken for UTF-8 although no well-formed file starts with it if and only if what does not decode at its end is at most four bytes long and no part of a character |
| Sniff.StartsFileExactly | services/importer/internal/imports/csvfmt.go:27-34 | Well-formed files start exactly with the samples that decode up to a part of a character, of three bytes at most |
| Sniff.ShortTailExactly | services/importer/internal/imports/csvfmt.go:31-38 | The answer for a cut sample is UTF-8 exactly if at most four bytes at its end do not decode |
| Sniff.FourthDropGainsNothing | services/importer/internal/imports/csvfmt.go:32 | Dropping a fourth byte serves no well-formed file: samples it lets through start none |
| Sniff.StrayBytesMislead | services/importer/internal/imports/csvfmt.go:32 | One to four stray bytes after any text are such wrong answers |
| Sniff.QuotedIsIgnored | services/importer/internal/imports/csvfmt.go:39-52 | A quoted field, line breaks included, adds nothing to any count |
| Sniff.FirstLineDecides | services/importer/internal/imports/csvfmt.go:43-51 | What stands behind the first line break outside quotes adds nothing; of that line counts exactly what stands outside quotes |
| Sniff.DelimiterIs | services/importer/internal/imports/csvfmt.go:53-59 | The delimiter is a comma, semicolon, tab or bar; none is seen more often, and no earlier one as often |
| Utf8.ValidExactly | services/importer/internal/imports/csvfmt.go:36 | The left-to-right check accepts exactly the sequences of section 4 of RFC 3629 |
| Utf8.CharsAreScalars | services/importer/internal/imports/csvfmt.go:36 | The characters accepted are exactly the code points of Unicode but the surrogates, in their shortest form |
| Utf8.StartsTextExactly | services/importer/internal/imports/csvfmt.go:32-34 | A sequence begins some well-formed text exactly if what does not decode of it is a part of a character |
| Utf8.DecodedIsLongest | services/importer/internal/imports/csvfmt.go:32-36 | What decodes is the longest well-formed prefix |
| Utf8.PartialExactly | services/importer/internal/imports/csvfmt.go:32-34 | The byte ranges of the first one to three bytes are exactly the proper prefixes of a character |

## Left out

- BatchTheorems.ValidationIsComplete: for canonical keys, and plain values of fields 3 and 4; without them it is false (`StableKeys.SentTwice`), and for a contact's own key the condition is exact (`StableKeys.OwnKeyAgain`)
- BatchRefinement.BatchIsOneByOne: the order of consent entries and events of different contacts in the shared tables is not compared, as the two ways differ in it
- BatchReplay.ReplayExactly: for upsert and update under the same conditions as complete validation; `create` sent again fails by design
- PartialReplay.PartialReplayExactly: for upsert and update under the same conditions; the items refused the first time are not followed
- JobCursors.ListingListsOnce: the formats of times and UUIDs are parameters that read back what they write; Go's decoder also skips line breaks, which no cursor of the list has; and jobs dated more than a day ahead of the first call's clock are not listed
- JobRuns.WaitingIsBounded: the waiting job's row is not locked by a transaction that rolls back, and new jobs are enqueued at a later time stamp
- ImportHandler.Handler.Process: sends one batch at a time; the interleavings of concurrent sends are covered by the step relation of `ImportRun`
- OutboxRelay.Relay.DrainAll: a lone relay whose sends succeed; failures and other relays are in `OutboxProtocol`
- Error texts, labels and API names; only codes and the failing field are kept
- The read-only fields 40 and 41 and all other time stamps of contacts, lists and consents; consent order is commit order
- Case folding beyond ASCII, and NUL characters and lone surrogates, which PostgreSQL refuses
- Numbers are exact decimals: rounding to doubles, overflow to infinity and underflow to zero are not modelled
- HTTP, authentication of callers, tenants other than one, row-level security, cryptography, telemetry
- The registry's cache: definitions are read from the table, so a stale cache of another process is not modelled, except that a transaction may run with any definitions (`CommitInvariant.CommitKeepsConsistent`)
- Details of READ COMMITTED inside one transaction; a transaction is one step
- Field updates, choice IDs and renaming, whose properties are read off one branch
- Storage failures of access exports and the document's content; only the status transitions are modelled
- Physical order of rows without ORDER BY; order among events of one transaction beyond what the code fixes
- The stream's retention and consumers of the stream, except for `Redelivery`
- Import: header resolution, the per-tenant limiter, the request body, the CSV reader and percentages; reading starts from a sequence of records
- Job kinds, parameters and result links, and the Reporter's carry-over from an earlier attempt; counters are those of one run
- Password checks, lockout, MFA and access tokens; a login is taken up where a checked user gets a family
- Redelivery: a resolution that does not reach the server, or a crash before it, counts as a delivery left alone
- Access requests are worked off by one process; with several, an export could write its document after another process has erased the contact
- Relational tables: definitions, columns and the data of rows; only which rows there are, by table, contact and row key
