# Ghostr: a verified model

Ghostr keeps a journal as a chain of sealed days. Each day commits to its memories, to
the quests it issued and to the verdicts it took; the days are linked; the tip is
anchored with OpenTimestamps; and `verify` recomputes the links and re-derives each day's
root: quests, verdicts and metadata from the tables, memories from the leaf rows the seal
stored. This project models that pipeline, and the cores around it, and proves what they
promise.

* **Commitment pipeline.** Canonical CBOR (`Cbor`, `Canonical`), tagged hashing
  (`Hashing`), leaves (`Leaves`), the Merkle tree and its proofs (`Merkle`), calendar
  dates in preimages (`Calendar`), the chain (`Chain`), and the vault as tables with the
  seal and the verifier over them (`Vault`). Their laws are in `CanonicalLaws`,
  `MerkleLaws`, `MerkleProofs`, `MerkleFrontier`, `VaultLaws`, `VaultRuns`, `VaultExact`,
  `VaultBinding`, `VaultContent`, `VaultForgery` and `VaultMemories`. What each
  operation writes is in `VaultWrites`, what a seal takes and when it succeeds in
  `VaultTakes` and `VaultSeals`, what `verify` reports in `VaultReport`. The bytes that are
  hashed are in `CborBytes`, `CborFloats`, `LeafBytes`, `WireBytes` and
  `CalendarLaws`.
* **The engine.** `Engine` is the store as a class with the loops of the seal, the
  backfill and the verifier. `SealDue`, `SealDueRuns` and `SealDueOnce` have the day
  windows, the walk back, runs of the sealer, and which memories those runs seal twice;
  `SealDueEach` that they miss none.
* **OpenTimestamps.** `Ots` has the tree, its stream and the upgrade; `OtsTree` the tree
  rewritten in place; `OtsLaws` what is kept; `OtsPasses` what upgrading again and again
  does; `OtsAnswers` what is taken and reported; `Anchors` and `AnchorLaws` the pass over
  anchor rows.
* **NIP-44** (`Nip44`, `Nip44Laws`), **NIP-19** TLV (`Nip19`, `Nip19Laws`) and
  **base64** (`Base64`); their bytes in `TextForms`.
* **The keystore** (`Keystore`, `KeystoreLaws`, `KeystoreKeys`) over a volume that can
  crash (`Disk`).

`dafny verify dfyconfig.toml` checks everything.

## How the model is set up

**Hashing.** The hash is a parameter and nothing is assumed of it. A digest is a number
below 2^256. A binding theorem concludes that the claim holds or that two distinct
preimages collide *within an explicit finite set*: the preimages those very computations
hash. Over all byte strings a collision always exists, and such a statement would say
nothing.

**Methods and specifications.** Loops and updates are methods, proved equal to functions;
the laws are about the functions.

**Store.** Tables are sequences in primary-key order. A stamp column is an option. The
composition of the day's prose, on which no leaf depends, is a flag of the seal; the
intake's commitment check is a flag of the answer.

**CBOR.** A float is the 64 bits of a double, written at the shortest width that gives
them back; the two big-integer tags are read as the CBOR library reads them, as integers
when they fit one. Both matter only under tags, which `canonicalize` does not look into.

**Primitives.** HKDF, HMAC and ChaCha20's keystream are parameters. Argon2 and the AEAD
are terms: a key is what it was derived from, a ciphertext what was sealed. An
OpenTimestamps operation is an uninterpreted step on byte strings. Curve membership is a
predicate.

**Crashes.** A volume remembers every name table since the directory was last synced; a
crash falls back to any one of them and turns unsynced contents into anything.

## What a tip does not bind

**The count.** The number of leaves a day was sealed over is a column of the store.
Neither the root nor the link commits to it, and `verify` takes it as given. A day's root
fixes its leaves for a given count only. If the count and the rows of a day are rewritten
together, a quest or an answer that was sealed can be hidden, and a stored leaf row can
become an inner node of the sealed tree: `VaultForgery` has the store, and `verify` finds
it clean. `VaultContent.HistorySurvives` says what stands all the same: no quest, no
answer and none of their committed fields can be added or changed, the number of leaf rows
is fixed by the metadata leaf, and a day whose count is the sealed one hides nothing and
has the leaf rows that were sealed. The commitment version of a day is such a column too;
a day read under another version is covered by the same theorem.

**The memories.** `verify` never reads the memory table. Whatever is put there, its report
is the same (`VaultMemories.VerifyIgnoresMemories`), and so a memory whose text is
rewritten after sealing passes (`VaultMemories.AlteredMemoryPasses`). What a caller can do
is hash the memory again and look for its leaf among the day's stored rows. In a store
that is clean under the sealed tip, a leaf that is found means that a memory with this
salt, id, text and time was sealed that day, whatever the counts say; where the day's
count is the sealed one, a leaf that is not found means that none was
(`VaultMemories.MemoryCheckExact`). Where the counts differ, a leaf that is missing proves
nothing: the row may be one that was replaced.

## Where code and documentation differ

* `crates/ghostr-memoria/src/cutoff.rs:62-67` says the earliest candidate is taken on a
  date whose closing minute a clock change skips. The code takes the epoch there. The
  consequences are exact: `SealDue.WindowsDisjointExact`, `SealDue.NoHolesExact`,
  `SealDueRuns.MissingMinuteStrands`, and a memory sealed into two days
  (`SealDueOnce.SealedOnceExact`).
* `crates/ghostr-engine/src/ops.rs:1024-1026` says that matching each stored root against
  the leaves still held catches a memory altered after sealing. The leaves held are the
  rows stored at the seal, not the memory hashed again, and nothing is caught
  (`VaultMemories.AlteredMemoryPasses`). `VaultMemories.MemoryCheckExact` is the check
  that would.
* `crates/ghostr-anchor/src/ots.rs:329-331` says no file comes back when no calendar had
  anything new. A graft keeps the pending leaf, so a calendar that gives the answer it
  gave before is merged once more: every pass writes a file again, longer by the same
  attestations (`OtsPasses.RepeatedPasses`, `OtsPasses.CopiesExact`).
* `crates/ghostr-core/src/hash.rs:236-241` rests unambiguous concatenation on fixed-width
  fields. Dates outside the years 0 to 9999 and zone names are not fixed-width; the
  concatenations are unambiguous all the same (`Calendar.DateZoneInjective`).
* `crates/ghostr-core/src/merkle.rs:170-173` says the leaf count pins a path's shape; the
  comment at lines 209-213 says it does not. It does not
  (`MerkleProofs.LeafCountIsOnlyABound`).
* `crates/ghostr-engine/src/ops.rs:748-749` says that everything older than a waiting date
  is past its grace. With a grace longer than a day it need not be. What the walk relies
  on is that nothing newer than a waiting date is due, and that holds at every instant
  exactly when cutoffs ascend (`SealDue.NoHolesExact`). `SealDue.OlderWaitsToo` has the
  older date that waits.
* The encoders of `crates/ghostr-crypto/src/nip19.rs:94-101` and `162-171` check neither
  that relays are ASCII nor that keys are on the curve, and the decoders do
  (`Nip19Laws.NprofileRoundTrip`, `Nip19Laws.NaddrRoundTrip`).

## Model

| member | source | states |
|---|---|---|
| VaultRuns.EveryRunVerifies | crates/ghostr-engine/src/ops.rs:1031-1147 | From a fresh vault, after any interleaving of storing, shredding, issuing, answering, expiring, anchoring and sealing under either commitment version, `verify` on the sealing device reports an intact chain, every root matching, nothing unchecked, and as many days as the tip's number |
| VaultBinding.TipBindsHistory | crates/ghostr-engine/src/ops.rs:1031-1147 | Two stores `verify` finds clean, under any genesis links, with one tip link and unsaturated counts: one genesis, one list of records, and a day has the same leaves in both (memory leaves as the rows stored) if and only if both record the same leaf count for it; or a collision is exhibited among the preimages those checks hash |
| VaultContent.HistorySurvives | crates/ghostr-engine/src/ops.rs:1031-1147 | Against the vault a device sealed, whatever a clean store with its tip link records as counts: every day is a frontier of what was sealed with as many stored leaf rows, every quest and answer it derives was sealed that day field by field and salt by salt, and its count is the sealed one if and only if it hides none; or a collision is exhibited |
| VaultForgery.ForgedStoreIsClean | crates/ghostr-engine/src/ops.rs:1074-1137 | The failing input when counts differ: a rewritten store that verifies clean with the sealed tip link and chain records, and holds no quest where one was sealed |
| VaultForgery.SealedStoreIsReached | crates/ghostr-engine/src/ops.rs:102-271 | The other store of that input is what storing one memory, issuing one quest and sealing the day gives |
| VaultForgery.ForgeryNeedsNoCollision | crates/ghostr-engine/src/ops.rs:1074-1137 | There is a hash for which that input exists and nothing hashed collides |
| VaultMemories.AlteredMemoryPasses | crates/ghostr-engine/src/ops.rs:1024-1026 | The promise fails: one memory is stored and sealed, its text is rewritten in the table, and the report is clean under the same tip although the memory now has another leaf |
| VaultMemories.VerifyIgnoresMemories | crates/ghostr-engine/src/ops.rs:1074-1121 | On every store, chain and role the report is the same for any content of the memory table |
| VaultMemories.MemoryCheckExact | crates/ghostr-engine/src/ops.rs:1018-1030 | The check that does catch it. In any clean store with the tip link of the vault a device sealed, a memory whose leaf is among a day's stored rows was sealed that day with this salt, id, text and time, and where the day's count is the sealed one the leaf is there if and only if it was; or a collision is exhibited |
| VaultMemories.StoredLeafWasSealed | crates/ghostr-engine/src/ops.rs:1074-1137 | One day, whatever count it records: a memory whose leaf is stored is one of those sealed; or a collision among the preimages of the two leaf sets and that memory |
| VaultExact.RootCheckExact | crates/ghostr-engine/src/ops.rs:1074-1137 | Given an intact chain, days with the roots and counts of the sealed leaf lists, and a re-derivation that succeeds, over any content of the other tables: `roots_ok` if and only if every day's digests are the set that was sealed, and otherwise `first_bad_seq` is the earliest day that differs; or a node collision |
| VaultExact.CountIsTheCondition | crates/ghostr-engine/src/ops.rs:1093-1121 | On an intact chain the root check is exact for every content of the other tables if and only if every recorded count is the number of leaves sealed |
| VaultContent.DayCheckExact | crates/ghostr-engine/src/ops.rs:1093-1137 | Without any premise on the count: a day checks good exactly when its digests are a frontier of the sealed tree and as many as the count says; or a collision |
| VaultExact.EditedCountIsBad | crates/ghostr-engine/src/ops.rs:1093-1121 | One failing input when the count is edited: an untouched day is reported bad |
| VaultForgery.ForgedStorePassesRoots | crates/ghostr-engine/src/ops.rs:1074-1137 | The other: a store that does not hold what was sealed and whose roots are reported good |
| VaultExact.BrokenChainReported | crates/ghostr-engine/src/ops.rs:1050-1070 | On a broken chain the report names the first bad record, and nothing else was looked at: no root, no anchor |
| VaultBinding.ReplicaRaisesNoAlarm | crates/ghostr-engine/src/ops.rs:998-1010 | A replica restored from untouched footage, holding no leaf rows and of each day none or all of the quests, never reports a bad day; a day it does check it checks over the sealed leaves |
| VaultBinding.StampsAreNeeded | crates/ghostr-engine/src/ops.rs:258-266 | If the stamps after a seal are never written, the day checks good exactly when nothing was waiting to be committed; seal and stamp have to be one step |
| VaultRuns.StepKeeps | crates/ghostr-engine/src/ops.rs:1865-1913 | One operation of any kind keeps the invariant and leaves every sealed day's re-derived leaves as they were: answering or expiring a quest after its day sealed changes nothing there |
| VaultRuns.RunKeeps | crates/ghostr-engine/src/ops.rs:208-270 | The same over any run: sealed footage and its leaves never move |
| VaultRuns.SealedDayRederives | crates/ghostr-engine/src/ops.rs:313-376 | What the seal selects as not yet committed is, leaf for leaf, what the verifier finds under the new stamp, and the day checks good |
| VaultLaws.StampedActivity | crates/ghostr-store/src/sqlite.rs:3394-3491 | Stamping takes exactly the waiting quests and answered verdicts, gives the new number their leaves, and moves no earlier day's |
| VaultExact.CommittedOnce | crates/ghostr-engine/src/ops.rs:208-266 | In every reachable state a quest is committed by at most one sealed day and its verdict by at most one, and those days exist |
| VaultExact.CommitmentStands | crates/ghostr-store/src/sqlite.rs:3456-3491 | Between any two points of a run a stamp that was filled has not moved and the quest as issued has not changed |
| VaultExact.SealCommitsAll | crates/ghostr-engine/src/ops.rs:208-213 | A seal leaves no issued quest and no answered verdict waiting |
| VaultTakes.SealTakesTheDay | crates/ghostr-store/src/sqlite.rs:636-681 | The day a seal appends is over the metadata leaf that names the number of memories, one row and leaf for every live memory whose occurrence time, or intake time where it has none, falls in the window, in table order and no others, and then the activity; root, count, number, date and zone are stated outright |
| VaultTakes.WindowMembers | crates/ghostr-store/src/sqlite.rs:646-656 | A memory is selected exactly when its row is live and its time is in the half-open window |
| VaultTakes.ShreddedNeverSealed | crates/ghostr-store/src/sqlite.rs:806-822 | Over every run: a memory that is shredded leaves the rows of sealed days as they were, and no day sealed later has a row with its id |
| VaultSeals.SealAnswers | crates/ghostr-engine/src/ops.rs:102-271 | What a seal answers at any point of any run: a sealed date is named with its number, then the draft, then the numbers decide, and otherwise it succeeds, unless two leaf preimages of that very day collide; a missing verdict or a duplicate leaf never stops it |
| VaultWrites.AnswerExact | crates/ghostr-engine/src/ops.rs:1865-1913 | An answer is taken exactly when the commitment holds and the quest is open, unanswered and not past its expiry. Then one row holds the verdict given, the status and the instant and is otherwise as it was, no other row moves, and words that are not blank become one memory of that instant; refused, nothing changes |
| VaultWrites.AnswerRefusals | crates/ghostr-quests/src/verdict.rs:128-150 | Which refusal an answer meets, reason by reason |
| VaultWrites.AnswerIsSealed | crates/ghostr-engine/src/ops.rs:401-420 | Over every run: an answer that was taken is in the leaves of the next day sealed under quests, with the verdict and the instant given, and `verify` derives it there ever after |
| VaultWrites.IssueIsSealed | crates/ghostr-engine/src/ops.rs:385-399 | The same for a quest that was issued, as issued, answered meanwhile or not |
| VaultWrites.AnswerableOrExpired | crates/ghostr-store/src/sqlite.rs:3537-3551 | At every instant an open, unanswered quest can be answered or is closed by the sweep, and never both |
| VaultWrites.InsertExact | crates/ghostr-store/src/sqlite.rs:543-592 | A memory is taken in exactly when its id is new, a shredded one's included; one live row is added and ids still ascend |
| VaultReport.VerifiedExact | crates/ghostr-engine/src/ops.rs:1031-1147 | The whole report on an intact chain, on every role and store: it goes as far as the first day that gives an alarm or cannot be derived; `roots_unchecked` is the number of days before it whose recorded count is not the number of leaves the store holds, and `anchored` and `pending` count only the other days |
| VaultReport.AlarmAt | crates/ghostr-engine/src/ops.rs:1074-1137 | Every store and role has such a first day, or a report that reaches the end |
| VaultReport.RestoredReport | crates/ghostr-engine/src/ops.rs:1093-1106 | On a replica restored from an untouched history: the days counted unchecked are exactly those it holds less of, every day sealed over a memory among them |
| Engine.Store.Memoria | crates/ghostr-engine/src/ops.rs:102-271 | The seal on the tables: the new tables are those of the abstract seal over the day's window, or the same refusal and nothing changed; what that day is over is `VaultTakes.SealTakesTheDay`, and when it is refused `VaultSeals.SealAnswers` |
| Engine.Store.DayRoot | crates/ghostr-engine/src/ops.rs:313-360 | The root, the leaf rows and the saturated count are those of the day's leaf collection, or the first refusal met |
| Engine.Store.Activity | crates/ghostr-engine/src/ops.rs:367-420 | The quest and verdict leaves under one stamp; a row answered without a verdict refuses |
| Engine.Store.SealFootage | crates/ghostr-store/src/sqlite.rs:832-858 | The fork guard: appends only the tip's successor on an unsealed date; otherwise a duplicate or a gap is named and nothing changes |
| Engine.Store.MarkCommittedRows | crates/ghostr-store/src/sqlite.rs:3465-3491 | The per-id updates fill exactly the empty stamps of the ids given |
| Engine.Store.Answer | crates/ghostr-engine/src/ops.rs:1865-1913 | One-shot answering in the intake's order of refusals, an answered row refused before anything but its commitment; a correction that cannot be stored leaves the answer in place; what is recorded is `VaultWrites.AnswerExact` |
| Engine.Store.Expire | crates/ghostr-store/src/sqlite.rs:3537-3551 | Closes exactly the open quests past their expiry |
| Engine.Store.StoreMemory | crates/ghostr-store/src/sqlite.rs:543-592 | Inserts in key order, or refuses an id that exists and changes nothing |
| Engine.Store.Shred | crates/ghostr-store/src/sqlite.rs:806-822 | Empties the row of one memory and keeps it; an unknown id is reported |
| Engine.Store.Verify | crates/ghostr-engine/src/ops.rs:1031-1147 | The two-part check, stopping at the first broken record or first bad day, agrees with its specification on every store and role; what that reports is `VaultReport.VerifiedExact` |
| Engine.Store.VerifyDay | crates/ghostr-engine/src/ops.rs:1074-1137 | One day: counted first, then re-derived in the verifier's own order; unchecked only on a replica without leaves |
| Engine.Store.SealDue | crates/ghostr-engine/src/ops.rs:706-773 | The walk back and the seals forward agree with their specification, report and tables both, a refusal part way included |
| Engine.Store.CollectDue | crates/ghostr-engine/src/ops.rs:722-760 | Pushing newest first and reversing yields the walk's dates oldest first, and the oldest date still waiting |
| SealDue.SealDueExact | crates/ghostr-engine/src/ops.rs:706-773 | When every seal succeeds: the sealed dates are exactly the due dates the walk reached, ascending, unsealed before, none before the vault existed, none still in its grace, at most `max_backfill_days`; and the date reported as waiting is the oldest one not yet due |
| SealDue.WalkExact | crates/ghostr-engine/src/ops.rs:729-760 | The walk collects exactly the due dates within its reach, in order |
| SealDue.WaitingExact | crates/ghostr-engine/src/ops.rs:746-753 | The date reported as waiting is the oldest one still inside its grace |
| SealDue.PendingIsABlock | crates/ghostr-engine/src/ops.rs:722-760 | The dates collected are one contiguous block starting at the end of the walk, when cutoffs ascend over the dates looked at |
| SealDue.NoHolesExact | crates/ghostr-engine/src/ops.rs:746-753 | At every instant the due dates of a stretch are its oldest ones, if and only if no date's cutoff precedes an older date's |
| SealDue.OlderWaitsToo | crates/ghostr-engine/src/ops.rs:746-753 | At the instant a date closes, the date before is still waiting too exactly when the grace is longer than the day between their cutoffs |
| SealDue.SecondRunSealsNothing | crates/ghostr-engine/src/ops.rs:706-773 | A second run at the same instant seals nothing and changes nothing |
| SealDueRuns.DatesAscendWithSeq | crates/ghostr-engine/src/ops.rs:758-768 | With a clock that never goes back and no other sealing, between any other operations and whatever refusals, later numbers are later dates and the history verifies |
| SealDueRuns.LeftBehindForGood | crates/ghostr-engine/src/ops.rs:728-731 | An unsealed date behind a sealed one is unsealed at every later point of every run of the sealer among other operations |
| SealDueRuns.MissingMinuteStrands | crates/ghostr-memoria/src/cutoff.rs:62-83 | Where yesterday's closing minute does not exist, yesterday is sealed at once and the day before, still in its grace, is left behind |
| SealDue.WindowsDisjointExact | crates/ghostr-memoria/src/cutoff.rs:62-83 | No instant belongs to two days of a stretch if and only if every closing minute in it exists |
| SealDue.NoInstantDropped | crates/ghostr-memoria/src/cutoff.rs:48-60 | Every instant between two cutoffs falls in some window between them, whatever the zone does |
| SealDueOnce.SealedOnceExact | crates/ghostr-engine/src/ops.rs:706-773 | Over a stretch of dates, no run of the sealer among other operations seals a memory into two days, if and only if every closing minute of the stretch exists |
| SealDueOnce.MissingMinuteSealsTwice | crates/ghostr-memoria/src/cutoff.rs:62-83 | Where one is missing, a run that puts the memory at the close of the date before the stretch into two days |
| SealDueOnce.SealedOnce | crates/ghostr-engine/src/ops.rs:706-773 | Every orderly run whose sealed dates lie in a stretch of disjoint windows, whatever is shredded, issued, answered or refused between, seals each memory at most once |
| SealDueOnce.SealedTwice | crates/ghostr-memoria/src/cutoff.rs:48-60 | A memory in the windows of two dates is stored once and sealed into both days, when the sealer runs once after each |
| SealDueOnce.EventsFit | crates/ghostr-engine/src/ops.rs:102-160 | Through every orderly run, each sealed day's stored leaves are those of the memories its seal took, and all of these fall in the window of its date |
| SealDueEach.SealedAtLeastOnce | crates/ghostr-memoria/src/cutoff.rs:48-60 | Over every run of the sealer among other operations: a memory live before a stretch is sealed, never shredded after, and in time for it has its leaf in a day of the stretch once all of it is sealed |
| SealDueEach.SealedExactlyOnce | crates/ghostr-memoria/src/cutoff.rs:48-60 | And in exactly one, where every closing minute of the stretch exists |
| SealDue.DueExact | crates/ghostr-engine/src/ops.rs:741-753 | A date is due exactly from that many hours after its closing minute, or after the epoch where there is none |
| Chain.TipFreezesThePast | crates/ghostr-anchor/src/chain.rs:183-220 | Two non-empty runs the verifier accepts, from any two genesis links, with one last link have one genesis and identical records throughout, or two link preimages collide |
| Chain.VerdictExact | crates/ghostr-anchor/src/chain.rs:190-220 | `verify_run` accepts exactly the intact runs; otherwise everything before the reported record is intact, a gap carries that prefix's length and the offending number, and a break is reported only where the number was right |
| Chain.VerifyRun | crates/ghostr-anchor/src/chain.rs:190-220 | The loop over expected parent and number returns the verdict the recursive reading of the rule gives |
| Chain.LinkPreimageInjective | crates/ghostr-anchor/src/chain.rs:131-142 | The unframed link concatenation parses back to its five fields, in every year and for every zone |
| Chain.MetaPreimageInjective | crates/ghostr-anchor/src/chain.rs:100-114 | The unframed metadata leaf parses back to its four fields |
| Chain.GenesisPreimageInjective | crates/ghostr-anchor/src/chain.rs:45-55 | The genesis preimage binds identity, creation instant and chain id |
| Calendar.DateZoneInjective | crates/ghostr-anchor/src/chain.rs:131-142 | A rendered date followed by a zone name comes apart in one way, although neither has a fixed width |
| CalendarLaws.CivilExact | crates/ghostr-anchor/src/chain.rs:131-142 | A civil date and the number of days since 1970-01-01 determine each other, by the closed Gregorian formula |
| CalendarLaws.RenderBytes | crates/ghostr-anchor/src/chain.rs:131-142 | A date of the years 0 to 9999 is written as ten bytes, digit by digit |
| CalendarLaws.RenderSigns | crates/ghostr-anchor/src/chain.rs:131-142 | Years before 0 and after 9999 are written with a sign |
| CalendarLaws.LeapDayBytes | crates/ghostr-anchor/src/chain.rs:131-142 | 2024-02-29 in numerals |
| WireBytes.LinkBytes | crates/ghostr-anchor/src/chain.rs:131-142 | The link message by offsets: previous link, root, number in eight bytes, date, zone |
| WireBytes.MetaBytes | crates/ghostr-anchor/src/chain.rs:100-114 | The metadata leaf by offsets: 32 zero bytes, number, date, zone, count in the last four |
| WireBytes.GenesisBytes | crates/ghostr-anchor/src/chain.rs:45-55 | The genesis message by offsets, the instant in two's complement |
| Leaves.MemoryLeafBinds | crates/ghostr-engine/src/ops.rs:543-552 | Two memory leaf preimages are equal if and only if salt, id, text and occurrence time are |
| Leaves.QuestLeafBinds | crates/ghostr-engine/src/ops.rs:423-439 | Two quest leaf preimages are equal if and only if the quests as issued and their leaf salts are |
| Leaves.VerdictLeafBinds | crates/ghostr-engine/src/ops.rs:401-420 | Two verdict leaf preimages are equal if and only if salt, quest, kind of answer, severity and answer time are |
| Leaves.HexExact | crates/ghostr-core/src/hash.rs:53-84 | Hex reads back, and exactly one string of 64 lowercase digits reads as each digest |
| LeafBytes.MemoryBytes | crates/ghostr-engine/src/ops.rs:543-552 | The memory leaf byte by byte: salt, a map of three, each name and value in the order of the encoded names |
| LeafBytes.QuestBytes | crates/ghostr-engine/src/ops.rs:471-484 | The same of the quest leaf and its eleven fields |
| LeafBytes.VerdictBytes | crates/ghostr-engine/src/ops.rs:492-498 | The same of the verdict leaf and its four |
| LeafBytes.MemoryLiteral | crates/ghostr-engine/src/ops.rs:543-552 | One memory leaf written out in numerals |
| LeafBytes.AnswerNames | crates/ghostr-engine/src/ops.rs:519-534 | The name each kind of answer is committed under |
| LeafBytes.SeverityNames | crates/ghostr-engine/src/ops.rs:442-452 | The name of a correction's severity, and null for any other answer |
| LeafBytes.KindNames | crates/ghostr-engine/src/ops.rs:423-439 | The name each kind of quest is committed under |
| LeafBytes.FacetNamesWritten | crates/ghostr-engine/src/ops.rs:423-439 | The name each facet is committed under |
| Hashing.TaggedHashParts | crates/ghostr-core/src/hash.rs:242-256 | Feeding parts one by one hashes their concatenation, whatever the split |
| Hashing.TagStringsDistinct | crates/ghostr-core/src/hash.rs:207-222 | The eleven wire strings are pairwise distinct |
| WireBytes.TagsAreVersioned | crates/ghostr-core/src/hash.rs:207-222 | Every wire string begins with the ten bytes of this project's name and version |
| Hashing.TaggedCollisionIsShaCollision | crates/ghostr-core/src/hash.rs:242-256 | Two distinct tagged preimages with one digest exhibit a SHA-256 collision among the four strings hashed for them |
| MerkleLaws.RootBindsLeafSet | crates/ghostr-core/src/merkle.rs:85-118 | Two leaf collections of any sizes that build and have one root are the same collection, or a collision is exhibited; promoting an odd node never gives a second set the same root |
| MerkleLaws.RootBindsSameSize | crates/ghostr-core/src/merkle.rs:102-118 | With the count fixed, arbitrary digests in the place of leaves are bound too |
| MerkleFrontier.RootBindsFrontier | crates/ghostr-core/src/merkle.rs:102-118 | A list of any digests has the root of a leaf collection exactly when it is a frontier of its tree, and then every leaf preimage it is known to hold is in the collection; or a collision |
| MerkleFrontier.DigestTruncates | crates/ghostr-core/src/merkle.rs:102-118 | Against leaf-tagged digests, two trees have one digest exactly when one is the other cut short |
| MerkleLaws.SealIgnoresOrder | crates/ghostr-core/src/merkle.rs:85-98 | Every permutation of the leaves builds the same tree, or fails the same way |
| MerkleLaws.SealedExact | crates/ghostr-core/src/merkle.rs:85-98 | `build` succeeds exactly on non-empty lists without repeats, and keeps the leaves |
| MerkleLaws.SealedAscends | crates/ghostr-core/src/merkle.rs:85-98 | A sealed tree holds its leaves in ascending order as numbers |
| WireBytes.NodeBytes | crates/ghostr-core/src/merkle.rs:102-118 | An inner node hashes 64 bytes, the left child and then the right |
| MerkleLaws.RootIsTreeDigest | crates/ghostr-core/src/merkle.rs:102-118 | The level loop computes the digest of the symbolic tree over the leaves |
| MerkleProofs.AcceptedProofIsHonest | crates/ghostr-core/src/merkle.rs:201-238 | An accepted proof for a leaf-tagged digest is for a member, and its sibling list, sides included, is what `prove` emits; or a collision is exhibited |
| VaultContent.DisclosedMemoryWasSealed | crates/ghostr-anchor/src/chain.rs:149-157 | If a proof for a memory's leaf verifies against a sealed day's root, a memory with that salt, id, text and time was sealed that day, whatever was shredded since; or a collision is exhibited |
| VaultContent.SealedMemoryDiscloses | crates/ghostr-anchor/src/chain.rs:149-157 | Every memory a day was sealed over has a proof that verifies against that day's root |
| MerkleProofs.HonestProofsVerify | crates/ghostr-core/src/merkle.rs:128-160 | Every proof the prover hands out verifies, if and only if the tree has at most 2^32 leaves |
| MerkleProofs.ProvesExactlyMembers | crates/ghostr-core/src/merkle.rs:128-160 | `prove` returns a proof exactly for members |
| MerkleProofs.DepthBoundExact | crates/ghostr-core/src/merkle.rs:213-225 | The verifier's length bound admits every honest path exactly up to 2^32 leaves, the count saturating |
| MerkleProofs.MaxDepthIsDepth | crates/ghostr-core/src/merkle.rs:213-222 | `next_power_of_two(n).trailing_zeros()` is the ceiling of log2 |
| MerkleProofs.LeafCountIsOnlyABound | crates/ghostr-core/src/merkle.rs:201-225 | Which counts one proof is accepted under: exactly those at least as deep as its path |
| MerkleProofs.InnerNodePassesUntagged | crates/ghostr-core/src/merkle.rs:201-238 | Why soundness needs the leaf tag: an inner node's digest has an accepted proof |
| Merkle.Build | crates/ghostr-core/src/merkle.rs:85-98 | Sorts, then looks only at neighbours for repeats; agrees with the specification |
| Merkle.Root | crates/ghostr-core/src/merkle.rs:102-118 | The loop over shrinking levels ends in the specified root |
| Merkle.Prove | crates/ghostr-core/src/merkle.rs:128-160 | The loop over `index`, `level` and `siblings` collects the path, skipping a level where the node is promoted |
| Merkle.VerifyInclusion | crates/ghostr-core/src/merkle.rs:201-238 | Accepts exactly the proofs within the depth bound whose path folds to the root; a zero count is refused |
| Cbor.RoundTrip | crates/ghostr-core/src/canonical.rs:46-58 | A value written with definite lengths and shortest heads decodes to itself and leaves what follows; which bytes those are is `CborBytes.EncodedExact` |
| Cbor.EncodeInjective | crates/ghostr-core/src/canonical.rs:46-58 | Encodings are self-delimiting: no two values share one |
| CborBytes.EncodedExact | crates/ghostr-core/src/canonical.rs:46-58 | The bytes in numerals: major types 0 to 6 in the top three bits, the argument in the shortest of five forms, the content as RFC 8949 orders it; F4, F5 and F6 for false, true and null |
| CborFloats.NarrowExact | crates/ghostr-core/src/canonical.rs:98-113 | Under a tag, where floats can occur: a narrower form is written exactly when some number of that width converts to the very bits, below the normal range and for NaN too |
| CborFloats.FloatExamples | crates/ghostr-core/src/canonical.rs:98-113 | The examples of appendix A of RFC 8949, one of each width and infinity |
| LeafBytes.RecordInOrder | crates/ghostr-core/src/canonical.rs:130-150 | However a record declares its fields, the encoding is that of the arrangement whose encoded names ascend |
| CanonicalLaws.FailsExactly | crates/ghostr-core/src/canonical.rs:116-157 | `canonicalize` fails exactly on a float or a repeated map key, at any depth short of a tag |
| CanonicalLaws.ReasonExact | crates/ghostr-core/src/canonical.rs:116-157 | A refusal names what is there: a float where it says float, a repeated key where it says so |
| CanonicalLaws.Idempotent | crates/ghostr-core/src/canonical.rs:116-157 | On values whose map keys are scalars, canonicalising twice is canonicalising once |
| CanonicalLaws.OrderBlind | crates/ghostr-core/src/canonical.rs:116-157 | Entry order, at every depth, does not change the outcome |
| CanonicalLaws.OneEncodingPerValue | crates/ghostr-core/src/canonical.rs:46-58 | Two canonical encodings are equal if and only if the values are equal up to entry order |
| CanonicalLaws.AcceptsExactlyCanonical | crates/ghostr-core/src/canonical.rs:68-113 | The strict decoder accepts exactly the encodings of canonical values |
| CanonicalLaws.EncoderOutputAccepted | crates/ghostr-core/src/canonical.rs:46-113 | What the encoder writes the strict decoder takes back, as the canonical value |
| CanonicalLaws.AcceptedStringsUnique | crates/ghostr-core/src/canonical.rs:98-113 | Two accepted strings that decode alike up to entry order are one string |
| CanonicalLaws.TagsAreOpaque | crates/ghostr-core/src/canonical.rs:116-157 | A tagged value, big integers in range of an integer apart, is canonical whatever it holds: tags are not looked into |
| CanonicalLaws.TaggedFloatIsShortest | crates/ghostr-core/src/canonical.rs:98-113 | Under a tag a double is accepted exactly when no narrower float has its bits |
| CanonicalLaws.MapKeysBreakIdempotence | crates/ghostr-core/src/canonical.rs:130-150 | With map-valued keys the canonicaliser's own output can be refused by its decoder: keys are sorted as they arrived |
| Canonical.CanonicalizeValue | crates/ghostr-core/src/canonical.rs:116-157 | Filling and sorting the keyed vector in place gives the specified value or the specified refusal |
| Canonical.VerifyCanonical | crates/ghostr-core/src/canonical.rs:98-113 | Re-encoding and comparing accepts exactly what the strict decoder accepts |
| OtsLaws.UpgradeKeepsEverything | crates/ghostr-anchor/src/ots.rs:342-427 | The file an upgrade writes reads back as a well-formed tree from the same digest holding every attestation the proof had plus exactly the fragments'; no file is written exactly when no calendar answered |
| OtsPasses.RepeatedPasses | crates/ghostr-anchor/src/ots.rs:329-427 | After any number of passes with a calendar that keeps its answers, the file reads back with its own attestations and as many copies of the first pass's gain, and each pass writes a file if the first did: nothing new is needed |
| OtsPasses.CopiesExact | crates/ghostr-anchor/src/ots.rs:368-427 | There are exactly that many copies after every number of passes, if and only if the gain asks nothing the calendar answers |
| OtsPasses.PassesAdd | crates/ghostr-anchor/src/ots.rs:368-427 | Every pass reads what the one before wrote, and the attestations after any number of passes are those of the recurrence that adds what is answered to all that is then asked |
| OtsAnswers.SentIsWritten | crates/ghostr-anchor/src/ots.rs:368-427 | A well-formed tree a calendar sends for a request the proof holds is in the file the upgrade writes, every attestation of it, whatever follows it in the answer |
| OtsAnswers.UpgradeReports | crates/ghostr-anchor/src/ots.rs:368-427 | The state reported is that of the proof left behind, written or old: confirmed at the height of its first attestation that confirms, or waiting for the calendars of all its pending ones in order |
| OtsAnswers.GraftPlaces | crates/ghostr-anchor/src/ots.rs:457-497 | A fragment goes right behind the first pending leaf that asked for it, and every other attestation keeps its place |
| OtsAnswers.FileExact | crates/ghostr-anchor/src/ots.rs:368-385 | A file is one tree and nothing after it; anything behind is malformed, and another digest is refused as such |
| OtsLaws.UpgradeConfirms | crates/ghostr-anchor/src/ots.rs:399-410 | Confirmed exactly when the proof or a fragment carries a Bitcoin attestation the report can express; never unconfirmed by an upgrade; every outstanding request stays outstanding |
| OtsLaws.MergedKeeps | crates/ghostr-anchor/src/ots.rs:383-403 | Every answered request is merged, because its leaf is still there when its turn comes; nothing merged means nothing changed |
| OtsLaws.GraftKeeps | crates/ghostr-anchor/src/ots.rs:457-488 | A graft keeps the tree well formed, operations with one child and attestations with none, and adds exactly the fragment's attestations |
| OtsLaws.GraftFinds | crates/ghostr-anchor/src/ots.rs:457-488 | A graft finds a place exactly when the pending attestation for that calendar and commitment is in the tree |
| OtsLaws.WriteReads | crates/ghostr-anchor/src/ots.rs:349-358 | A well-formed tree as written reads back, a fork in last place merging into the fork above, and leaves what follows |
| OtsLaws.FlatKeeps | crates/ghostr-anchor/src/ots.rs:349-358 | That merging keeps every attestation, in order, and well-formedness |
| OtsLaws.ParsedIsSound | crates/ghostr-anchor/src/ots.rs:290-310 | Whatever stream a calendar sends, a tree read from it is well formed from the commitment it was read for |
| OtsLaws.HeightExact | crates/ghostr-anchor/src/ots.rs:445-453 | The height reported is that of the first attestation, left to right, that fits the report |
| OtsLaws.RequestsExact | crates/ghostr-anchor/src/ots.rs:430-442 | The requests are the pending attestations, in order |
| OtsTree.GraftNode | crates/ghostr-anchor/src/ots.rs:457-488 | The in-place rewrite: one leaf becomes a fork, every other node is untouched, and nothing at all changes when no leaf matches |
| OtsTree.UpgradeProof | crates/ghostr-anchor/src/ots.rs:368-427 | The loop over requests on the mutable tree returns the specified state and file |
| OtsTree.PendingRequests | crates/ghostr-anchor/src/ots.rs:430-442 | Collects the requests of the mutable tree in order |
| OtsTree.FirstBitcoin | crates/ghostr-anchor/src/ots.rs:445-453 | Finds the first height in the mutable tree |
| Anchors.AnchorTable.UpgradeAnchors | crates/ghostr-engine/src/ops.rs:918-984 | Rewrites exactly the rows up to the tip, each to what one upgrade makes of it, and reports the outcomes |
| Anchors.ReportBalances | crates/ghostr-engine/src/ops.rs:887-897 | Asked is confirmed plus still pending, and asked plus abandoned is every pending row that has a proof |
| Anchors.RowKeepsProof | crates/ghostr-engine/src/ops.rs:918-984 | No pass loses a readable proof or any attestation in it, and only pending rows change state, to confirmed |
| AnchorLaws.ReportExact | crates/ghostr-engine/src/ops.rs:918-984 | Each counter is the size of a set of rows: asked about, given up for age, leaving the pass confirmed, and asked but not |
| AnchorLaws.HeightRecorded | crates/ghostr-engine/src/ops.rs:918-984 | A confirmed row records the height of the first confirming attestation in its new proof; any other keeps state and height |
| AnchorLaws.RowGains | crates/ghostr-engine/src/ops.rs:918-984 | A row asked about holds afterwards exactly what it had and what was answered; any other row is untouched |
| AnchorLaws.TooOldExact | crates/ghostr-engine/src/ops.rs:884-947 | A row is given up exactly eight days after it was submitted |
| Anchors.ConfirmedExact | crates/ghostr-engine/src/ops.rs:918-984 | When a row becomes confirmed, exactly; a proof that already carried a Bitcoin attestation is not enough without a calendar's answer |
| Base64.Base64RoundTrip | crates/ghostr-engine/src/ghost.rs:387-411 | The decoder of section 4 of RFC 4648 undoes the encoder on every byte string |
| Base64.Base64Canonical | crates/ghostr-engine/src/ghost.rs:387-411 | A string that decodes is the encoding of what it decodes to |
| Base64.PaddingExact | crates/ghostr-engine/src/ghost.rs:402-408 | Padding stands at the end only, two characters after a one-byte chunk and one after a two-byte chunk |
| Base64.Base64Encode | crates/ghostr-engine/src/ghost.rs:387-411 | The loop over chunks pushes that encoding, four characters for every three bytes or part of them |
| TextForms.ChunkBits | crates/ghostr-engine/src/ghost.rs:387-411 | Which digits a chunk of one, two or three bytes becomes |
| TextForms.Base64Vectors | crates/ghostr-engine/src/ghost.rs:387-411 | The test vectors of section 10 of RFC 4648 |
| Nip44Laws.EncryptDecrypt | crates/ghostr-crypto/src/nip44.rs:189-253 | Exactly the plaintexts of 1 to 65535 bytes encrypt, and each round-trips under every key and nonce; both length bounds, encoded and decoded, are met, and by exactly which plaintexts |
| Nip44Laws.DecryptExact | crates/ghostr-crypto/src/nip44.rs:218-253 | Which payloads decrypt, and to what: exactly the base64 of version, nonce, keystreamed padding and MAC under that key |
| Nip44Laws.UnpadExact | crates/ghostr-crypto/src/nip44.rs:281-296 | `unpad` succeeds exactly when prefix, body and total length are those `pad` gives; the fill bytes are free |
| TextForms.PayloadBytes | crates/ghostr-crypto/src/nip44.rs:189-204 | The payload byte by byte: version 2, the nonce, length, text and zeros combined with the keystream of the first 44 bytes of key material, and the MAC the last 32 give over nonce and ciphertext |
| TextForms.OtherVersions | crates/ghostr-crypto/src/nip44.rs:218-240 | A payload of another version is refused with that version |
| Nip44Laws.PadRoundTrip | crates/ghostr-crypto/src/nip44.rs:268-296 | `unpad` undoes `pad` |
| Nip44Laws.NextPowerIsLeast | crates/ghostr-crypto/src/nip44.rs:307-314 | The shift by leading zeros is the least power of two at or above the length |
| Nip44Laws.BucketLaws | crates/ghostr-crypto/src/nip44.rs:307-321 | A bucket holds the length, is a multiple of 32, and adds under 32 bytes up to 256 and under a quarter above |
| Nip44Laws.BucketMonotone | crates/ghostr-crypto/src/nip44.rs:307-321 | A longer message never lands in a smaller bucket |
| Nip44Laws.BucketIdempotent | crates/ghostr-crypto/src/nip44.rs:307-321 | A bucket is its own bucket |
| Nip44Laws.BucketRange | crates/ghostr-crypto/src/nip44.rs:47-62 | Which lengths fall in the first and in the last bucket |
| Nip44.Encrypt | crates/ghostr-crypto/src/nip44.rs:189-204 | Padding, keystream in place, MAC and assembly give the specified payload |
| Nip44.Decrypt | crates/ghostr-crypto/src/nip44.rs:218-253 | The checks in order, each with its own refusal, before anything is decrypted |
| Nip44.ConstantTimeEq | crates/ghostr-crypto/src/nip44.rs:256-265 | Or-ing the differences is zero exactly on equal byte strings |
| Nip44.ApplyKeystream | crates/ghostr-crypto/src/nip44.rs:172-175 | The in-place pass replaces the buffer by its keystreamed form |
| Nip19Laws.ParseExact | crates/ghostr-crypto/src/nip19.rs:250-297 | `parse_tlv` inverts any sequence of pushes and succeeds on concatenations of whole records and nothing else |
| Nip19Laws.ParseNeverTooLong | crates/ghostr-crypto/src/nip19.rs:284-297 | A stream that no sequence of pushes makes is refused as invalid |
| Nip19Laws.PushedExact | crates/ghostr-crypto/src/nip19.rs:250-256 | Pushing builds the stream, or refuses when some value is over 255 bytes |
| Nip19Laws.NprofileExact | crates/ghostr-crypto/src/nip19.rs:112-135 | An `nprofile` stream names the first special record and every relay |
| Nip19Laws.NaddrExact | crates/ghostr-crypto/src/nip19.rs:181-211 | An `naddr` stream names the first identifier, author and kind and every relay; absence is an error, an empty identifier is not |
| Nip19Laws.NprofileRoundTrip | crates/ghostr-crypto/src/nip19.rs:94-135 | Encodes exactly when every relay fits, and then decodes to itself exactly when the key is on the curve and the relays are ASCII |
| Nip19Laws.NaddrRoundTrip | crates/ghostr-crypto/src/nip19.rs:162-211 | The same for an `naddr`, the empty identifier included |
| TextForms.NprofileBytes | crates/ghostr-crypto/src/nip19.rs:94-101 | The stream in numerals: type 0 and the key, then type 1 and each relay |
| TextForms.LoneKey | crates/ghostr-crypto/src/nip19.rs:112-135 | A key off the curve is refused as such, and one of another length as malformed |
| TextForms.NaddrBytes | crates/ghostr-crypto/src/nip19.rs:162-171 | The stream in numerals: type 0 and the identifier, the relays, type 2 and the author, type 3 and the kind in four bytes |
| Nip19Laws.NprofileIgnores | crates/ghostr-crypto/src/nip19.rs:118-129 | Inserting a record of unknown type, or one more of a singular field, changes no outcome |
| Nip19Laws.NaddrIgnores | crates/ghostr-crypto/src/nip19.rs:189-201 | The same for an `naddr` and its three singular fields |
| Nip19.ParseTlv | crates/ghostr-crypto/src/nip19.rs:284-297 | The loop advancing over the bytes returns the specified records or the specified refusal |
| Nip19.DecodeNaddr | crates/ghostr-crypto/src/nip19.rs:181-211 | The loop over option variables keeps the first of each singular field, and every refusal is the first one met |
| Nip19.DecodeNprofile | crates/ghostr-crypto/src/nip19.rs:112-135 | The same for an `nprofile` |
| Nip19.EncodeNaddr | crates/ghostr-crypto/src/nip19.rs:162-171 | Pushes the fields in the order written, refusing at the first that does not fit |
| Nip19.EncodeNprofile | crates/ghostr-crypto/src/nip19.rs:94-101 | The same for an `nprofile` |
| KeystoreLaws.ExactlyTheLastOpens | crates/ghostr-crypto/src/keystore.rs:565-638 | Over every sequence of passphrase changes, right, wrong or failing on the disk: exactly the last passphrase set opens the file, to what the first opened at the start |
| KeystoreKeys.VaultSurvivesChanges | crates/ghostr-crypto/src/keystore.rs:223-262 | From creation with a seed: created exactly when the identity derives and Argon2 runs; then, over any sequence of changes, only the last passphrase set opens the vault, and it opens, exactly when all five accounts derive, to those five secrets with their public keys and the data key of the data account |
| KeystoreKeys.ImportedVaultSurvivesChanges | crates/ghostr-crypto/src/keystore.rs:280-324 | The same for an imported identity: its secret and public key are the identity, and the other four keys and the data key are the seed's |
| KeystoreKeys.OpenedExact | crates/ghostr-crypto/src/keystore.rs:461-525 | For any file, whatever wrote it: the passphrase in force opens it exactly when every account derives, an imported key is usable and the file names its identity's public key; which refusal it meets otherwise, and what it opens to, secret by secret, under either source of the data key |
| KeystoreKeys.VersionOneOpens | crates/ghostr-crypto/src/keystore.rs:36-59 | The migration promise: a file without the later fields opens to the same five keys, then and after any changes, with the data key of the identity |
| KeystoreKeys.MissingImport | crates/ghostr-crypto/src/keystore.rs:474-486 | A file that claims an imported identity and carries none is refused as such, under its own passphrase |
| KeystoreLaws.RewrapKeeps | crates/ghostr-crypto/src/keystore.rs:565-638 | A re-wrap succeeds exactly with the passphrase in force; both secrets, or neither, move to the new one, under the salt drawn for it and its two nonces, which differ |
| KeystoreLaws.OpensExactly | crates/ghostr-crypto/src/keystore.rs:461-525 | One passphrase opens the vault and any other is told so |
| KeystoreLaws.NoncesStayApart | crates/ghostr-crypto/src/keystore.rs:89-127 | Whatever randomness is drawn for whatever calls, the seed and an imported identity are never under one key with one nonce |
| KeystoreLaws.CreatedProtects | crates/ghostr-crypto/src/keystore.rs:223-262 | A created file wraps the seed under its passphrase and names the public key of the seed's identity account, in version 2 with the data account's data key |
| KeystoreLaws.CreatedWithNsecProtects | crates/ghostr-crypto/src/keystore.rs:280-324 | An imported identity is wrapped beside the seed under the same key and another nonce, and the file names its public key |
| KeystoreLaws.CrashKeepsVault | crates/ghostr-crypto/src/keystore.rs:408-458 | A crash at any point of a change leaves a file the old passphrase or the new one opens to the same keys |
| Keystore.FileKeystore.Unlock | crates/ghostr-crypto/src/keystore.rs:461-525 | Sets the unlocked keys and data key, or reports the first refusal and leaves the state as it was |
| Keystore.FileKeystore.Lock | crates/ghostr-crypto/src/keystore.rs:527-530 | Forgets the unlocked keys |
| Keystore.FileKeystore.ChangePassphrase | crates/ghostr-crypto/src/keystore.rs:565-638 | Re-wraps and replaces the file, or leaves the file in memory and on disk as they were; the unlocked state stays either way |
| Keystore.ReplaceIdentity | crates/ghostr-crypto/src/keystore.rs:487-491 | The loop over the keys replaces the identity and nothing else |
| Disk.CrashSafe | crates/ghostr-crypto/src/keystore.rs:408-458 | A crash after any effect of the replacement, whatever unsynced bytes become, leaves the old file or the new one whole; before the rename, the old one |
| Disk.AfterEffects | crates/ghostr-crypto/src/keystore.rs:408-458 | Effect by effect, what the file reads as and what a crash may make it read as |
| Disk.HistorySafe | crates/ghostr-crypto/src/keystore.rs:408-458 | After any history of complete writes, failed writes and crashes the file is whole, and once a write has finished it is that value or a later one |
| Disk.RenameBeforeSyncTears | crates/ghostr-crypto/src/keystore.rs:441-450 | Renaming before the sync can publish a torn file: the order is needed |
| Disk.Volume.WritePrivate | crates/ghostr-crypto/src/keystore.rs:408-458 | Runs the effects in order, stops at one that fails, and passes only through states of that sequence; an unsynced directory is not an error |

## Left out

- CanonicalLaws.Idempotent: needs scalar map keys, because the code sorts keys by their encoding as it arrived; `CanonicalLaws.MapKeysBreakIdempotence` gives the values on which it fails.
- VaultBinding.TipBindsHistory: asks for fewer than 2^32 - 1 leaves a day in both stores, where the recorded counts saturate; so do `VaultContent.HistorySurvives`, `VaultMemories.MemoryCheckExact` and `VaultContent.SealedMemoryDiscloses`.
- VaultExact.RootCheckExact: asks that the recorded counts are the sealed ones; `VaultExact.CountIsTheCondition` shows that nothing weaker does, and `VaultContent.DayCheckExact` says what the check decides without it.
- VaultBinding.ReplicaRaisesNoAlarm: asks for fewer than 2^32 - 1 leaves a day, where the saturated counts tell days apart; so does `VaultReport.RestoredReport`.
- SealDueOnce.SealedOnceExact: asks that the closing minutes around the stretch exist, that the sealer can run on the day after each date, and that the hash keeps the one memory's leaf apart from those days' metadata leaves.
- OtsPasses.CopiesExact: one calendar that gives the same answers on every pass.
- SealDueEach.SealedAtLeastOnce: speaks of stretches that are sealed to the end, by the sealer's own runs; a date left behind is `SealDueRuns.LeftBehindForGood`.
- CborBytes.EncodedExact: asks for well-formed values, which are all the library can hold; floats are in `CborFloats`.
- SealDue.PendingIsABlock: contiguity needs ascending cutoffs; `SealDue.NoHolesExact` shows that nothing weaker does at every instant.
- Nip44.PadToBucket: does not model the overflow of a 64-bit shift for lengths above 2^63.
- Ots.Parse: does not model the byte encoding of operations and attestations, nor the recursion limit of the OpenTimestamps library; its stream is a sequence of tokens, and trailing tokens are refused in a file and ignored in a calendar's answer.
- Cbor.Decode: does not model indefinite lengths, NaN payloads beyond making them quiet, or the recursion limit of the CBOR library, which is not part of this model.
- Vault.Seal: the highlights, mood, people, threads, amendments and validation of a day's draft are one flag, since no leaf depends on them.
- Vault.AnswerQuest: the commitment check of the intake is a flag; deltas, latency and decoy handling are not modelled.
- Vault.PutMemory: sources, kinds, sensitivity and the sealed bodies of rows are not modelled.
- Vault.IsBlank: trims ASCII white space only, where the source trims Unicode white space.
- Leaves.QuestFields: difficulty and confidence are the fixed-point integers already in the leaf; the conversion from floating point is not modelled.
- Calendar.Civil: dates outside the range of `NaiveDate` exist in the model and not in the source.
- Keystore.KeystoreFile: the JSON form, the hex and npub of the public key and refusal of a newer file version are not modelled; a file is a value and a torn file is its own content.
- Keystore.Unlock: memory locking and zeroisation are not modelled.
- Nip19.Nprofile: the bech32 string around the TLV stream, its checksum and its length ceiling are not modelled.
- SealDue.HomeTime: the zone database is two functions, one from dates to closing instants and one from instants to dates; changing the home zone or the closing minute between runs is not modelled.
- SHA-256, secp256k1, HKDF, HMAC, ChaCha20, Argon2 and XChaCha20-Poly1305 internals: library code.
- SQLite itself, transactions and triggers: a table is a sequence and a statement is a function on it.
- HTTP, calendars' submission endpoint, relays, restore, the command line, configuration, the egress log and model wiring: input, output and easy tables.
- Streaks, stages, fidelity scores and display forms: easy, and about nothing the seal depends on.
