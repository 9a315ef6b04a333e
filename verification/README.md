# MeowKey: a verified model

MeowKey is a CTAP2 authenticator. Its firmware keeps credentials in a power-loss-safe flash store and runs an
assertion, PIN and user-presence state machine on top of it; it is reached through CTAPHID and CBOR on one side and
through a USB management channel on the other, and the host halves of both are written in Rust. This project models
these parts in Dafny and proves what they are for.

Check everything with `dafny verify dfyconfig.toml`.

## How the model is built

- **Flash** (`NorFlash.dfy`). Two slots and a journal region of bytes. Erasing sets every bit, programming only clears
  bits, and each erase or program is a step of its own. A power cut inside a step leaves, bit by bit, any mixture of
  the state before and the state after.
- **Store** (`StoreFormat.dfy`, `SignCountJournal.dfy`, `StoreSpec.dfy`). The byte formats, the boot path and every
  store operation as functions on values, with the list of flash operations each one issues.
- **Store proofs** (`CrashSafety.dfy`, `JournalSafety.dfy`, `StoreOperations.dfy`, `UnboundJournal.dfy`,
  `StoreRuns.dfy`, `SignCounts.dfy`). `Good` says that the RAM image is what the flash holds. Commits are crash-atomic
  and appends crash-safe. The invariant of all runs is `Sound`: RAM holds a clean edit of what a reboot recovers, as a
  failed operation may leave it. Runs of operations that succeed, fail or are cut, and reboots, refine a pair of plain
  maps, the one in RAM and the stored one, and counters never repeat. `BootRepair.dfy` says what the boot keeps and
  replaces of an image that needs repair, and that the repair is itself crash-safe.
- **Store object** (`CredentialStore.dfy`, `SecretWrapping.dfy`). The store as the firmware runs it: a class whose
  methods erase, program, verify and edit the RAM image, proved to compute exactly the functions of `StoreSpec.dfy` and
  to issue exactly the flash operations the crash proofs are about.
- **CBOR** (`HostCbor.dfy`, `DeviceCbor.dfy`) and **CTAPHID** (`HidFraming.dfy`, `HidExchange.dfy`, `CtapHid.dfy`), both
  ends of each.
- **Commands** (`Assertions.dfy`, `AssertionRuns.dfy`, `WebAuthn.dfy`, `ClientPin.dfy`, `PinStorage.dfy`,
  `ManagerChannel.dfy`, `TimedGrants.dfy`, `UserPresence.dfy`, `CredentialPages.dfy`).
- **Catalogue text** (`CatalogueText.dfy`). A JSON reader written for the proof: what it makes of a page of the
  catalogue is what the store holds.
- **Outcomes** (`AssertionAnswers.dfy`, `PinOutcomes.dfy`, `ManagerEffects.dfy`). Exactly when each command succeeds,
  what it then answers and leaves, and what a refusal leaves, in terms of request bytes, slot bytes and the user.

Each class has an abstract value (`ToDevice`, `ToState`, `RequestState`, `Auth`, ...), its methods equate the new value
with a function of the old one, and the properties are lemmas about those functions.

### What is assumed

- CRC-32, HMAC-SHA-256, SHA-256, AES and ECDSA are arbitrary functions. The only law used is that XOR with a key stream
  is an involution, which is proved. SHA-256 is taken to be injective in one lemma, which says so.
- `TearDetected`: a slot torn in the middle of one flash operation loads as before the operation, as after it, or not
  at all; its checksums are there for that. The journal header has no checksum. Nothing is assumed of a torn program of
  it: whatever header that leaves, readable or not, the entries behind it are blank, and that is enough
  (`CrashSafety.JournalHeaderCut`). Of a torn erase it is assumed that, while old entries are left, the torn header does
  not name the image that boot chooses or a generation still to come (`CrashSafety.OldEntriesUnclaimed`).
  `CrashSafety.NewContentRecoveredIff` says, for any journal bytes, exactly when the new content is recovered.
- Generations, signature counters and the millisecond clock do not wrap; the lemmas that need it carry it.
- Callers of the store pass valid records, and never an unset PIN without retries (`StoreOperations.OpClean`). For the
  authenticator's commands this is derived from the length limits of its parser (`AssertionRuns.WithinLimits`).
- Counters never repeat as long as no count is written behind a journal that is not in use (`StoreRuns.UpdatesUnready`);
  without that they do (see below). The refinement theorems do not need it.

The invariants and the cuts are inhabited: `StoreRuns.BlankChipIsGood` starts from an erased chip,
`StoreRuns.ExecKeepsSound` leads on from there, and `UnboundJournal.UnboundBootIsReachable` and
`SignCounts.BlockedIsReachable` exhibit power cuts from every good state.

### What turned out not to hold, and exactly when it does

- **The journal is not always bound to the active image**, although docs/security-model.md:124 lists the binding. If
  power is lost between the two halves of a commit, the boot replaces the checksum of the encrypted payload by that of
  the decrypted one (src/credential_store.c:1298-1300), and a journal started then is rejected by the next boot.
  `UnboundJournal.UnboundBootIsReachable` gives the run, `UnboundJournal.UnboundUpdateSurvivesIff` says exactly when
  such an update survives, and `UnboundJournal.UnboundCountRepeats` that otherwise one count is given out twice.
  Commits stay atomic in every case.
- **A torn journal entry blocks every later update** until the next commit: safe, not live.
  `SignCounts.UpdateSucceedsIff` says exactly when an update succeeds, `SignCounts.BlockedIsReachable` that a cut after
  one byte of an entry leads to a blocked device, `SignCounts.BlockedUntilCommit` that it stays blocked, and
  `SignCounts.CommitUnblocks` what ends it.
- **Three operations do not restore RAM when they fail** (`StoreOperations.FailureShowsIff`), so a PIN that is blocked
  in RAM is blocked for good only if that was stored (`ClientPin.BlockedForeverIff`, and of the store itself
  `PinStorage.BlockedOnStoreIff`; `PinStorage.LastRetryNotStored` shows how it comes to that).
- **HMAC failing between two secrets of one record** leaves masked secrets in a slot that is not marked as masked
  (`SecretWrapping.RecordRoundTripIff`).
- **The tap window is anchored at the first tap**, so an early stray tap can hide a gesture. The recogniser is exact if
  and only if one or two taps are asked for, or the window is empty (`UserPresence.RecognitionExactIff`,
  `UserPresence.ValidConfigExactIff`).
- **A keepalive is taken for the response** by the host, which gets its response exactly if none is in front of it
  (`HidExchange.ResponseArrivesIff`).
- **CBOR arguments of 2^32 and more are truncated** by both writers (`HostCbor.RoundTripIff`). On the device, 32-bit
  sums and the doubled count of a map wrap: `DeviceCbor.SkipIsExactIff` says exactly when skipping is still exact, and
  `DeviceCbor.HugeMapIsSkipped` gives five bytes for which it is not.

## Model

| member | source | states |
|---|---|---|
| NorFlash.PagesWritten | src/credential_store.c:960-962 | Programming an erased range page by page leaves the image in that range and every other byte as it was. |
| NorFlash.CutSpares | src/credential_store.c:954-977 | Bytes no operation of a sequence writes keep their value, whether the sequence completes or power is lost anywhere inside it. |
| StoreFormat.UnpackPack | src/credential_store.c:63-84 | The packed payload, its slots, PIN state, configuration and tail are read back unchanged from their bytes. |
| StoreFormat.CryptTwice | src/credential_store.c:391-425 | Encrypting the payload twice under one salt restores it, whatever the key stream is. |
| StoreFormat.CryptAt | src/credential_store.c:391-425 | Encryption XORs byte i with position i of the stream that the salt selects. |
| StoreFormat.LoadPrepared | src/credential_store.c:801-881 | A complete slot image loads back as exactly the payload, generation and checksum it was prepared from, for every salt. |
| StoreFormat.LoadSlotIff | src/credential_store.c:801-881 | A slot loads exactly if its magic, version, generation, size and both checksums are right and, where it is encrypted, its tag; and what it loads as, byte by byte. |
| StoreFormat.ErasedHeaderRejected | src/credential_store.c:826-846 | A slot whose header page is erased never loads, whatever the checksum function is. |
| SignCountJournal.FreshJournalReads | src/credential_store.c:883-895 | A re-initialised journal is bound to the generation and checksum it was given, and every entry in it is blank. |
| SignCountJournal.LiveIff | src/credential_store.c:904-919 | An entry is live exactly if it starts with the magic and its slot number stands beside its complement; a blank one never is. |
| SignCountJournal.LiveEntriesFormPrefix | src/credential_store.c:1022-1043 | The replayed entries are the contiguous live prefix of the region: all of them are live, the next one is not. |
| SignCountJournal.LiveEntriesUnique | src/credential_store.c:1022-1043 | What is replayed is determined by the entries up to the one where replay stops. |
| SignCountJournal.SequencesGrow | src/credential_store.c:1036-1038 | After a replay the next sequence number is one above every number replayed, and no higher than it must be. |
| SignCountJournal.InterruptedAppend | src/credential_store.c:1104-1118 | Re-programming a page with one entry patched in disturbs only that entry's bytes, and clears no bit the entry needs set, whenever power is lost. |
| SignCountJournal.CompletedAppend | src/credential_store.c:1104-1118 | A completed append writes exactly the entry and no other byte of the region. |
| SignCountJournal.TornEntryIsHarmless | src/credential_store.c:904-919 | A torn entry that still passes the validity check names exactly the intended slot, with at least the intended count. |
| CrashSafety.CleanIff | src/credential_store.c:548-611 | Boot repairs nothing exactly if every slot is valid or zeroed, the count is the number of valid slots, the configuration is valid and trusted, and an unset PIN has retries. |
| CrashSafety.ReplayKeepsClean | src/credential_store.c:1022-1043 | Replaying any counts onto a repaired image leaves nothing to repair. |
| CrashSafety.RebootRecovers | src/credential_store.c:1232-1304 | From every good state a reboot recovers the RAM content, slot, generation and journal position, writes nothing, and is good again. |
| BootRepair.NewestSlotIsTaken | src/credential_store.c:1247-1269 | Boot takes the newest slot that loads, the first one of equals, and none only if none loads. |
| BootRepair.BootRepairs | src/credential_store.c:1278-1303 | Whatever image loads, boot recovers it repaired field by field, with the counts of a bound journal, and writes it back exactly if that changed it or it was not encrypted. |
| BootRepair.RepairedIsUnique | src/credential_store.c:548-611 | The field-by-field conditions leave one payload the repair can be. |
| BootRepair.BootKeepsPinAndCredentials | src/credential_store.c:548-611 | The PIN, its hash and every credential survive every boot; only counts move, and retries come back only where there is no PIN. |
| BootRepair.ReplayOnlyCounts | src/credential_store.c:1039-1042 | Replaying the journal changes counts of credentials and nothing else. |
| BootRepair.RepairSettles | src/credential_store.c:1278-1303 | A repairing boot whose commit succeeds leaves a good device holding the repaired content, and the next boot repairs nothing. |
| BootRepair.RepairIsCrashSafe | src/credential_store.c:1278-1303 | Power lost anywhere inside the repair: the next boot recovers the same repaired content. |
| CrashSafety.UnfinishedImageRejected | src/credential_store.c:958-971 | Until the header page is programmed, a cut anywhere in the page loop leaves a slot that does not load; no checksum hypothesis is used. |
| CrashSafety.SlotOpsWrite | src/credential_store.c:954-977 | The completed slot operations leave the image in the target slot and nothing else changed. |
| CrashSafety.SlotOpsCut | src/credential_store.c:954-977 | Cut anywhere, the target slot loads as before, as the new image, or not at all, and the other slot and the journal are untouched. |
| CrashSafety.JournalHeaderCut | src/credential_store.c:883-952 | A torn program of the journal header leaves every entry blank, whatever header it leaves; no hypothesis is used. |
| CrashSafety.JournalOpsCut | src/credential_store.c:921-952 | Cut anywhere in its re-initialisation, only the journal has changed, and it is blank or claimed by no image that boot can choose. |
| CrashSafety.CommitCompletes | src/credential_store.c:999-1004 | A completed commit turns any edited RAM image over sound flash into a good state holding the edit. |
| CrashSafety.CommitIsGood | src/credential_store.c:999-1004 | A completed commit leaves a good device holding the RAM image, whatever the slot it overwrites and the journal held before. |
| CrashSafety.CommitIsCrashAtomic | src/credential_store.c:979-1004 | Power lost at any point inside any erase or program of a commit: the next boot recovers the whole old content, journal replayed, or the whole new content, needs no repair, and is good. |
| CrashSafety.NewContentRecoveredIff | src/credential_store.c:883-895 | With the new slot complete and any bytes at all in the journal, boot recovers the new content exactly if the journal is not bound to it or replays to nothing. |
| JournalSafety.AppendCompletes | src/credential_store.c:1081-1123 | A successful append is what the next boot replays: the state is good with exactly that slot's count changed. |
| JournalSafety.AppendIsCrashSafe | src/credential_store.c:1081-1123 | Power lost inside an append: the next boot recovers the old counts, or that slot's count at the intended value or above, and nothing else differs. |
| StoreOperations.EffectKeepsClean | src/credential_store.c:1310-1486 | Every operation of a caller keeps the stored credential count equal to the number of valid slots and leaves nothing for boot to repair. |
| StoreOperations.SucceedsIff | src/credential_store.c:1310-1486 | An operation other than a count update succeeds exactly if the commit works and its guard holds; one whose guard fails does nothing at all. |
| StoreOperations.EffectTouches | src/credential_store.c:1310-1486 | Field by field what each successful operation changes, and that everything else is as it was; a deleted slot is all zeros. |
| StoreOperations.UpdateCompletes | src/credential_store.c:1404-1419 | A successful count update, folded into a commit or appended, is durable; a failed one changed nothing. |
| StoreOperations.AppendedEntry | src/credential_store.c:1098-1121 | A successful append leaves exactly the entry for that slot and count, with the sequence number reached, and every other entry byte for byte. |
| StoreRuns.ExecKeepsSound | src/credential_store.c:1310-1486 | Every completed operation, also one that fails and one on RAM that is ahead of the flash, leaves RAM a clean edit of what a reboot recovers, and does to both exactly what it means. |
| StoreOperations.FailureShowsIff | src/credential_store.c:1317-1322 | After a failed commit, RAM equals what a reboot recovers exactly if the operation was an add or a delete, or would have changed nothing. |
| StoreOperations.CommitCatchesUp | src/credential_store.c:979-1004 | Whatever a failed operation left in RAM, the next successful commit makes it durable together with its own effect. |
| StoreRuns.UpdateCut | src/credential_store.c:1070-1123 | A power cut anywhere inside an update, compaction and journal renewal included, leaves what was stored, or the count at the intended value or above; a compaction also stores what RAM was ahead by. |
| StoreRuns.ExecIsCrashSafe | src/credential_store.c:1310-1486 | A power cut anywhere inside any operation leaves the stored content or the new one to be recovered, a count possibly higher, and the device good. |
| StoreRuns.RunRefines | src/credential_store.c:1232-1486 | Over every run of operations that succeed, fail or are cut, and reboots, RAM holds a clean edit of what a reboot recovers, and every step does to both exactly what it means. |
| StoreRuns.RunStaysGood | src/credential_store.c:1232-1486 | Without failures of the three operations that do not roll back, and with counts only behind a journal in use, RAM equals what a reboot recovers at every boundary. |
| StoreRuns.EffectUpdatesView | src/credential_store.c:1310-1486 | Every operation is the operation on a map from slots to credentials; a new credential takes the lowest free slot and overwrites none. |
| StoreRuns.RunRefinesMap | src/credential_store.c:1232-1486 | Over every run, the map in RAM and the map a reboot recovers are updated together by the operations that succeed; failures show in RAM alone; cuts leave the stored map or the update. |
| StoreRuns.BlankChipIsGood | src/credential_store.c:618-631 | An erased chip boots into a good state with the default content and writes nothing. |
| SignCounts.CountsNeverRepeat | src/credential_store.c:1404-1419 | Of two successful count updates for one credential, in any run of operations that succeed, fail or are cut, and reboots, the later one carries the strictly greater count. |
| SignCounts.CompactionIsInvisible | src/credential_store.c:1077-1123 | For every sequence of updates, the finite journal with fold-into-commit recovers the counts of an unbounded append-only log. |
| SignCounts.NextIndexEndsTheLog | src/credential_store.c:1006-1044 | In a good state the next entry index stands at the end of the live prefix, and everything behind that entry is blank. |
| SignCounts.UpdateSucceedsIff | src/credential_store.c:1081-1123 | Exactly when an update succeeds: the next entry is blank, or the journal is full and the commit works; a failure changes nothing. |
| SignCounts.BlockedIsReachable | src/credential_store.c:1108-1112 | From every good device with room in its journal, power lost after one byte of an entry boots into a good device with the same content that can append nothing. |
| SignCounts.BlockedUntilCommit | src/credential_store.c:1108-1112 | Over every run in which nothing is committed, a blocked device stays blocked and answers no assertion. |
| SignCounts.CommitUnblocks | src/credential_store.c:921-952 | Any successful commit ends it: the next count finds room. |
| UnboundJournal.UnboundBootIsReachable | src/credential_store.c:1298-1300 | From every good state, a cut between the two halves of a commit, the journal just erased, boots without a bound journal and with the checksum of the plain payload in RAM. |
| UnboundJournal.UnboundUpdateSurvivesIff | src/credential_store.c:1070-1075 | An update behind an unbound journal is recovered by a reboot exactly if RAM holds the checksum the active image carries; otherwise the old count comes back. |
| UnboundJournal.UnboundCountRepeats | src/credential_store.c:1070-1123 | If it is not recovered, the same count is stored successfully a second time after the reboot. |
| UnboundJournal.UnboundUpdateIsCrashSafe | src/credential_store.c:1070-1123 | A power cut anywhere in the renewal of an unbound journal or in the append behind it leaves the old counts, or that slot at the intended count or above. |
| SecretWrapping.XorField | src/credential_store.c:648-698 | The chunked in-place XOR masks every byte with its own chunk's mask, and stops, leaving the rest, exactly at the first chunk whose HMAC fails. |
| SecretWrapping.TransformSlotSecrets | src/credential_store.c:700-720 | The three secrets are masked in order, and a later failure leaves the earlier ones masked. |
| SecretWrapping.TransformTwice | src/credential_store.c:700-720 | Masking twice restores the slot, since each mask depends only on fields masking leaves alone. |
| SecretWrapping.StoredSecretsAreMasked | src/credential_store.c:700-780 | With the secure element on, every stored secret is under the HMAC mask of its own label, the slot says so, and nothing else is changed. |
| SecretWrapping.UnreadableIsEmpty | src/credential_store.c:722-735 | A masked slot that cannot be unmasked hands on nothing of itself. |
| SecretWrapping.RecordRoundTripIff | src/credential_store.c:722-780 | A record read back from its slot is the record, exactly unless HMAC failed after a secret had been changed. |
| SecretWrapping.StorageRoundTrip | src/credential_store.c:722-881 | Record to masked slot to encrypted image and back through the loader is the identity, for every record, payload, slot and salt. |
| SecretWrapping.StoredSlotValid | src/credential_store.c:567-586 | A stored record is a valid slot exactly if its lengths are in range; masking cannot change that. |
| CredentialStore.CredentialStore.Operate | src/credential_store.c:958-962 | An erase or program changes its own region only, and on sound flash exactly as NOR flash does. |
| CredentialStore.CredentialStore.ProgramSlot | src/credential_store.c:954-977 | Whatever the chip does, success means that the slot holds the image byte for byte and that all slot operations were issued in order; nothing outside the slot changes. |
| CredentialStore.CredentialStore.CommitPayload | src/credential_store.c:979-997 | RAM names the new slot, generation and checksum exactly on success, and is untouched on failure, on any chip. |
| CredentialStore.CredentialStore.JournalEraseAndInitialize | src/credential_store.c:921-952 | Without an active slot it only resets the state; otherwise it erases and re-heads the journal and nothing else. |
| CredentialStore.CredentialStore.CommitTransaction | src/credential_store.c:999-1004 | The slot is written and verified before the journal is touched; on any chip a failure leaves RAM and the active slot as they were. |
| CredentialStore.CredentialStore.JournalAppend | src/credential_store.c:1081-1123 | The outcome and the flash operations, with the journal first readied and, when full, folded, are those the crash proofs analyse. |
| CredentialStore.CredentialStore.JournalLoadIfPresent | src/credential_store.c:1006-1044 | The scan loop replays exactly the live prefix of a bound journal and stops at its end. |
| CredentialStore.CredentialStore.SanitizeStoredSlots | src/credential_store.c:588-611 | The loop zeroes exactly the used invalid slots, counts the valid ones, and reports a change exactly if it made one. |
| CredentialStore.CredentialStore.SanitizeStoredSettings | src/credential_store.c:548-565 | An invalid or untrusted configuration is replaced, an unset PIN gets its retries, and a change is reported exactly if one was made. |
| CredentialStore.CredentialStore.FindNewestSlot | src/credential_store.c:1247-1269 | The loop finds the loading slot with the highest generation, the first one on a tie. |
| CredentialStore.CredentialStore.LoadImage | src/credential_store.c:1248-1301 | The RAM image after boot, and whether it was repaired, are those of the boot function the reboot lemmas are about. |
| CredentialStore.CredentialStore.LoadIfNeeded | src/credential_store.c:1232-1304 | Loading happens once, and commits the repaired image exactly if something was repaired. |
| CredentialStore.CredentialStore.AddCredential | src/credential_store.c:1310-1331 | The lowest invalid slot takes the record; a failure empties it again and restores the count, on any chip. |
| CredentialStore.CredentialStore.UpdateSignCount | src/credential_store.c:1404-1419 | The count is journalled before it is reported stored; a failure restores the old count in RAM. |
| CredentialStore.CredentialStore.DeleteCredentialBySlot | src/credential_store.c:1421-1445 | The slot is zeroed and the count lowered in one commit; a failure restores both. |
| CredentialStore.CredentialStore.ClearCredentials | src/credential_store.c:1447-1452 | Every slot is zeroed in one commit; a failure is not rolled back. |
| CredentialStore.CredentialStore.SetPinState | src/credential_store.c:1462-1468 | The PIN state is replaced in one commit; a failure is not rolled back. |
| CredentialStore.CredentialStore.SetUserPresenceConfig | src/credential_store.c:1477-1486 | An invalid configuration is refused without touching anything; a valid one is stored with its provenance in one commit. |
| CredentialStore.CredentialStore.FindByCredentialId | src/credential_store.c:1333-1356 | The lowest valid slot holding exactly this id, or none if none does. |
| CredentialStore.CredentialStore.FindByRpId | src/credential_store.c:1358-1382 | The lowest valid slot of exactly this relying party, or none if there is none. |
| HostCbor.HeadReads | native-rs/meowkey-manager/src/cbor.rs:189-238 | A head is read back as its major type and its argument modulo 2^32, with the offset right behind it. |
| HostCbor.DecodeEncode | native-rs/meowkey-manager/src/cbor.rs:93-238 | Wherever an encoded value stands, decoding there gives the value and the offset behind it if it is in range, and never the value if it is not. |
| HostCbor.RoundTripIff | native-rs/meowkey-manager/src/cbor.rs:81-238 | decode(encode(v) ++ rest) is (v, length of encode(v)) exactly if every integer of v is in [-2^32, 2^32) and every length below 2^32. |
| HostCbor.EncodeValue | native-rs/meowkey-manager/src/cbor.rs:93-123 | The recursive encoder with its loops appends the encoding to the buffer and changes nothing before it. |
| HostCbor.DecodeValue | native-rs/meowkey-manager/src/cbor.rs:125-187 | The decoder threading its offset through the element loops is the decoding function, and ends on every input. |
| DeviceCbor.CborReader.Take | src/cbor.c:5-14 | A take succeeds exactly if it fits, and moves the offset only then. |
| DeviceCbor.CborReader.ReadArgument | src/cbor.c:16-54 | The device reads arguments exactly as the host does. |
| DeviceCbor.CborReader.SkipOne | src/cbor.c:163-206 | On arbitrary bytes skipping ends, the offset never moves back or past the end, and a success consumes at least one byte. |
| DeviceCbor.CborReader.SkipMany | src/cbor.c:66-74 | Skipping a count of items is skipping them one after the other, and ends whatever the count is. |
| DeviceCbor.CborReader.ReadInt | src/cbor.c:100-118 | Reading an integer succeeds exactly where the host decodes an integer, with the same value and offset. |
| DeviceCbor.CborReader.ReadBytes | src/cbor.c:137-148 | Reading a byte string succeeds exactly where the host decodes one, with the same bytes and offset. |
| DeviceCbor.SkipsWhatDecodes | src/cbor.c:66-206 | Whatever bytes the host decodes, the device skips, and both stop at the same offset. |
| DeviceCbor.ForeignItems | src/cbor.c:188-205 | Simple values and short floats are skipped by their length; doubles, tags and indefinite lengths are refused. |
| DeviceCbor.Agreement | src/cbor.c:163-206 | Whatever in-range value the host encodes, followed by any bytes, the host decodes back and the device skips, both stopping exactly behind it. |
| DeviceCbor.TakeIsExactIff | src/cbor.c:5-8 | The bounds check in 32-bit arithmetic is exact unless the sum wraps to within the buffer. |
| DeviceCbor.SkipIsExactIff | src/cbor.c:163-206 | Skipping in 32-bit arithmetic ends where skipping should, exactly unless a take wraps or an input with a map of 2^31 entries or more is accepted. |
| DeviceCbor.HugeMapIsSkipped | src/cbor.c:185-186 | Five bytes that announce 2^31 entries and hold none are skipped as complete. |
| DeviceCbor.CborWriter.Put | src/cbor.c:208-216 | Once a put does not fit the writer has failed for good and its contents stay. |
| DeviceCbor.CborWriter.WriteTypeAndValue | src/cbor.c:218-243 | The device writes the host's heads. |
| DeviceCbor.CborWriter.WriteString | src/cbor.c:276-282 | A string is its head and its body, and the body is not attempted when the head failed. |
| DeviceCbor.WriterHoldsAllIff | src/cbor.c:208-216 | A writer has not failed exactly if everything put into it fits, and then holds all of it in order. |
| DeviceCbor.ScriptWrites | src/cbor.c:252-288 | The writes a handler makes for a value are, together, the host's encoding of it. |
| DeviceCbor.DeviceToHost | native-rs/meowkey-manager/src/cbor.rs:125-187 | A value written by the device without failing is what the host decodes; it fails exactly if the encoding does not fit. |
| HidFraming.ReceiveKeepsValid | src/ctap_hid.c:714-796 | The bytes received stay below the announced total, the total at most 1024, and the next number fits what was received. |
| HidFraming.DispatchIff | src/ctap_hid.c:714-796 | After any packets from any channels, a packet makes the device dispatch exactly if it completes the last accepted initialization packet with its own channel's continuations numbered 0, 1, 2, ...; the message is what they carry. |
| HidFraming.ErrorIff | src/ctap_hid.c:714-796 | After any packets from any channels, exactly which packet is answered with which error. |
| HidFraming.ErrorResets | src/ctap_hid.c:714-796 | A message in reception survives an error exactly if the packet was a continuation of another channel. |
| HidExchange.SendPackets | native-rs/meowkey-manager/src/transport.rs:1466-1492 | The sender's loop cuts a payload into its initialization packet and numbered continuations, none missing and none twice. |
| HidExchange.RequestArrives | native-rs/meowkey-manager/src/transport.rs:1466-1492 | From any interface state, the packets of a payload of up to 1024 bytes make the device dispatch exactly that message, with the last packet, and answer none of the others. |
| HidExchange.RequestArrivesIff | src/ctap_hid.c:766-774 | What was sent is dispatched exactly if it has at most 1024 bytes. |
| HidExchange.PumpEmits | src/ctap_hid.c:629-664 | The response pump, called until it is done, emits exactly the packets of the queued message. |
| HidExchange.ReceiveResponse | native-rs/meowkey-manager/src/transport.rs:1494-1585 | The receive loop ends as the receiving automaton does and reads no packet after the one that ended it. |
| HidExchange.ResponseArrives | native-rs/meowkey-manager/src/transport.rs:1494-1585 | Pumped packets, after any stray continuations, are reassembled to the same command and payload, using all of them. |
| HidExchange.KeepaliveEndsTheWait | native-rs/meowkey-manager/src/transport.rs:1517-1539 | Wherever the wait meets a keepalive, it ends with that, whatever follows. |
| HidExchange.ResponseArrivesIff | native-rs/meowkey-manager/src/transport.rs:1494-1585 | Behind any stray continuations and keepalives, the host gets the response exactly if there is no keepalive among them. |
| CtapHid.AllocateChannel | src/ctap_hid.c:449-456 | A new channel is never 0 and never the broadcast channel. |
| CtapHid.ChannelsDiffer | src/ctap_hid.c:449-456 | No two of 2^32 - 2 allocations in a row, on whichever interfaces, hand out the same channel. |
| CtapHid.HidInterface.QueueResponse | src/ctap_hid.c:426-443 | A queued response replaces the one before it, is cut to 1024 bytes, and leaves the request alone. |
| CtapHid.HidInterface.DispatchRequest | src/ctap_hid.c:586-627 | Each command queues its answer or error on the request's own channel; CANCEL queues nothing. |
| CtapHid.HidInterface.HandleReport | src/ctap_hid.c:714-796 | The buffers and counters of the interface follow the reassembly automaton packet by packet, errors included; other report sizes change nothing. |
| CtapHid.HidInterface.SendNextResponsePacket | src/ctap_hid.c:629-664 | One call emits the next packet of the response and forgets the response exactly when nothing remains. |
| CtapHid.ExchangeAnswers | src/ctap_hid.c:586-664 | A whole exchange, from any interface state: the host receives exactly the answer the handlers gave, or the error they gave. |
| CtapHid.InitGivesChannel | src/ctap_hid.c:458-480 | INIT on the broadcast channel: the host receives its nonce, a new channel, and the version and capabilities. |
| CtapHid.InitKeepsChannel | src/ctap_hid.c:458-480 | INIT on a channel in use keeps it and takes no new one. |
| CtapHid.CborIsAnswered | src/ctap_hid.c:544-584 | For every CBOR request the host receives exactly the handler's answer, or the error for a failed or too long one. |
| CtapHid.OthersAreErrors | src/ctap_hid.c:586-627 | An INIT of the wrong length and unknown commands are answered with their errors, and CANCEL alone is not answered. |
| CtapHid.ErrorReachesHost | src/ctap_hid.c:714-796 | A protocol error replaces whatever was being sent and the host reads its code; a CANCEL leaves the response as it was. |
| CtapHid.PingEchoes | src/ctap_hid.c:482-487 | A ping of up to 1024 bytes comes back unchanged. |
| TimedGrants.UsableIff | src/manager_channel.c:330-339 | A lazily expired grant can be used exactly if it is the latest one issued, nothing has revoked it, and it is within its lifetime. |
| ManagerChannel.Channel.IsActive | src/manager_channel.c:330-339 | An authorization is active up to and including its 120 s, and is dropped when seen later. |
| ManagerChannel.Channel.Verify | src/manager_channel.c:341-349 | A token is accepted exactly if it is the current one, not expired, and carries the permission. |
| ManagerChannel.Channel.Receive | src/manager_channel.c:1086-1300 | A frame has the effect its guard allows and no other, and changes the authorization only by issuing it or letting it expire. |
| ManagerChannel.GuardedEffectIff | src/manager_channel.c:1182-1293 | After any run, a delete, user-presence write or guarded read takes effect exactly if an AUTHORIZE that passed user presence carried its permission and token, at most 120 s ago, with none granted and no reset since. |
| ManagerEffects.GuardIff | src/manager_channel.c:1132-1293 | What a frame asks for, and under which permission, is read off its bytes: deleting takes permission 1, the user-presence configuration 2, the catalogue 4. |
| ManagerEffects.GrantedIff | src/manager_channel.c:1182-1197 | An authorization is granted exactly for an AUTHORIZE frame with permissions 1 to 7 that the user confirmed. |
| ManagerEffects.EffectIff | src/manager_channel.c:1090-1300 | Over every run, each effect comes about exactly if the frame carries it with a token for which an authorization with its own permission stands, confirmed at most 120 s ago; there is no other way. |
| ClientPin.Authenticator.ParseNewPinHash | src/client_pin.c:482-511 | The PIN ends at the first zero byte and is refused outside 4 to 63 bytes. |
| ClientPin.Authenticator.VerifyPinHashOrConsumeRetry | src/client_pin.c:513-524 | A wrong hash takes one retry if there is one, and is reported as blocked exactly when none is left. |
| ClientPin.Authenticator.HandleSetPin | src/client_pin.c:526-574 | A first PIN is set with all retries and drops the token; a configured one is refused untouched. |
| ClientPin.Authenticator.HandleChangePin | src/client_pin.c:576-653 | The old PIN is checked before the new one is looked at; success restores the retries and drops the token. |
| ClientPin.Authenticator.HandleGetPinToken | src/client_pin.c:655-719 | A right PIN restores the retries and replaces the token; nothing else does. |
| ClientPin.Authenticator.CheckPinUvAuth | src/client_pin.c:774-805 | On a device with a PIN a parameter is accepted only under the current, unexpired token. |
| ClientPin.RetriesStayInRange | src/client_pin.c:513-719 | Over every run the counter stays in 0..8, in RAM and in flash. |
| ClientPin.WrongPinCostsOneRetry | src/client_pin.c:513-719 | Each wrong PIN costs exactly one retry, stored whenever the commit succeeds; only a wrong PIN is reported as one; a right one restores eight. |
| ClientPin.ExhaustedStays | src/client_pin.c:588-594 | Stored, exhausted retries stay exhausted in every continuation, reboots and power cuts included; PinStorage.RunIsPinRun carries this to the store. |
| ClientPin.BlockedForeverIff | src/client_pin.c:667-669 | A PIN blocked in RAM answers PIN_BLOCKED in every continuation exactly if the exhausted counter was stored; PinStorage.BlockedOnStoreIff states it of the store. |
| ClientPin.PinUvAuthAcceptedIff | src/client_pin.c:774-805 | A pinUvAuthParam is accepted exactly if it is keyed by the token of the latest getPinToken with the right PIN, at most 30 s old, with no setPIN, changePIN or restart since. |
| PinOutcomes.SetPinOutcome | src/client_pin.c:526-574 | setPIN succeeds exactly on a device without a PIN, for a signed request with a PIN of 4 to 63 bytes whose write succeeds; its hash is then live and stored. |
| PinOutcomes.ChangePinOutcome | src/client_pin.c:576-653 | changePIN succeeds exactly for a signed request with the current PIN and a proper new one whose write succeeds; the new hash is then live and stored, and any other outcome keeps the old one unless that write failed. |
| PinOutcomes.ChangePinRefusals | src/client_pin.c:588-620 | What a refused changePIN answers and costs, in the order of its checks. |
| PinOutcomes.GetPinTokenOutcome | src/client_pin.c:655-719 | getPinToken hands out a token exactly for the current PIN on a device that is not blocked, and never touches the hash. |
| PinOutcomes.NewPinOpens | src/client_pin.c:633-635 | Once setPIN or changePIN has answered OK, getPinToken finds the PIN right exactly for the new hash. |
| PinOutcomes.HashesAreKept | src/client_pin.c:655-805 | No other command, commit or reboot makes up a hash. |
| PinOutcomes.VerifyAuthOutcome | src/client_pin.c:774-805 | Every answer to a pinUvAuthParam, for every protocol, parameter and token; the PIN state is never touched. |
| PinStorage.CallWrites | src/client_pin.c:513-719 | A PIN call writes the PIN state at most once, and nothing else about it reaches the state in RAM or in flash. |
| PinStorage.ActionIsCall | src/credential_store.c:1310-1486 | Every PIN call, and every other operation, failure, cut and reboot of the store, acts on the PIN state in RAM and in flash as one call of the PIN protocol model. |
| PinStorage.RunIsPinRun | src/credential_store.c:1310-1486 | Over every run on the store, the PIN state in RAM and the one a reboot recovers are those of a run of the PIN protocol model, call for call. |
| PinStorage.BlockedOnStoreIff | src/client_pin.c:667-669 | A device whose PIN is blocked in RAM blocks it in every continuation of its store exactly if the flash holds the exhausted counter. |
| PinStorage.LastRetryNotStored | src/client_pin.c:513-524 | A last wrong PIN whose write fails is answered PIN_BLOCKED and is not blocked for good. |
| Assertions.MatchingIff | src/webauthn.c:1408-1429 | The collected slots are the matching discoverable credentials, ascending, and all of them as long as they fit. |
| Assertions.DoKeepsSafe | src/webauthn.c:1524-1693 | Whatever happens, each slot a pending assertion remembers is empty or a discoverable credential of the relying party asked for. |
| Assertions.NextTakesFirst | src/webauthn.c:1661-1693 | getNextAssertion answers with the first remaining slot or forgets the rest, and with nothing remaining it is NOT_ALLOWED. |
| Assertions.NextYieldsRemaining | src/webauthn.c:1661-1693 | Answered getNextAssertions yield the remaining slots in order, each once, then NOT_ALLOWED. |
| Assertions.AssertionLeavesTheRest | src/webauthn.c:1622-1658 | A successful getAssertion answers with the first matching slot and leaves exactly the others. |
| Assertions.EveryMatchAnsweredOnce | src/webauthn.c:1568-1693 | getAssertion and the getNextAssertions after it answer with every matching slot exactly once, ascending, and then no more. |
| AssertionAnswers.AllowListAnswer | src/webauthn.c:1593-1618 | A getAssertion with an allow list is answered exactly if the lowest credential with the listed id is the relying party's, the user agrees and nothing else fails; it answers and counts that credential and leaves nothing pending. |
| AssertionAnswers.OpenAnswer | src/webauthn.c:1620-1658 | Without one, exactly if there is a discoverable credential of the relying party and the user agrees; it answers and counts the lowest. |
| AssertionAnswers.RefusedAllowList | src/webauthn.c:1593-1610 | What a refused one answers: no such credential, the user, the signature; and that nothing was written. |
| AssertionAnswers.RefusedOpen | src/webauthn.c:1620-1645 | The same without an allow list. |
| AssertionAnswers.UnparsedAssertion | src/webauthn.c:1583-1591 | A request that does not parse, or whose key cannot be computed, only forgets what was pending. |
| AssertionAnswers.NextAnswer | src/webauthn.c:1661-1693 | getNextAssertion answers exactly while something is left and at most 30 s have passed, with the next slot, and forgets everything when it fails or nothing is left. |
| AssertionAnswers.NextWithParameters | src/webauthn.c:1668-1671 | A getNextAssertion with parameters is refused and changes nothing. |
| AssertionAnswers.CreationNeedsUser | src/webauthn.c:1506-1566 | makeCredential stores exactly the record, in the lowest free slot, only for a request that parsed, a user who agreed and keys that could be made; a refusal answers its own status and leaves the store. |
| AssertionAnswers.NoCredentialWithoutUser | src/webauthn.c:1526-1530 | The store changes, or makeCredential reports success, only with the user's consent. |
| AssertionAnswers.PendingWasStarted | src/webauthn.c:1646-1657 | Over every run, what is pending was started by the latest getAssertion, one without an allow list that was answered. |
| AssertionAnswers.AnswersServe | src/webauthn.c:1568-1693 | Over every run, every slot answered holds a credential of exactly the relying party asked for. |
| AssertionAnswers.CreationsAreConsented | src/webauthn.c:1506-1566 | Over every run, credentials created are at most the makeCredentials the user agreed to. |
| AssertionAnswers.RefusedCreationWritesNothing | src/webauthn.c:1526-1545 | Power lost during a refused makeCredential finds nothing being written. |
| AssertionRuns.RunIsSafe | src/webauthn.c:1524-1693 | Pending-assertion safety holds in every state of every run of commands, writes, cuts and restarts. |
| AssertionRuns.RecentFollows | src/webauthn.c:167-232 | The kept confirmation is armed only by an answered, confirmed assertion, and is gone after one reuse, a makeCredential or a restart. |
| AssertionRuns.UserPresenceAccounting | src/webauthn.c:1568-1658 | Over any run, answered getAssertions are at most twice the confirmations obtained for them. |
| AssertionRuns.AnsweredIsCovered | src/webauthn.c:183-232 | Every answered getAssertion was confirmed itself or is covered by one earlier confirmation with the same key within 1200 ms that nothing else used. |
| AssertionRuns.AnsweredIsCoveredByEqualRequest | src/webauthn.c:178-181 | With an injective hash, the covering confirmation was for an equal parsed request. |
| AssertionRuns.LawfulSteps | src/webauthn.c:442-512 | What the parsers let through only makes store operations that the store theorems cover: a created record is a valid slot. |
| AssertionRuns.StoreRunBehind | src/webauthn.c:1431-1504 | Every run of commands is a run of the store in which every update writes one above the count it found. |
| AssertionRuns.AnswersNeverRepeat | src/webauthn.c:1431-1504 | For each credential, every count answered by getAssertion or getNextAssertion is strictly greater than all counts answered before, across power cuts and restarts. |
| WebAuthn.Authenticator.ConsumeRecent | src/webauthn.c:183-218 | A confirmation is reused exactly if it is at most 1200 ms old and for the same key, and is then gone; a mismatch keeps it. |
| WebAuthn.Authenticator.CollectMatchingSlots | src/webauthn.c:1408-1429 | The loop collects the matching slots in order up to 128. |
| WebAuthn.Authenticator.RespondWithAssertion | src/webauthn.c:1431-1504 | The counter is stored before an answer is built, and nothing is answered if it could not be. |
| WebAuthn.Authenticator.MakeCredential | src/webauthn.c:1506-1566 | A request that parses clears what was pending and kept before the user is asked; a rejected one changes nothing. |
| WebAuthn.Authenticator.GetAssertion | src/webauthn.c:1568-1659 | State, answer and whether the user was asked are those of the step the run theorems are about. |
| WebAuthn.Authenticator.GetNextAssertion | src/webauthn.c:1661-1693 | Expiry, exhaustion and failure all end the pending assertion; success moves on by one. |
| UserPresence.WaitForConfirmation | src/user_presence.c:149-235 | For any clock and button, the polling loop ends as the greedy recogniser over the rising edges seen in time; a success means the gesture is among them, and for one or two taps a failure means it is not. |
| UserPresence.ConfirmationNeedsGesture | src/user_presence.c:190-224 | A confirmation means that many rising edges in the trace before the timeout, all within the window of the first of them. |
| UserPresence.EdgesAreTaps | src/user_presence.c:185-216 | The edges the recogniser is given are the taps of the trace before the timeout, all of them, each once and in order; a button held down is no tap. |
| UserPresence.ConfirmedIffMade | src/user_presence.c:149-235 | Stated of the trace: a confirmation means that the user tapped as often as asked, before the timeout and within the window of the first tap; for one and two taps every such gesture is confirmed. |
| UserPresence.GestureIff | src/user_presence.c:190-224 | For one and two taps the recogniser succeeds exactly if the gesture was made. |
| UserPresence.RecognitionExactIff | src/user_presence.c:198-224 | For every number of taps and every window, the recogniser accepts exactly the gestures if and only if there are at most two taps or the window is empty. |
| UserPresence.ValidConfigExactIff | src/user_presence.c:198-224 | Of the configurations the store accepts, exactly those for one and two taps miss no gesture. |
| UserPresence.TripleTapCanBeMissed | src/user_presence.c:198-204 | An instance: a stray tap hides three taps in 300 ms from a window of 750 ms. |
| CredentialPages.JsonEscapeCopy | src/manager_channel.c:166-232 | Escaping succeeds exactly if the escaped text and its terminator fit. |
| CredentialPages.UnescapeEscape | src/manager_channel.c:178-227 | Escaping loses nothing and leaves no control character. |
| CredentialPages.ItemLength | src/manager_channel.c:782-863 | The worst escaped item fits its 768-byte buffer. |
| CredentialPages.ListingHidesSecrets | src/manager_channel.c:782-863 | Two records that differ only in secrets, user id, or the credential id behind its first eight bytes are listed alike. |
| CredentialPages.DecimalReads | src/manager_channel.c:782-863 | Numbers in the catalogue are read back from their digits. |
| CredentialPages.HexReads | src/manager_channel.c:310-326 | Bytes are read back from their hexadecimal digits. |
| CredentialPages.BuildPage | src/manager_channel.c:865-957 | Every page fits 1014 bytes and holds the next credentials in slot order, at least one if there is one, and says truly whether there are more. |
| CredentialPages.LoadedCountIsExact | src/credential_store.c:588-611 | In every loaded state the reported count is the number of valid slots. |
| CredentialPages.ValidSlotsIff | src/manager_channel.c:904-937 | The catalogue lists every valid slot exactly once, ascending. |
| CredentialPages.CollectCatalogue | native-rs/meowkey-manager/src/transport.rs:814-875 | The host's cursor loop ends, never reports a stuck cursor, and has collected every credential exactly once, in slot order. |
| CatalogueText.ItemRead | src/manager_channel.c:782-863 | A JSON reader gets back from one item exactly what it shows of the credential: slot, lengths, count, flags, id prefix and names, whatever bytes the names hold. |
| CatalogueText.PageRead | src/manager_channel.c:865-957 | The same reader gets back from a page its position and totals and exactly the credentials of its slots, in order, whatever text they hold. |

## Left out

- Import of version 1 to 5 stores: the first version-6 commit erases slot 0, which can overlap the old image, so crash atomicity does not extend to it; boot starts from an empty or version-6 store.
- StoreFormat.LoadPrepared: does not model the crypto library failing while a slot is loaded; while a slot is written it can fail (`wrapOk`).
- CredentialStore.CredentialStore.AddCredential: the exact new state is stated for sound flash; on a chip whose verification fails only the RAM image is stated.
- CrashSafety.JournalOpsCut: of a torn erase of the journal, `OldEntriesUnclaimed` is assumed; CrashSafety.NewContentRecoveredIff says what happens without it.
- SignCounts.CountsNeverRepeat: needs that no count is written behind a journal that is not in use; UnboundJournal.UnboundCountRepeats shows that it fails otherwise.
- DeviceCbor.CborReader.SkipOne: `size_t` is a mathematical integer in the reader class; DeviceCbor.SkipIsExactIff states exactly when 32-bit skipping agrees, and what follows once an offset has wrapped is not modelled.
- HostCbor.DecodeValue: stack depth and the memory reserved for announced lengths are not modelled; UTF-8 validity is an arbitrary predicate.
- HidExchange.ResponseArrives: the ten-second timeout is the end of the stream; streams with keepalives are those of HidExchange.ResponseArrivesIff.
- CtapHid.HidInterface.HandleReport: the CBOR and diagnostics handlers are arbitrary functions of the request, and the keepalives sent while the user is waited for are not modelled.
- ClientPin.Authenticator.HandleGetPinToken: the request is given parsed; getRetries and getKeyAgreement, which change nothing, are left out.
- ManagerChannel.Channel.Receive: a response text that does not fit its page is not modelled outside the credential catalogue.
- Assertions.DoKeepsSafe: parsing of the request maps is summarised by its result, and the cryptographic steps before and after the counter update by their status; signing with an empty private key is taken to fail, as the elliptic-curve library does.
- The clocks, the random numbers, the button and the board id are parameters; USB, GPIO, LED, OTP and logging are left out.
- The session override of the user-presence configuration, the snapshot and security-state texts, the debug diagnostics, getInfo, the device reader's calls for text, booleans, arrays and maps, and the host's caches and user interface: they would only add easy members.
