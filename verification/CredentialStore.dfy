/** The credential store as the firmware runs it: one object whose methods erase, program and verify flash and
    edit the RAM image. Every method is proved to compute exactly the functions of StoreSpec.dfy, and to issue
    exactly the flash operations whose interruption CrashSafety.dfy and StoreRuns.dfy analyse. */
module CredentialStore {
  import opened Bits
  import opened NorFlash
  import opened StoreFormat
  import opened SignCountJournal
  import opened StoreSpec
  import opened SecretWrapping
  import opened CrashSafety

  class CredentialStore {
    const p: Platform
    const se: SecureElement

    /** What the chip really leaves in a region: the operation's number, the operation, and the cells before. */
    const chip: (nat, FlashOp, seq<byte>) -> seq<byte>

    var flash: Flash
    var writes: nat
    ghost var log: seq<FlashOp>

    var store: Payload
    var loaded: bool
    var generation: u32
    var payloadCrc: u32
    var active: int
    var journal: JournalState

    /** The hypothesis that no flash operation fails. */
    ghost predicate Sound() {
      forall n: nat, op, cells :: chip(n, op, cells) == CellsAfter(cells, op)
    }

    ghost predicate Valid()
      reads this
    {
      FlashShaped(p, flash) && Shaped(p, store) && -1 <= active <= 1 && journal.nextIndex <= CAPACITY
    }

    ghost function ToRam(): Ram
      reads this
    {
      Ram(store, generation, payloadCrc, active, journal)
    }

    ghost function ToDevice(): Device
      reads this
    {
      Device(flash, ToRam())
    }

    /** What every operation starts from: a store not loaded yet boots first. */
    ghost function Started(boot: Entropy): (d: Device)
      requires Valid()
      ensures Sane(p, d)
      reads this
    {
      hide Boot;
      BootIsSane(p, flash, boot);
      if loaded then ToDevice() else Boot(p, flash, boot)
    }

    ghost function BootOps(boot: Entropy): seq<FlashOp>
      requires Valid()
      reads this
    {
      var b := BootRam(p, flash);
      if !loaded && b.changed && boot.wrapOk then CommitOps(p, b.ram, boot.salt) else []
    }

    /** Power comes up: nothing is loaded yet. */
    constructor (p: Platform, se: SecureElement, chip: (nat, FlashOp, seq<byte>) -> seq<byte>, flash: Flash)
      requires FlashShaped(p, flash)
      ensures Valid() && !loaded
      ensures this.p == p && this.se == se && this.chip == chip && this.flash == flash && log == []
    {
      this.p, this.se, this.chip := p, se, chip;
      this.flash, writes, log := flash, 0, [];
      loaded := false;
      store, generation, payloadCrc, active, journal := DefaultPayload(p), 0, 0, -1, RESET_STATE;
    }

    /** flash_range_erase and flash_range_program */
    method Operate(op: FlashOp)
      requires FlashShaped(p, flash)
      modifies this`flash, this`writes, this`log
      ensures log == old(log) + [op]
      ensures FlashShaped(p, flash) && flash == old(flash).With(op.region, flash.Read(op.region))
      ensures Sound() ==> flash == Apply(old(flash), op)
    {
      var cells := flash.Read(op.region);
      var after := chip(writes, op, cells);
      flash := flash.With(op.region, if |after| == |cells| then after else CellsAfter(cells, op));
      writes := writes + 1;
      log := log + [op];
    }

    /** The erase and every page but the header's. */
    method ProgramBody(region: Region, image: seq<byte>)
      requires FlashShaped(p, flash) && |image| == p.ImageSize()
      modifies this`flash, this`writes, this`log
      ensures FlashShaped(p, flash) && flash == old(flash).With(region, flash.Read(region))
      ensures log == old(log) + [Erase(region)] + PagePrograms(region, image, 1, 16 * p.slotSectors)
      ensures Sound() ==> flash == BeforeHeader(p, old(flash), region, image)
    {
      hide Sound, ApplyAll, Apply, CellsAfter;
      Operate(Erase(region));
      ghost var erased, before := flash, log;
      NoPages(erased, region, image);
      var page := 1;
      while page < 16 * p.slotSectors
        invariant 1 <= page <= 16 * p.slotSectors
        invariant FlashShaped(p, flash) && flash == old(flash).With(region, flash.Read(region))
        invariant log == before + PagePrograms(region, image, 1, page)
        invariant Sound() ==> flash == ApplyAll(erased, PagePrograms(region, image, 1, page))
      {
        var op := Program(region, 256 * page, image[256 * page..256 * (page + 1)]);
        PageProgramsAppend(region, image, 1, page);
        ApplyAllAppend(erased, PagePrograms(region, image, 1, page), op);
        Operate(op);
        page := page + 1;
      }
    }

    /** store_program_slot: everything but the header page, verify, the header page, verify. Whatever the chip
        does, success means that the slot holds the image. */
    method ProgramSlot(region: Region, image: seq<byte>) returns (ok: bool)
      requires FlashShaped(p, flash) && |image| == p.ImageSize() && region != Journal
      modifies this`flash, this`writes, this`log
      ensures FlashShaped(p, flash) && flash == old(flash).With(region, flash.Read(region))
      ensures ok ==> flash.Read(region) == image && log == old(log) + SlotOps(p, region, image)
      ensures Sound() ==> ok
    {
      hide Sound, ApplyAll, Apply, BeforeHeader, CellsAfter, PagePrograms;
      ProgramBody(region, image);
      BodyVerifies(p, old(flash), region, image);
      HeaderPageCompletes(p, old(flash), region, image);
      if flash.Read(region)[256..] != image[256..] {
        return false;
      }
      Operate(Program(region, 0, image[..256]));
      ok := flash.Read(region) == image;
    }

    /** store_commit_payload: on success the target slot holds the wrapped RAM image, and RAM says so; on
        failure RAM and the active slot are untouched. */
    method CommitPayload(e: Entropy) returns (ok: bool)
      requires Valid()
      modifies this`flash, this`writes, this`log, this`generation, this`payloadCrc, this`active
      ensures Valid()
      ensures var target := SlotRegion(TargetSlot(old(active)));
        var image := PrepareImage(p, store, Successor(old(generation)), e.salt);
        && flash == old(flash).With(target, flash.Read(target))
        && (ok ==> flash.Read(target) == image && log == old(log) + SlotOps(p, target, image))
      ensures ok ==> ToRam() == CommittedRam(p, old(ToRam()), e.salt).(journal := journal)
      ensures !ok ==> ToRam() == old(ToRam())
      ensures Sound() ==> ok == e.wrapOk
      ensures !e.wrapOk ==> !ok && flash == old(flash) && log == old(log)
    {
      hide Sound, PrepareImage, SlotOps, ImageCrc;
      if !e.wrapOk {
        return false;
      }
      var target := TargetSlot(active);
      var image := PrepareImage(p, store, Successor(generation), e.salt);
      ok := ProgramSlot(SlotRegion(target), image);
      if !ok {
        return;
      }
      active := target;
      generation := Successor(generation);
      payloadCrc := ImageCrc(p, store, e.salt);
    }

    /** sign_count_journal_erase_and_initialize */
    method JournalEraseAndInitialize()
      requires Valid()
      modifies this`flash, this`writes, this`log, this`journal
      ensures Valid() && log == old(log) + JournalInitOps(old(ToRam()))
      ensures flash == old(flash).(journal := flash.journal)
      ensures ToRam() == old(ToRam()).(journal := if active < 0 then RESET_STATE else JournalState(true, 1, 0))
      ensures Sound() ==> ToDevice() == JournalInit(old(ToDevice()))
    {
      hide Sound, FirstPage, ApplyAll, Apply, CellsAfter;
      if active < 0 {
        journal := RESET_STATE;
        NoOps(flash);
        return;
      }
      JournalOpsSplit(flash, generation, payloadCrc);
      var firstPage := FirstPage(generation, payloadCrc);
      Operate(Erase(Journal));
      Operate(Program(Journal, 0, firstPage));
      journal := JournalState(true, 1, 0);
    }

    /** store_commit_transaction: the slot first, then the journal bound to it. */
    method CommitTransaction(e: Entropy) returns (ok: bool)
      requires Valid()
      modifies this`flash, this`writes, this`log, this`generation, this`payloadCrc, this`active, this`journal
      ensures Valid()
      ensures ok ==> ToRam() == CommittedRam(p, old(ToRam()), e.salt)
      ensures ok ==> log == old(log) + CommitOps(p, old(ToRam()), e.salt)
      ensures ok ==> flash.Read(SlotRegion(active)) == PrepareImage(p, store, generation, e.salt)
      ensures !ok ==> ToRam() == old(ToRam())
      ensures old(active) >= 0 ==> flash.Read(SlotRegion(old(active))) == old(flash).Read(SlotRegion(old(active)))
      ensures !ok && e.wrapOk ==> !Sound()
      ensures !e.wrapOk ==> !ok && log == old(log) && flash == old(flash)
      ensures Sound() ==> Outcome(ok, ToDevice()) == Commit(p, old(ToDevice()), e)
    {
      hide Sound, PrepareImage, SlotOps, JournalOps, ImageCrc, ApplyAll;
      ok := CommitPayload(e);
      if !ok {
        return;
      }
      ghost var target := SlotRegion(TargetSlot(old(active)));
      ghost var image := PrepareImage(p, store, generation, e.salt);
      SlotOpsWrite(p, old(flash), target, image);
      ApplyAllConcat(old(flash), SlotOps(p, target, image), JournalOps(generation, payloadCrc));
      JournalEraseAndInitialize();
    }

    /** sign_count_journal_ensure_ready, then sign_count_journal_compact when the journal is full */
    method EnsureRoomForEntry(e: Entropy) returns (ok: bool)
      requires Valid()
      modifies this`flash, this`writes, this`log, this`generation, this`payloadCrc, this`active, this`journal
      ensures Valid() && store == old(store) && (ok ==> journal.nextIndex < CAPACITY)
      ensures Sound() ==> Outcome(ok, ToDevice()) == EnsureRoom(p, old(ToDevice()), e)
      ensures Sound() ==> log == old(log) + EnsureRoomOps(p, old(ToDevice()), e)
    {
      hide Sound, CommitOps, JournalOps, ApplyAll, PrepareImage, ImageCrc, SlotShaped;
      if !journal.ready {
        JournalEraseAndInitialize();
      }
      ok := true;
      if journal.nextIndex >= CAPACITY {
        ok := CommitTransaction(e);
      }
    }

    /** sign_count_journal_append: the page is read back, the entry patched in, the page programmed again. */
    method JournalAppend(index: u16, count: u32, e: Entropy) returns (ok: bool)
      requires Valid()
      modifies this`flash, this`writes, this`log, this`generation, this`payloadCrc, this`active, this`journal
      ensures Valid() && store == old(store)
      ensures Sound() ==> Outcome(ok, ToDevice()) == Append(p, old(ToDevice()), index, count, e)
      ensures Sound() ==> log == old(log) + AppendOps(p, old(ToDevice()), index, count, e)
    {
      hide Sound, EnsureRoom, EnsureRoomOps, EntryBlank, EntryBytes, CellsAfter, SlotShaped;
      ok := EnsureRoomForEntry(e);
      if !ok {
        return;
      }
      var entry := NewEntry(index, count, journal.nextSequence);
      var page := EntryOffset(journal.nextIndex) / 256 * 256;
      var at := EntryOffset(journal.nextIndex) - page;
      var buffer := flash.journal[page..page + 256];
      SamePage(flash.journal, journal.nextIndex);
      if !EntryBlank(buffer[at..at + ENTRY_SIZE]) {
        return false;
      }
      buffer := buffer[..at] + EntryBytes(entry) + buffer[at + ENTRY_SIZE..];
      Operate(Program(Journal, page, buffer));
      journal := JournalState(journal.ready, Successor(journal.nextSequence), journal.nextIndex + 1);
    }

    /** sign_count_journal_load_if_present: every live entry is replayed into the RAM image. */
    method JournalLoadIfPresent()
      requires Valid()
      modifies this`store, this`journal
      ensures Valid()
      ensures var bound := active >= 0 && Bound(flash.journal, generation, payloadCrc);
        var entries := if bound then LiveEntries(flash.journal, 0) else [];
        && store == old(store).(slots := ReplayLog(old(store).slots, entries))
        && journal == if bound then JournalState(true, SequenceAfter(1, entries), |entries|) else RESET_STATE
    {
      hide SlotValid, SlotShaped, EntryLive, EntryAt, Bound, ReplayLog, ReplayEntry, SequenceAfter, LiveEntries,
        NextSequence;
      NothingReplayed(store.slots);
      journal := RESET_STATE;
      if active < 0 || !Bound(flash.journal, generation, payloadCrc) {
        return;
      }
      journal := journal.(ready := true);
      ghost var entries, done := LiveEntries(flash.journal, 0), [];
      var index := 0;
      while index < CAPACITY
        invariant 0 <= index <= CAPACITY && |done| == index
        invariant entries == done + LiveEntries(flash.journal, index)
        invariant store == old(store).(slots := ReplayLog(old(store).slots, done)) && Shaped(p, store)
        invariant journal == JournalState(true, SequenceAfter(1, done), index)
      {
        LiveEntriesStep(flash.journal, index);
        if !EntryLive(flash.journal, index) {
          assert entries == done;
          return;
        }
        var entry := EntryAt(flash.journal, index);
        ReplayLogAppend(old(store).slots, done, entry);
        SequenceAfterAppend(1, done, entry);
        ReplayEntryShaped(p, store, entry);
        assert done + ([entry] + LiveEntries(flash.journal, index + 1))
          == (done + [entry]) + LiveEntries(flash.journal, index + 1);
        done := done + [entry];
        store := store.(slots := ReplayEntry(store.slots, entry));
        index := index + 1;
        journal := JournalState(true, NextSequence(journal.nextSequence, entry), index);
      }
      LiveEntriesEnd(flash.journal);
      assert entries == done;
    }

    /** store_sanitize_slots */
    method SanitizeStoredSlots() returns (changed: bool)
      requires Valid()
      modifies this`store
      ensures Valid() && store == SanitizeSlots(p, old(store)) && changed == (store != old(store))
    {
      hide SlotValid, SlotShaped, ValidCount;
      NoneValid(store.slots[..0]);
      ghost var before := store.slots;
      var index, validCount := 0, 0;
      changed := false;
      while index < p.maxCredentials
        invariant 0 <= index <= p.maxCredentials && Shaped(p, store)
        invariant store == old(store).(slots := store.slots)
        invariant forall j :: 0 <= j < p.maxCredentials ==>
          store.slots[j] == if j < index then SanitizeSlot(before[j]) else before[j]
        invariant validCount == ValidCount(store.slots[..index])
        invariant changed == (store.slots != before)
      {
        var slot := store.slots[index];
        if SlotValid(slot) {
          validCount := validCount + 1;
        } else if slot.inUse != 0 {
          assert EmptySlot().inUse == 0;
          store := store.(slots := store.slots[index := EmptySlot()]);
          assert store.slots[index] != before[index];
          changed := true;
        }
        CountNext(store.slots, index);
        index := index + 1;
      }
      assert store.slots[..index] == store.slots;
      assert store.slots == SanitizeSlots(p, old(store)).slots;
      if store.credentialCount != validCount {
        store := store.(credentialCount := validCount);
        changed := true;
      }
    }

    /** store_sanitize_user_presence_config and the PIN retries check behind it */
    method SanitizeStoredSettings() returns (changed: bool)
      requires Valid()
      modifies this`store
      ensures Valid() && store == SanitizePin(SanitizeUp(p, old(store)))
      ensures changed == (store != old(store))
    {
      changed := false;
      if !UpConfigValid(store.userPresence) || !UpTrusted(p, store) {
        MarkedUpDiffers(p, store);
        store := MarkUp(p, store, p.defaultUp);
        changed := true;
      }
      if store.pinRetries == 0 && store.pinConfigured == 0 {
        store := store.(pinRetries := PIN_RETRIES_DEFAULT);
        changed := true;
      }
    }

    /** The newest of the two slots that load. */
    method FindNewestSlot() returns (best: Option<Chosen>)
      requires Valid()
      ensures best == SelectSlot(p, flash)
    {
      hide LoadSlot;
      best := None;
      for index := 0 to 2
        invariant index == 0 ==> best == None
        invariant index == 1 ==>
          best == match LoadSlot(p, flash.slot0) case None => None case Some(l) => Some(Chosen(0, l))
        invariant index == 2 ==> best == SelectSlot(p, flash)
      {
        var candidate := LoadSlot(p, flash.Read(SlotRegion(index)));
        if candidate.Some? && (best.None? || candidate.value.generation > best.value.loaded.generation) {
          best := Some(Chosen(index, candidate.value));
        }
      }
    }

    /** store_load_if_needed, up to the commit of a repaired image */
    method LoadImage() returns (changed: bool)
      requires Valid()
      modifies this`store, this`loaded, this`generation, this`payloadCrc, this`active, this`journal
      ensures Valid() && loaded
      ensures Booted(ToRam(), changed) == BootRam(p, flash)
    {
      hide LoadSlot, SanitizeSlots, SanitizeUp, SanitizePin, Pack, Bound, ReplayLog, LiveEntries, SlotShaped,
        SlotValid;
      store, generation, active, journal := DefaultPayload(p), 0, -1, RESET_STATE;
      payloadCrc := p.crc(Pack(p, store));
      var best := FindNewestSlot();
      changed := false;
      if best.Some? {
        store := best.value.loaded.payload;
        generation, payloadCrc, active := best.value.loaded.generation, best.value.loaded.payloadCrc, best.value.index;
        changed := !best.value.loaded.wrapped;
      }
      ghost var read := store;
      var slotsChanged := SanitizeStoredSlots();
      var settingsChanged := SanitizeStoredSettings();
      RepairsAreVisible(p, read);
      changed := changed || slotsChanged || settingsChanged;
      if best.Some? {
        JournalLoadIfPresent();
        payloadCrc := p.crc(Pack(p, store));
      } else {
        journal := RESET_STATE;
      }
      loaded := true;
    }

    /** store_load_if_needed */
    method LoadIfNeeded(boot: Entropy)
      requires Valid()
      modifies this`flash, this`writes, this`log, this`store, this`loaded, this`generation, this`payloadCrc,
        this`active, this`journal
      ensures Valid() && loaded
      ensures Sound() ==> ToDevice() == old(Started(boot)) && log == old(log) + old(BootOps(boot))
      ensures old(loaded) ==> ToDevice() == old(ToDevice()) && log == old(log)
    {
      hide Sound, BootRam, CommitOps, SlotShaped;
      if loaded {
        return;
      }
      var changed := LoadImage();
      if changed {
        var _ := CommitTransaction(boot);
      }
    }

    /** meowkey_store_add_credential: the first slot that is not valid takes the record. */
    method AddCredential(record: Record, boot: Entropy, e: Entropy) returns (ok: bool, index: nat)
      requires Valid() && RecordShaped(record)
      modifies this
      ensures Valid() && loaded
      ensures Sound() ==> Outcome(ok, ToDevice()) == Exec(p, old(Started(boot)), Add(SlotOfRecord(se, record)), e)
      ensures Sound() ==>
        log == old(log) + old(BootOps(boot)) + ExecOps(p, old(Started(boot)), Add(SlotOfRecord(se, record)), e)
      ensures !ok && old(loaded) ==> store == AfterFailure(p, old(store), Add(SlotOfRecord(se, record)))
      ensures ok ==> index < p.maxCredentials && store.slots[index] == SlotOfRecord(se, record)
    {
      hide Sound, BootRam, Boot, CommitOps, Commit, ApplyAll, SlotShaped, SlotValid, PrepareImage, ImageCrc,
        SlotOfRecord;
      LoadIfNeeded(boot);
      ok, index := false, 0;
      while index < p.maxCredentials
        invariant 0 <= index <= p.maxCredentials
        invariant FirstFree(store.slots, 0) == FirstFree(store.slots, index)
      {
        if !SlotValid(store.slots[index]) {
          break;
        }
        index := index + 1;
      }
      if index == p.maxCredentials {
        return;
      }
      ghost var before := store;
      store := store.(slots := store.slots[index := SlotOfRecord(se, record)],
                      credentialCount := Successor(store.credentialCount));
      ok := CommitTransaction(e);
      if !ok {
        store := store.(slots := store.slots[index := EmptySlot()],
                       credentialCount := Predecessor(store.credentialCount));
      }
    }

    /** meowkey_store_update_sign_count */
    method UpdateSignCount(index: nat, count: u32, boot: Entropy, e: Entropy) returns (ok: bool)
      requires Valid()
      modifies this
      ensures Valid() && loaded
      ensures Sound() ==> Outcome(ok, ToDevice()) == Exec(p, old(Started(boot)), UpdateCount(index, count), e)
      ensures Sound() ==>
        log == old(log) + old(BootOps(boot)) + ExecOps(p, old(Started(boot)), UpdateCount(index, count), e)
      ensures !ok && old(loaded) ==> store == AfterFailure(p, old(store), UpdateCount(index, count))
    {
      hide Sound, BootRam, Boot, CommitOps, Commit, ApplyAll, SlotShaped, SlotValid, PrepareImage, ImageCrc, Append,
        AppendOps;
      LoadIfNeeded(boot);
      if index >= p.maxCredentials || !SlotValid(store.slots[index]) {
        return false;
      }
      var previous := store.slots[index].signCount;
      EffectShaped(p, store, UpdateCount(index, count));
      store := store.(slots := store.slots[index := store.slots[index].(signCount := count)]);
      ok := JournalAppend(index, count, e);
      if !ok {
        store := store.(slots := store.slots[index := store.slots[index].(signCount := previous)]);
      }
    }

    /** meowkey_store_delete_credential_by_slot */
    method DeleteCredentialBySlot(index: nat, boot: Entropy, e: Entropy) returns (ok: bool)
      requires Valid()
      modifies this
      ensures Valid() && loaded
      ensures Sound() ==> Outcome(ok, ToDevice()) == Exec(p, old(Started(boot)), Delete(index), e)
      ensures Sound() ==>
        log == old(log) + old(BootOps(boot)) + ExecOps(p, old(Started(boot)), Delete(index), e)
      ensures !ok && old(loaded) ==> store == AfterFailure(p, old(store), Delete(index))
    {
      hide Sound, BootRam, Boot, CommitOps, Commit, ApplyAll, SlotShaped, SlotValid, PrepareImage, ImageCrc, Append,
        AppendOps;
      LoadIfNeeded(boot);
      if index >= p.maxCredentials || !SlotValid(store.slots[index]) {
        return false;
      }
      var previousSlot, previousCount := store.slots[index], store.credentialCount;
      store := store.(slots := store.slots[index := EmptySlot()]);
      if store.credentialCount > 0 {
        store := store.(credentialCount := store.credentialCount - 1);
      }
      ok := CommitTransaction(e);
      if !ok {
        store := store.(slots := store.slots[index := previousSlot], credentialCount := previousCount);
      }
    }

    /** meowkey_store_clear_credentials: nothing is restored on failure. */
    method ClearCredentials(boot: Entropy, e: Entropy) returns (ok: bool)
      requires Valid()
      modifies this
      ensures Valid() && loaded
      ensures Sound() ==> Outcome(ok, ToDevice()) == Exec(p, old(Started(boot)), Clear, e)
      ensures Sound() ==>
        log == old(log) + old(BootOps(boot)) + ExecOps(p, old(Started(boot)), Clear, e)
      ensures !ok && old(loaded) ==> store == AfterFailure(p, old(store), Clear)
    {
      hide Sound, BootRam, Boot, CommitOps, Commit, ApplyAll, SlotShaped, SlotValid, PrepareImage, ImageCrc, Append,
        AppendOps;
      LoadIfNeeded(boot);
      store := store.(slots := seq(|store.slots|, i => EmptySlot()), credentialCount := 0);
      ok := CommitTransaction(e);
    }

    /** meowkey_store_set_pin_state: nothing is restored on failure. */
    method SetPinState(configured: bool, retries: byte, hash: Bytes16, boot: Entropy, e: Entropy) returns (ok: bool)
      requires Valid()
      modifies this
      ensures Valid() && loaded
      ensures Sound() ==> Outcome(ok, ToDevice()) == Exec(p, old(Started(boot)), SetPin(configured, retries, hash), e)
      ensures Sound() ==>
        log == old(log) + old(BootOps(boot)) + ExecOps(p, old(Started(boot)), SetPin(configured, retries, hash), e)
      ensures !ok && old(loaded) ==> store == AfterFailure(p, old(store), SetPin(configured, retries, hash))
    {
      hide Sound, BootRam, Boot, CommitOps, Commit, ApplyAll, SlotShaped, SlotValid, PrepareImage, ImageCrc, Append,
        AppendOps;
      LoadIfNeeded(boot);
      store := store.(pinConfigured := if configured then 1 else 0, pinRetries := retries, pinHash := hash);
      ok := CommitTransaction(e);
    }

    /** meowkey_store_set_user_presence_config: an invalid configuration does not even load the store, and
        nothing is restored on failure. */
    method SetUserPresenceConfig(config: UpConfig, boot: Entropy, e: Entropy) returns (ok: bool)
      requires Valid()
      modifies this
      ensures Valid()
      ensures UpConfigValid(config) ==> loaded
      ensures UpConfigValid(config) && Sound() ==>
        && Outcome(ok, ToDevice()) == Exec(p, old(Started(boot)), SetUp(config), e)
        && log == old(log) + old(BootOps(boot)) + ExecOps(p, old(Started(boot)), SetUp(config), e)
      ensures !UpConfigValid(config) ==>
        !ok && ToDevice() == old(ToDevice()) && loaded == old(loaded) && log == old(log)
      ensures !ok && old(loaded) ==> store == AfterFailure(p, old(store), SetUp(config))
    {
      hide Sound, BootRam, Boot, CommitOps, Commit, ApplyAll, SlotShaped, SlotValid, PrepareImage, ImageCrc, Append,
        AppendOps;
      if !UpConfigValid(config) {
        return false;
      }
      LoadIfNeeded(boot);
      store := MarkUp(p, store, config);
      ok := CommitTransaction(e);
    }

    /** meowkey_store_find_by_credential_id: the lowest valid slot holding exactly this id. */
    method FindByCredentialId(id: seq<byte>, boot: Entropy) returns (found: bool, index: nat, record: Record)
      requires Valid()
      modifies this
      ensures Valid() && loaded && (Sound() ==> ToDevice() == old(Started(boot)))
      ensures found ==>
        index < |store.slots| && HoldsId(store.slots[index], id) && record == RecordOfSlot(se, store.slots[index])
      ensures forall i :: 0 <= i < (if found then index else |store.slots|) ==> !HoldsId(store.slots[i], id)
    {
      hide Sound, BootRam, Boot, SlotShaped, SlotOfRecord;
      LoadIfNeeded(boot);
      found, index, record := false, 0, EMPTY_RECORD;
      while index < p.maxCredentials
        invariant 0 <= index <= p.maxCredentials
        invariant forall i :: 0 <= i < index ==> !HoldsId(store.slots[i], id)
      {
        if HoldsId(store.slots[index], id) {
          return true, index, RecordOfSlot(se, store.slots[index]);
        }
        index := index + 1;
      }
    }

    /** meowkey_store_find_by_rp_id: the lowest valid slot of exactly this relying party. */
    method FindByRpId(rpId: seq<byte>, boot: Entropy) returns (found: bool, index: nat, record: Record)
      requires Valid()
      modifies this
      ensures Valid() && loaded && (Sound() ==> ToDevice() == old(Started(boot)))
      ensures found ==>
        index < |store.slots| && HoldsRpId(store.slots[index], rpId) && record == RecordOfSlot(se, store.slots[index])
      ensures forall i :: 0 <= i < (if found then index else |store.slots|) ==> !HoldsRpId(store.slots[i], rpId)
    {
      hide Sound, BootRam, Boot, SlotShaped, SlotOfRecord;
      LoadIfNeeded(boot);
      found, index, record := false, 0, EMPTY_RECORD;
      while index < p.maxCredentials
        invariant 0 <= index <= p.maxCredentials
        invariant forall i :: 0 <= i < index ==> !HoldsRpId(store.slots[i], rpId)
      {
        if HoldsRpId(store.slots[index], rpId) {
          return true, index, RecordOfSlot(se, store.slots[index]);
        }
        index := index + 1;
      }
    }
  }

  function Predecessor(n: u32): u32 {
    if n == 0 then 0xffff_ffff else n - 1
  }

  /** The RAM image after an operation that failed, on any hardware. */
  ghost function AfterFailure(p: Platform, q: Payload, op: StoreOp): Payload {
    if Admissible(q, op) then Rollback(p, q, op) else q
  }

  /** A repair of the settings never undoes one of the slots: the image has changed if either has. */
  lemma RepairsAreVisible(p: Platform, q: Payload)
    requires Shaped(p, q)
    ensures var s := SanitizeSlots(p, q);
      Sanitize(p, q) == q <==> s == q && SanitizePin(SanitizeUp(p, s)) == s
  {
    hide SlotValid;
    var s := SanitizeSlots(p, q);
    var r := SanitizePin(SanitizeUp(p, s));
    assert r.slots == s.slots && r.credentialCount == s.credentialCount;
    assert s == q.(slots := s.slots, credentialCount := s.credentialCount);
  }

  /** The entry lies within one page. */
  lemma SamePage(b: seq<byte>, index: nat)
    requires |b| == JOURNAL_SIZE && index < CAPACITY
    ensures var page := EntryOffset(index) / 256 * 256;
      var at := EntryOffset(index) - page;
      page + 256 <= JOURNAL_SIZE && at + 16 <= 256 && b[page..page + 256][at..at + 16] == EntryCells(b, index)
  {
  }

  lemma {:induction false} SequenceAfterAppend(current: u32, log: seq<Entry>, e: Entry)
    ensures SequenceAfter(current, log + [e]) == NextSequence(SequenceAfter(current, log), e)
    decreases |log|
  {
    var whole := log + [e];
    if log == [] {
      assert whole[1..] == [];
    } else {
      assert whole[0] == log[0] && whole[1..] == log[1..] + [e];
      SequenceAfterAppend(NextSequence(current, log[0]), log[1..], e);
    }
  }

  lemma NothingReplayed(slots: seq<Slot>)
    ensures ReplayLog(slots, []) == slots && SequenceAfter(1, []) == 1
  {
  }

  lemma LiveEntriesStep(b: seq<byte>, index: nat)
    requires |b| == JOURNAL_SIZE && index < CAPACITY
    ensures LiveEntries(b, index)
         == if EntryLive(b, index) then [EntryAt(b, index)] + LiveEntries(b, index + 1) else []
  {
  }

  lemma LiveEntriesEnd(b: seq<byte>)
    requires |b| == JOURNAL_SIZE
    ensures LiveEntries(b, CAPACITY) == []
  {
  }

  lemma ReplayEntryShaped(p: Platform, q: Payload, e: Entry)
    requires Shaped(p, q)
    ensures Shaped(p, q.(slots := ReplayEntry(q.slots, e)))
  {
  }

  lemma NoneValid(slots: seq<Slot>)
    requires slots == []
    ensures ValidCount(slots) == 0
  {
  }

  lemma CountNext(slots: seq<Slot>, index: nat)
    requires index < |slots|
    ensures ValidCount(slots[..index + 1]) == ValidCount(slots[..index]) + if SlotValid(slots[index]) then 1 else 0
  {
    assert slots[..index + 1][..index] == slots[..index];
  }

  lemma NoOps(f: Flash)
    ensures ApplyAll(f, []) == f
  {
  }

  lemma NoPages(f: Flash, region: Region, image: seq<byte>)
    requires 256 <= |image|
    ensures PagePrograms(region, image, 1, 1) == [] && ApplyAll(f, PagePrograms(region, image, 1, 1)) == f
  {
  }

  lemma BodyVerifies(p: Platform, f: Flash, region: Region, image: seq<byte>)
    requires |image| == p.ImageSize() == |f.Read(region)|
    ensures BeforeHeader(p, f, region, image).Read(region)[256..] == image[256..]
  {
    hide ApplyAll, Spliced, PagePrograms;
    var erased := ErasedTarget(f, region);
    PagesWritten(erased, region, image, 1, 16 * p.slotSectors);
    SplicedTail(erased.Read(region), image, 256);
  }

  lemma SplicedTail(cells: seq<byte>, image: seq<byte>, lo: nat)
    requires lo <= |image| == |cells|
    ensures Spliced(cells, image, lo, |image|)[lo..] == image[lo..]
  {
  }
}
