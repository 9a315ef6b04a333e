/** A journal that is not bound to the active image: how a boot comes to find one, and exactly when an update
    behind it survives the next reboot. */
module UnboundJournal {
  import opened Bits
  import opened NorFlash
  import opened StoreFormat
  import opened SignCountJournal
  import opened StoreSpec
  import opened CrashSafety
  import opened JournalSafety
  import opened StoreOperations

  /** What a cut leaves between the two halves of a commit: the slot written, the journal erased. */
  function BetweenHalves(p: Platform, d: Device, q: Payload, salt: Bytes16): Flash
    requires Shaped(p, q)
  {
    ErasedJournal(d.flash.With(SlotRegion(TargetSlot(d.ram.active)),
                               PrepareImage(p, q, Successor(d.ram.generation), salt)))
  }

  /** A cut between the two halves of a commit is reachable from every good device. It boots without a bound
      journal, and the boot replaces the checksum of the encrypted payload by that of the plain one. */
  lemma UnboundBootIsReachable(p: Platform, d: Device, q: Payload, salt: Bytes16)
    requires Good(p, d) && Clean(p, q) && d.ram.generation < 0xffff_ffff
    ensures var t, target := BetweenHalves(p, d, q, salt), TargetSlot(d.ram.active);
      && FlashShaped(p, t)
      && PowerCut(p, d.flash, CommitOps(p, d.ram.(payload := q), salt), t)
      && var ram := BootRam(p, t).ram;
         && Good(p, Device(t, ram))
         && !ram.journal.ready && ram.active == target && ram.payload == q
         && ram.payloadCrc == p.crc(Pack(p, q))
         && Base(p, t, target).1 == p.crc(Crypt(p, salt, Pack(p, q), 0))
  {
    hide LoadSlot, Sanitize, PrepareImage, PowerCut, CommitOps, Pack, Crypt, SlotShaped;
    var edited := d.ram.(payload := q);
    var t := BetweenHalves(p, d, q, salt);
    CutBetweenHalves(p, d, q, salt);
    BlankHeaderUnreadable(t.journal);
    NewSlotChosen(p, d.flash, edited, salt, t);
    var ram := Replayless(CommittedRam(p, edited, salt), false);
    SyncedWithoutLog(p, t, ram);
    RebootRecovers(p, Device(t, ram));
  }

  lemma CutBetweenHalves(p: Platform, d: Device, q: Payload, salt: Bytes16)
    requires FlashShaped(p, d.flash) && Shaped(p, q)
    ensures PowerCut(p, d.flash, CommitOps(p, d.ram.(payload := q), salt), BetweenHalves(p, d, q, salt))
  {
    hide PrepareImage, ImageCrc, SlotOps, JournalOps, PowerCut, FirstPage, Apply;
    var g, target := Successor(d.ram.generation), SlotRegion(TargetSlot(d.ram.active));
    var image, crc := PrepareImage(p, q, g, salt), ImageCrc(p, q, salt);
    var slotOps, erase: seq<FlashOp>, rest := SlotOps(p, target, image), [Erase(Journal)], [FirstPageOp(g, crc)];
    SlotOpsWrite(p, d.flash, target, image);
    JournalOpsSplit(d.flash.With(target, image), g, crc);
    ApplyAllConcat(d.flash, slotOps, erase);
    assert slotOps + (erase + rest) == (slotOps + erase) + rest;
    CutBetween(p, d.flash, slotOps + erase, rest);
  }

  /** Power may be lost exactly between two parts of a sequence. */
  lemma {:induction false} CutBetween(p: Platform, f: Flash, a: seq<FlashOp>, b: seq<FlashOp>)
    requires b != [] ==> b[0] != Erase(Journal)
    ensures PowerCut(p, f, a + b, ApplyAll(f, a))
    decreases |a|
  {
    hide LoadSlot, Apply;
    if a == [] {
      assert a + b == b;
      if b != [] {
        InterruptedAtEnds(f, b[0]);
      }
    } else {
      assert (a + b)[0] == a[0] && (a + b)[1..] == a[1..] + b;
      CutBetween(p, Apply(f, a[0]), a[1..], b);
    }
  }

  /** The checksum held in RAM is the one the active image carries: true after a commit, and not after a boot
      that found no bound journal, unless the plain and the encrypted payload collide. */
  predicate KnowsImageCrc(p: Platform, d: Device)
    requires Good(p, d)
  {
    d.ram.payloadCrc == Base(p, d.flash, d.ram.active).1
  }

  /** The device whose unbound journal has just been renewed. */
  function Renewed(d: Device): Device {
    Device(d.flash.(journal := FreshJournal(d.ram.generation, d.ram.payloadCrc)),
           d.ram.(journal := JournalState(true, 1, 0)))
  }

  /** Renewed with the checksum the active image carries, the journal is bound and blank. */
  lemma RenewedIsGood(p: Platform, d: Device)
    requires Good(p, d) && !d.ram.journal.ready && d.ram.active >= 0 && KnowsImageCrc(p, d)
    ensures Good(p, Renewed(d))
  {
    hide Chooses, Synced, FreshJournal, LoadSlot, Base;
    FreshJournalReads(d.ram.generation, d.ram.payloadCrc);
    SameSlots(p, d, Renewed(d).flash);
    UnsyncedBase(p, d);
    SyncedWithoutLog(p, Renewed(d).flash, Renewed(d).ram);
  }

  /** Renewed with any other checksum, whatever is written behind the header is never replayed. */
  lemma RenewedIsIgnored(p: Platform, d: Device, f: Flash)
    requires Good(p, d) && !d.ram.journal.ready && d.ram.active >= 0 && !KnowsImageCrc(p, d)
    requires FlashShaped(p, f) && f.slot0 == d.flash.slot0 && f.slot1 == d.flash.slot1
    requires ReadJournalHeader(f.journal) == ReadJournalHeader(Renewed(d).flash.journal)
    ensures Good(p, Device(f, d.ram))
  {
    hide Chooses, Synced, FreshJournal, LoadSlot, Base;
    FreshJournalReads(d.ram.generation, d.ram.payloadCrc);
    UnsyncedBase(p, d);
    SameSlots(p, d, f);
    SyncedWithoutLog(p, f, d.ram);
  }

  lemma RenewedBoundUpdate(p: Platform, d: Device, index: nat, count: u32)
    requires Good(p, d) && Sane(p, d) && !d.ram.journal.ready && d.ram.active >= 0
    requires index < |d.ram.payload.slots| && SlotValid(d.ram.payload.slots[index]) && CanAppend(p, Renewed(d))
    requires KnowsImageCrc(p, d)
    ensures Good(p, Appended(p, Edited(Renewed(d), index, count), index, count))
    ensures Appended(p, Edited(Renewed(d), index, count), index, count).ram.payload
      == WithCount(d.ram.payload, index, count)
  {
    hide Chooses, Synced, SlotValid, SlotShaped, CanAppend, AppendFlashOp, FreshJournal;
    RenewedIsGood(p, d);
    AppendEdited(p, Renewed(d), index, count);
  }

  /** Only the journal is written, and the blank entry found stays the one the edited device finds. */
  lemma AppendedFlash(p: Platform, d: Device, index: nat, count: u32)
    requires FlashShaped(p, d.flash) && d.ram.journal.nextIndex < CAPACITY && CanAppend(p, d)
    requires index < |d.ram.payload.slots| && index < 0x1_0000
    ensures CanAppend(p, Edited(d, index, count))
    ensures var f := Appended(p, Edited(d, index, count), index, count).flash;
      && FlashShaped(p, f) && f.slot0 == d.flash.slot0 && f.slot1 == d.flash.slot1
      && ReadJournalHeader(f.journal) == ReadJournalHeader(d.flash.journal)
  {
    hide EntryBlank, EntryCells, WithEntry, EntryBytes, CellsAfter;
    var e := NewEntry(index, count, d.ram.journal.nextSequence);
    CompletedAppend(d.flash.journal, d.ram.journal.nextIndex, e);
    WithEntryReads(d.flash.journal, d.ram.journal.nextIndex, EntryBytes(e));
  }

  lemma RenewedUnboundUpdate(p: Platform, d: Device, index: nat, count: u32)
    requires Good(p, d) && Sane(p, d) && !d.ram.journal.ready && d.ram.active >= 0
    requires index < |d.ram.payload.slots| && SlotValid(d.ram.payload.slots[index]) && CanAppend(p, Renewed(d))
    requires !KnowsImageCrc(p, d)
    ensures Good(p, Device(Appended(p, Edited(Renewed(d), index, count), index, count).flash, d.ram))
  {
    hide Chooses, Synced, SlotValid, SlotShaped, CanAppend, Appended, FreshJournal, KnowsImageCrc;
    AppendedFlash(p, Renewed(d), index, count);
    RenewedIsIgnored(p, d, Appended(p, Edited(Renewed(d), index, count), index, count).flash);
  }

  lemma GoodRecovers(p: Platform, f: Flash, ram: Ram)
    requires Good(p, Device(f, ram))
    ensures FlashShaped(p, f) && Recover(p, f) == ram.payload
  {
    RebootRecovers(p, Device(f, ram));
  }

  /** A reboot recovers the new count from a bound journal and the old one from a journal that is not. */
  lemma RenewedUpdateRecovers(p: Platform, d: Device, index: nat, count: u32)
    requires Good(p, d) && Sane(p, d) && !d.ram.journal.ready && d.ram.active >= 0
    requires index < |d.ram.payload.slots| && SlotValid(d.ram.payload.slots[index]) && CanAppend(p, Renewed(d))
    ensures var r := Appended(p, Edited(Renewed(d), index, count), index, count);
      && FlashShaped(p, r.flash)
      && Recover(p, r.flash)
           == if KnowsImageCrc(p, d)
              then WithCount(d.ram.payload, index, count) else d.ram.payload
  {
    hide SlotValid, SlotShaped, CanAppend, Appended, Recover, Good, KnowsImageCrc, FreshJournal;
    AppendedFlash(p, Renewed(d), index, count);
    var r := Appended(p, Edited(Renewed(d), index, count), index, count);
    if KnowsImageCrc(p, d) {
      RenewedBoundUpdate(p, d, index, count);
      GoodRecovers(p, r.flash, r.ram);
    } else {
      RenewedUnboundUpdate(p, d, index, count);
      GoodRecovers(p, r.flash, d.ram);
    }
  }

  /** Behind an unbound journal, an update that changes the count succeeds, and it survives a reboot if and only
      if the checksum held in RAM is the one the active image carries; otherwise the reboot recovers the old
      count, and an assertion after it repeats a count already given out. */
  lemma UnboundUpdateSurvivesIff(p: Platform, d: Device, index: nat, count: u32, e: Entropy)
    requires Good(p, d) && Sane(p, d) && !d.ram.journal.ready && d.ram.active >= 0
    requires index < |d.ram.payload.slots| && SlotValid(d.ram.payload.slots[index])
    requires count != d.ram.payload.slots[index].signCount
    ensures var r := Exec(p, d, UpdateCount(index, count), e);
      && r.ok && r.device.ram.payload == WithCount(d.ram.payload, index, count)
      && ((Recover(p, r.device.flash) == r.device.ram.payload) <==>
           KnowsImageCrc(p, d))
      && (!KnowsImageCrc(p, d) ==> Recover(p, r.device.flash) == d.ram.payload)
  {
    hide Good, SlotValid, SlotShaped, Exec, CanAppend, AppendFlashOp, Recover, BootRam, KnowsImageCrc, FreshJournal;
    UnboundUpdateSteps(p, d, index, count, e);
    RenewedUpdateRecovers(p, d, index, count);
    assert WithCount(d.ram.payload, index, count).slots[index].signCount != d.ram.payload.slots[index].signCount;
  }

  /** What that costs: unless RAM happens to hold the checksum of the image, the same count is given out twice,
      before and after a reboot. */
  lemma UnboundCountRepeats(p: Platform, d: Device, index: nat, count: u32, e: Entropy, boot: Entropy)
    requires Good(p, d) && Sane(p, d) && !d.ram.journal.ready && d.ram.active >= 0 && !KnowsImageCrc(p, d)
    requires index < |d.ram.payload.slots| && SlotValid(d.ram.payload.slots[index])
    ensures var r := Exec(p, d, UpdateCount(index, count), e);
      && r.ok
      && var d2 := Boot(p, r.device.flash, boot);
         && Sane(p, d2) && d2.ram.payload == d.ram.payload
         && Exec(p, d2, UpdateCount(index, count), e).ok
  {
    hide Good, SlotValid, SlotShaped, Exec, CanAppend, Appended, BootRam, KnowsImageCrc, FreshJournal;
    UnboundUpdateSteps(p, d, index, count, e);
    RenewedUnboundUpdate(p, d, index, count);
    var f := Appended(p, Edited(Renewed(d), index, count), index, count).flash;
    RebootRecovers(p, Device(f, d.ram));
    BootIsSane(p, f, boot);
    UnboundUpdateSteps(p, Boot(p, f, boot), index, count, e);
  }

  lemma UnsyncedBase(p: Platform, d: Device)
    requires Good(p, d) && !d.ram.journal.ready
    ensures d.ram.payload == Base(p, d.flash, d.ram.active).0 && d.ram.journal.nextIndex == 0
    ensures Anchored(p, d.flash, d.ram)
  {
  }

  /** Renewing the journal does not change which slot is chosen. */
  lemma SameSlots(p: Platform, d: Device, f: Flash)
    requires Good(p, d) && FlashShaped(p, f) && f.slot0 == d.flash.slot0 && f.slot1 == d.flash.slot1
    ensures Chooses(p, f, d.ram.active, d.ram.generation)
    ensures Base(p, f, d.ram.active) == Base(p, d.flash, d.ram.active)
  {
    hide LoadSlot, Sanitize;
  }

  /** The first update after an unbound boot renews the journal and finds room in it. */
  lemma UnboundUpdateSteps(p: Platform, d: Device, index: nat, count: u32, e: Entropy)
    requires Sane(p, d) && !d.ram.journal.ready && d.ram.active >= 0
    requires index < |d.ram.payload.slots| && SlotValid(d.ram.payload.slots[index])
    ensures CanAppend(p, Renewed(d))
    ensures Exec(p, d, UpdateCount(index, count), e)
         == Outcome(true, Appended(p, Edited(Renewed(d), index, count), index, count))
    ensures ExecOps(p, d, UpdateCount(index, count), e)
         == JournalOps(d.ram.generation, d.ram.payloadCrc) + [AppendFlashOp(p, Renewed(d), index, count)]
  {
    hide SlotValid, EntryBlank, EntryCells, ApplyAll, AppendOp, PackSlot, SlotShaped, FreshJournal, CommitOps,
      JournalOps;
    JournalOpsWrite(d.flash, d.ram.generation, d.ram.payloadCrc);
    FreshJournalReads(d.ram.generation, d.ram.payloadCrc);
  }

  /** Cut while an unbound journal is renewed: blank, or still not bound, it replays nothing. */
  lemma RenewalCut(p: Platform, d: Device, t: Flash)
    requires Good(p, d) && !d.ram.journal.ready && d.ram.active >= 0
    requires PowerCut(p, d.flash, JournalOps(d.ram.generation, d.ram.payloadCrc), t)
    ensures FlashShaped(p, t) && Recover(p, t) == d.ram.payload
    ensures !BootRam(p, t).changed && Good(p, Device(t, BootRam(p, t).ram))
  {
    var crc := Base(p, d.flash, d.ram.active).1;
    hide LoadSlot, Sanitize, PowerCut, JournalOps, Chooses, Synced, SelectSlot, Base, EntryBlank, EntryCells, BootRam;
    var ram := Replayless(d.ram, Bound(t.journal, d.ram.generation, crc));
    JournalOpsCut(p, d.flash, d.ram.generation, d.ram.payloadCrc, t);
    ChosenSlot(p, d.flash, d.ram.active, d.ram.generation);
    UnsyncedBase(p, d);
    SameSlots(p, d, t);
    SyncedWithoutLog(p, t, ram);
    GoodEitherWay(p, t, ram, ram);
  }

  /** Cut inside the append that follows: a torn entry behind a bound journal is harmless, and behind any other
      it is not read. */
  lemma AppendToRenewedCut(p: Platform, d: Device, index: nat, count: u32, t: Flash)
    requires Good(p, d) && Sane(p, d) && !d.ram.journal.ready && d.ram.active >= 0 && CanAppend(p, Renewed(d))
    requires index < |d.ram.payload.slots| && SlotValid(d.ram.payload.slots[index])
    requires Interrupted(Renewed(d).flash, AppendFlashOp(p, Renewed(d), index, count), t)
    ensures FlashShaped(p, t) && !BootRam(p, t).changed && Good(p, Device(t, BootRam(p, t).ram))
    ensures Recover(p, t) == d.ram.payload || CountAtLeast(d.ram.payload, index, count, Recover(p, t))
  {
    hide Chooses, Synced, SlotValid, SlotShaped, CanAppend, AppendFlashOp, FreshJournal, KnowsImageCrc, BootRam,
      Interrupted;
    if KnowsImageCrc(p, d) {
      RenewedIsGood(p, d);
      AppendIsCrashSafe(p, Renewed(d), index, count, t);
    } else {
      var torn := TornAppend(p, Renewed(d), index, count, t);
      WithEntryReads(Renewed(d).flash.journal, 0, torn);
      RenewedIsIgnored(p, d, t);
      GoodEitherWay(p, t, d.ram, d.ram);
    }
  }

  /** Power lost inside the first update behind an unbound journal: the old counts, or the slot's count at the
      intended value or above it. */
  lemma UnboundUpdateIsCrashSafe(p: Platform, d: Device, index: nat, count: u32, e: Entropy, t: Flash)
    requires Good(p, d) && Sane(p, d) && !d.ram.journal.ready && d.ram.active >= 0
    requires index < |d.ram.payload.slots| && SlotValid(d.ram.payload.slots[index])
    requires CanAppend(p, Renewed(d))
    requires PowerCut(p, d.flash,
      JournalOps(d.ram.generation, d.ram.payloadCrc) + [AppendFlashOp(p, Renewed(d), index, count)], t)
    ensures FlashShaped(p, t) && !BootRam(p, t).changed && Good(p, Device(t, BootRam(p, t).ram))
    ensures Recover(p, t) == d.ram.payload || CountAtLeast(d.ram.payload, index, count, Recover(p, t))
  {
    hide Good, SlotValid, SlotShaped, CanAppend, AppendFlashOp, FreshJournal, BootRam, PowerCut, JournalOps, ApplyAll,
      Interrupted, TearDetected, CountAtLeast;
    var renewal, op := JournalOps(d.ram.generation, d.ram.payloadCrc), AppendFlashOp(p, Renewed(d), index, count);
    PowerCutOfConcat(p, d.flash, renewal, [op], t);
    JournalOpsWrite(d.flash, d.ram.generation, d.ram.payloadCrc);
    if PowerCut(p, d.flash, renewal, t) {
      RenewalCut(p, d, t);
    } else {
      PowerCutOfOne(p, Renewed(d).flash, op, t);
      AppendToRenewedCut(p, d, index, count, t);
    }
  }
}
