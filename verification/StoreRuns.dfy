/** Whole runs of the store: operations that succeed, fail or are cut, and reboots, in any order, against the
    content they are meant to maintain. */
module StoreRuns {
  import opened Bits
  import opened NorFlash
  import opened StoreFormat
  import opened SignCountJournal
  import opened StoreSpec
  import opened CrashSafety
  import opened JournalSafety
  import opened StoreOperations
  import opened UnboundJournal

  // ---- RAM ahead of the flash ----

  /** A failed operation may leave an edit in RAM. What it leaves of the slots is all of them, or no valid one. */
  predicate SlotsAgree(q: Payload, s: Payload) {
    q.slots == s.slots || forall i :: 0 <= i < |q.slots| ==> !SlotValid(q.slots[i])
  }

  predicate HeaderNotAhead(f: Flash, generation: u32) {
    var h := ReadJournalHeader(f.journal);
    h.Some? ==> h.value.storeGeneration <= generation
  }

  /** The device with what is stored in RAM; a stale journal, in use but not bound, counts as none. */
  function Settled(d: Device, s: Payload, stale: bool): Device {
    d.(ram := d.ram.(payload := s, journal := if stale then RESET_STATE else d.ram.journal))
  }

  /** The flash holds `s`, and RAM a clean edit of it. */
  predicate Holds(p: Platform, d: Device, s: Payload, stale: bool) {
    && Sane(p, d) && Clean(p, d.ram.payload)
    && Good(p, Settled(d, s, stale))
    && if stale then d.ram.journal.ready && HeaderNotAhead(d.flash, d.ram.generation)
       else SlotsAgree(d.ram.payload, s)
  }

  lemma HoldsRecovers(p: Platform, d: Device, s: Payload, stale: bool)
    requires Holds(p, d, s, stale)
    ensures Clean(p, s) && Sane(p, Settled(d, s, stale)) && Anchored(p, d.flash, d.ram)
    ensures var b := BootRam(p, d.flash);
      && !b.changed && b.ram.payload == s && b.ram.journal.ready == (d.ram.journal.ready && !stale)
      && b.ram.journal.nextIndex == Settled(d, s, stale).ram.journal.nextIndex
      && Good(p, Device(d.flash, b.ram))
  {
    hide Chooses, Synced, BootRam;
    RebootRecovers(p, Settled(d, s, stale));
    GoodIsSane(p, Settled(d, s, stale));
  }

  lemma GoodHolds(p: Platform, d: Device)
    requires Good(p, d)
    ensures Holds(p, d, d.ram.payload, false)
  {
    hide Chooses, Synced, BootRam, Clean;
    RebootRecovers(p, d);
    GoodIsSane(p, d);
  }

  // ---- Completed operations ----

  lemma CommitHolds(p: Platform, d: Device, s: Payload, stale: bool, op: StoreOp, e: Entropy)
    requires Holds(p, d, s, stale) && OpClean(op) && Admissible(d.ram.payload, op) && !op.UpdateCount?
    requires d.ram.generation < 0xffff_ffff
    ensures OpShaped(op)
    ensures var r := Exec(p, d, op, e);
      && r.ok == e.wrapOk
      && (r.ok ==> r.device.ram.payload == Effect(p, d.ram.payload, op) && Good(p, r.device))
      && (!r.ok ==> r.device == d.(ram := d.ram.(payload := Rollback(p, d.ram.payload, op)))
                    && Holds(p, r.device, s, stale))
  {
    hide Chooses, Synced, SlotValid, UpConfigValid, CommitOps, ImageCrc, ApplyAll, Sanitize, BootRam;
    HoldsRecovers(p, d, s, stale);
    EffectKeepsClean(p, d.ram.payload, op);
    if e.wrapOk {
      CommitCompletes(p, d.flash, d.ram.(payload := Effect(p, d.ram.payload, op)), e);
    } else {
      RollbackAgrees(p, d.ram.payload, s, op);
    }
  }

  lemma RollbackAgrees(p: Platform, q: Payload, s: Payload, op: StoreOp)
    requires Clean(p, q) && OpClean(op) && Admissible(q, op)
    ensures Shaped(p, Rollback(p, q, op)) && Clean(p, Rollback(p, q, op))
    ensures SlotsAgree(q, s) ==> SlotsAgree(Rollback(p, q, op), s)
  {
    hide Sanitize, UpConfigValid;
    EffectKeepsClean(p, q, op);
    if op.Add? || op.Delete? {
      RollbackRestores(p, q, op);
    }
  }

  /** Entries behind an unbound journal are never replayed. */
  lemma UnboundStaysUnbound(p: Platform, f: Flash, ram: Ram, f': Flash)
    requires Good(p, Device(f, ram)) && !ram.journal.ready && HeaderNotAhead(f', ram.generation)
    requires FlashShaped(p, f') && f'.slot0 == f.slot0 && f'.slot1 == f.slot1
    requires ReadJournalHeader(f'.journal) == ReadJournalHeader(f.journal)
    ensures Good(p, Device(f', ram))
  {
    hide LoadSlot, Sanitize, ReadJournalHeader;
  }

  /** What an append leaves stored: the count behind a journal that will be replayed, nothing behind a stale one. */
  function AfterAppend(s: Payload, index: nat, count: u32, stale: bool): Payload
    requires index < |s.slots|
  {
    if stale then s else WithCount(s, index, count)
  }

  lemma AppendHolds(p: Platform, d: Device, s: Payload, stale: bool, index: nat, count: u32)
    requires Holds(p, d, s, stale) && d.ram.journal.ready && d.ram.journal.nextIndex < CAPACITY && CanAppend(p, d)
    requires index < |d.ram.payload.slots| && SlotValid(d.ram.payload.slots[index])
    ensures index < |s.slots|
    ensures Holds(p, Appended(p, Edited(d, index, count), index, count), AfterAppend(s, index, count, stale), stale)
  {
    hide Chooses, Synced, SlotValid, SlotShaped, AppendOp, EntryCells, EntryBlank, Sanitize, LoadSlot, BootRam;
    var sd := Settled(d, s, stale);
    HoldsRecovers(p, d, s, stale);
    EffectKeepsClean(p, d.ram.payload, UpdateCount(index, count));
    AppendedFlash(p, d, index, count);
    var r := Appended(p, Edited(d, index, count), index, count);
    if stale {
      UnboundStaysUnbound(p, d.flash, sd.ram, r.flash);
    } else {
      AppendEdited(p, sd, index, count);
      assert Settled(r, WithCount(s, index, count), false) == Appended(p, Edited(sd, index, count), index, count);
    }
  }

  /** A full journal is folded: the commit stores everything RAM holds. */
  lemma FoldHolds(p: Platform, d: Device, s: Payload, stale: bool, index: nat, count: u32, e: Entropy)
    requires Holds(p, d, s, stale) && d.ram.journal.ready && d.ram.journal.nextIndex == CAPACITY
    requires index < |d.ram.payload.slots| && SlotValid(d.ram.payload.slots[index])
    requires e.wrapOk && d.ram.generation < 0xffff_ffff
    ensures var folded := Commit(p, Edited(d, index, count), e).device;
      && Good(p, folded) && CanAppend(p, folded)
      && Good(p, Appended(p, folded, index, count))
  {
    hide Chooses, Synced, SlotValid, SlotShaped, CommitOps, ImageCrc, ApplyAll, Sanitize, BootRam, CanAppend,
      Appended;
    var edited := Edited(d, index, count);
    HoldsRecovers(p, d, s, stale);
    EffectKeepsClean(p, d.ram.payload, UpdateCount(index, count));
    SameValidity(d.ram.payload.slots[index], count);
    FoldedHasRoom(p, d.flash, edited.ram, e);
    AppendToFolded(p, d.flash, edited.ram, index, count, e);
  }

  /** An update behind a journal not yet in use renews it first, and binds it to the checksum held in RAM. */
  lemma RenewHolds(p: Platform, d: Device, s: Payload, index: nat, count: u32) returns (stale: bool)
    requires Holds(p, d, s, false) && !d.ram.journal.ready && d.ram.active >= 0 && CanAppend(p, Renewed(d))
    requires index < |d.ram.payload.slots| && SlotValid(d.ram.payload.slots[index])
    ensures index < |s.slots|
    ensures Holds(p, Appended(p, Edited(Renewed(d), index, count), index, count),
                  AfterAppend(s, index, count, stale), stale)
  {
    hide Chooses, Synced, SlotValid, SlotShaped, AppendOp, EntryCells, EntryBlank, Sanitize, LoadSlot, BootRam,
      KnowsImageCrc, FreshJournal;
    var sd := Settled(d, s, false);
    HoldsRecovers(p, d, s, false);
    EffectKeepsClean(p, d.ram.payload, UpdateCount(index, count));
    AppendedFlash(p, Renewed(d), index, count);
    var r := Appended(p, Edited(Renewed(d), index, count), index, count);
    stale := !KnowsImageCrc(p, sd);
    if KnowsImageCrc(p, sd) {
      RenewedBoundUpdate(p, sd, index, count);
      assert Settled(r, WithCount(s, index, count), false)
        == Appended(p, Edited(Renewed(sd), index, count), index, count);
    } else {
      RenewedUnboundUpdate(p, sd, index, count);
      FreshJournalReads(d.ram.generation, d.ram.payloadCrc);
      GoodIgnoresSequence(p, r.flash, sd.ram);
    }
  }

  lemma GoodIgnoresSequence(p: Platform, f: Flash, ram: Ram)
    requires Good(p, Device(f, ram)) && !ram.journal.ready
    ensures Good(p, Device(f, ram.(journal := RESET_STATE)))
  {
    hide Chooses, JournalNotAhead;
  }

  lemma ValidSlotsAreStored(p: Platform, d: Device, s: Payload, index: nat)
    requires Holds(p, d, s, false)
    requires index < |d.ram.payload.slots| && SlotValid(d.ram.payload.slots[index])
    ensures d.ram.payload.slots == s.slots && d.ram.active >= 0
  {
    hide LoadSlot, Clean, Bound;
    assert SlotsAgree(d.ram.payload, s);
  }

  /** The journal is full, so the next count goes into a commit. */
  predicate Folds(d: Device) {
    d.ram.journal.ready && d.ram.journal.nextIndex == CAPACITY
  }

  /** What an update leaves: the effect in RAM, and stored as Folds and AfterAppend say; a failed one leaves nothing. */
  predicate Updates(p: Platform, d: Device, s: Payload, op: StoreOp, r: Outcome, s': Payload, stale': bool)
    requires op.UpdateCount? && Admissible(d.ram.payload, op) && |s.slots| == |d.ram.payload.slots|
  {
    && Holds(p, r.device, s', stale')
    && (r.ok ==> r.device.ram.payload == Effect(p, d.ram.payload, op))
    && (r.ok ==> s' == if Folds(d) then r.device.ram.payload else AfterAppend(s, op.index, op.count, stale'))
    && (!r.ok ==> r.device == d && s' == s)
  }

  lemma ReadyUpdateHolds(p: Platform, d: Device, s: Payload, stale: bool, op: StoreOp, e: Entropy)
    returns (s': Payload, stale': bool)
    requires Holds(p, d, s, stale) && op.UpdateCount? && Admissible(d.ram.payload, op) && d.ram.generation < 0xffff_ffff
    requires d.ram.journal.ready
    ensures |s.slots| == |d.ram.payload.slots| && Updates(p, d, s, op, Exec(p, d, op, e), s', stale')
    ensures stale' ==> stale
  {
    hide Holds, Chooses, Synced, SlotValid, Sanitize, SlotShaped, Exec, CommitOps, CanAppend, AppendFlashOp, ApplyAll,
      ImageCrc, BootRam, Clean;
    HoldsIsSane(p, d, s, stale);
    UpdateCases(p, d, op.index, op.count, e);
    s', stale' := s, stale;
    if d.ram.journal.nextIndex < CAPACITY {
      if CanAppend(p, d) {
        AppendHolds(p, d, s, stale, op.index, op.count);
        s' := AfterAppend(s, op.index, op.count, stale);
      }
    } else if e.wrapOk {
      FoldHolds(p, d, s, stale, op.index, op.count, e);
      GoodHolds(p, Exec(p, d, op, e).device);
      s', stale' := WithCount(d.ram.payload, op.index, op.count), false;
    }
  }

  lemma UnreadyUpdateHolds(p: Platform, d: Device, s: Payload, op: StoreOp, e: Entropy)
    returns (s': Payload, stale': bool)
    requires Holds(p, d, s, false) && op.UpdateCount? && Admissible(d.ram.payload, op)
    requires !d.ram.journal.ready
    ensures |s.slots| == |d.ram.payload.slots| && Updates(p, d, s, op, Exec(p, d, op, e), s', stale')
  {
    hide Holds, Chooses, Synced, SlotValid, Sanitize, SlotShaped, Exec, CommitOps, CanAppend, AppendFlashOp, ApplyAll,
      ImageCrc, BootRam, FreshJournal, Clean;
    HoldsIsSane(p, d, s, false);
    ValidSlotsAreStored(p, d, s, op.index);
    UnboundUpdateSteps(p, d, op.index, op.count, e);
    stale' := RenewHolds(p, d, s, op.index, op.count);
    s' := AfterAppend(s, op.index, op.count, stale');
  }

  lemma HoldsIsSane(p: Platform, d: Device, s: Payload, stale: bool)
    requires Holds(p, d, s, stale)
    ensures Sane(p, d) && Clean(p, d.ram.payload) && |s.slots| == |d.ram.payload.slots|
      && (stale ==> d.ram.journal.ready)
  {
    hide Chooses, Synced;
    HoldsRecovers(p, d, s, stale);
  }

  /** A journal in use that the next boot will not replay. */
  predicate Stale(p: Platform, d: Device)
    requires FlashShaped(p, d.flash)
  {
    d.ram.journal.ready && !BootRam(p, d.flash).ram.journal.ready
  }

  /** RAM holds a clean edit of what a reboot recovers. */
  predicate Sound(p: Platform, d: Device) {
    FlashShaped(p, d.flash) && Holds(p, d, Recover(p, d.flash), Stale(p, d))
  }

  lemma HoldsIsSound(p: Platform, d: Device, s: Payload, stale: bool)
    requires Holds(p, d, s, stale)
    ensures Sound(p, d) && Recover(p, d.flash) == s && Stale(p, d) == stale
  {
    hide Chooses, Synced, BootRam, Clean;
    HoldsRecovers(p, d, s, stale);
  }

  /** What a successful operation leaves to be recovered: all RAM holds if it commits; a count that is only
      appended is added to what was stored, if the next boot replays the journal. */
  function StoredAfter(p: Platform, d: Device, op: StoreOp, d': Device): Payload
    requires Sane(p, d) && Sane(p, d') && Admissible(d.ram.payload, op)
  {
    if op.UpdateCount? && !Folds(d)
    then AfterAppend(Recover(p, d.flash), op.index, op.count, Stale(p, d'))
    else d'.ram.payload
  }

  /** What a completed operation means for the content in RAM and for the content a reboot recovers. */
  predicate OperationStep(p: Platform, d: Device, op: StoreOp, r: Outcome)
    requires Sane(p, d) && Sane(p, r.device)
  {
    var q, q' := d.ram.payload, r.device.ram.payload;
    var stored, stored' := Recover(p, d.flash), Recover(p, r.device.flash);
    if r.ok then
      Admissible(q, op) && q' == Effect(p, q, op) && stored' == StoredAfter(p, d, op, r.device)
    else
      q' == (if Admissible(q, op) then Rollback(p, q, op) else q) && stored' == stored
  }

  /** Every completed operation of a caller keeps the device sound, and does to RAM and flash what OperationStep
      says, whether it succeeds or fails. */
  lemma ExecKeepsSound(p: Platform, d: Device, op: StoreOp, e: Entropy)
    requires Sound(p, d) && OpClean(op) && d.ram.generation < 0xffff_ffff
    ensures OpShaped(op) && Sane(p, d)
    ensures var r := Exec(p, d, op, e);
      && Sound(p, r.device) && OperationStep(p, d, op, r)
      && (Stale(p, r.device) ==> Stale(p, d) || (op.UpdateCount? && !d.ram.journal.ready))
  {
    hide Holds, Chooses, Synced, Exec, SlotValid, BootRam, Clean, Effect, Rollback, Recover;
    CleanOpShaped(op);
    var s, stale := Recover(p, d.flash), Stale(p, d);
    HoldsIsSane(p, d, s, stale);
    var r := Exec(p, d, op, e);
    if !Admissible(d.ram.payload, op) {
      NotAdmitted(p, d, op, e);
    } else if op.UpdateCount? {
      var s', stale';
      if d.ram.journal.ready {
        s', stale' := ReadyUpdateHolds(p, d, s, stale, op, e);
      } else {
        s', stale' := UnreadyUpdateHolds(p, d, s, op, e);
      }
      HoldsIsSound(p, r.device, s', stale');
      HoldsIsSane(p, r.device, s', stale');
      RollsBackUpdates(p, d.ram.payload, op);
    } else {
      CommitHolds(p, d, s, stale, op, e);
      if r.ok {
        GoodHolds(p, r.device);
        HoldsIsSound(p, r.device, r.device.ram.payload, false);
        HoldsIsSane(p, r.device, r.device.ram.payload, false);
      } else {
        HoldsIsSound(p, r.device, s, stale);
        HoldsIsSane(p, r.device, s, stale);
      }
    }
  }

  lemma NotAdmitted(p: Platform, d: Device, op: StoreOp, e: Entropy)
    requires Sane(p, d) && OpShaped(op) && !Admissible(d.ram.payload, op)
    ensures Exec(p, d, op, e) == Outcome(false, d) && ExecOps(p, d, op, e) == []
  {
  }

  lemma RollsBackUpdates(p: Platform, q: Payload, op: StoreOp)
    requires op.UpdateCount? && Admissible(q, op)
    ensures Rollback(p, q, op) == q
  {
  }

  lemma CleanOpShaped(op: StoreOp)
    requires OpClean(op)
    ensures OpShaped(op)
  {
  }

  // ---- Power cuts inside an operation ----

  lemma CommitCut(p: Platform, d: Device, s: Payload, stale: bool, q: Payload, salt: Bytes16, t: Flash)
    requires Holds(p, d, s, stale) && Clean(p, q) && d.ram.generation < 0xffff_ffff
    requires PowerCut(p, d.flash, CommitOps(p, d.ram.(payload := q), salt), t)
    ensures FlashShaped(p, t) && !BootRam(p, t).changed && Good(p, Device(t, BootRam(p, t).ram))
    ensures Recover(p, t) == s || Recover(p, t) == q
  {
    hide Good, PowerCut, SlotOps, JournalOps, BootRam, Sane, Clean, PrepareImage, ImageCrc;
    CommitIsCrashAtomic(p, Settled(d, s, stale), q, salt, t);
  }

  lemma AppendCut(p: Platform, d: Device, s: Payload, stale: bool, index: nat, count: u32, t: Flash)
    requires Holds(p, d, s, stale) && d.ram.journal.ready && d.ram.journal.nextIndex < CAPACITY && CanAppend(p, d)
    requires index < |d.ram.payload.slots| && SlotValid(d.ram.payload.slots[index])
    requires Interrupted(d.flash, AppendFlashOp(p, d, index, count), t)
    ensures FlashShaped(p, t) && !BootRam(p, t).changed && Good(p, Device(t, BootRam(p, t).ram))
    ensures index < |s.slots| && (Recover(p, t) == s || CountAtLeast(s, index, count, Recover(p, t)))
  {
    hide Chooses, Synced, SlotValid, SlotShaped, AppendOp, EntryCells, EntryBlank, Clean, LoadSlot, BootRam,
      Interrupted, CountAtLeast;
    var sd := Settled(d, s, stale);
    HoldsIsSane(p, d, s, stale);
    if stale {
      var torn := TornAppend(p, d, index, count, t);
      WithEntryReads(d.flash.journal, d.ram.journal.nextIndex, torn);
      UnboundStaysUnbound(p, d.flash, sd.ram, t);
      GoodEitherWay(p, t, sd.ram, sd.ram);
    } else {
      AppendIsCrashSafe(p, sd, index, count, t);
    }
  }

  lemma FoldCut(p: Platform, d: Device, s: Payload, stale: bool, index: nat, count: u32, e: Entropy, t: Flash)
    requires Holds(p, d, s, stale) && Folds(d) && e.wrapOk && d.ram.generation < 0xffff_ffff
    requires index < |d.ram.payload.slots| && SlotValid(d.ram.payload.slots[index])
    requires PowerCut(p, d.flash, ExecOps(p, d, UpdateCount(index, count), e), t)
    ensures FlashShaped(p, t) && !BootRam(p, t).changed && Good(p, Device(t, BootRam(p, t).ram))
    ensures Recover(p, t) == s || CountAtLeast(d.ram.payload, index, count, Recover(p, t))
  {
    hide Holds, Good, SlotValid, Sanitize, SlotShaped, ExecOps, CommitOps, CanAppend, AppendOp, ApplyAll, ImageCrc,
      BootRam, Interrupted, LoadSlot, TearDetected, PowerCut;
    var edited := Edited(d, index, count);
    HoldsIsSane(p, d, s, stale);
    EffectKeepsClean(p, d.ram.payload, UpdateCount(index, count));
    SameValidity(d.ram.payload.slots[index], count);
    FoldHolds(p, d, s, stale, index, count, e);
    UpdateOpsCases(p, d, index, count, e);
    var folded := Commit(p, edited, e).device;
    var op := AppendFlashOp(p, folded, index, count);
    PowerCutOfConcat(p, d.flash, CommitOps(p, edited.ram, e.salt), [op], t);
    if PowerCut(p, d.flash, CommitOps(p, edited.ram, e.salt), t) {
      CommitCut(p, d, s, stale, edited.ram.payload, e.salt, t);
    } else {
      PowerCutOfOne(p, folded.flash, op, t);
      AppendIsCrashSafe(p, folded, index, count, t);
    }
  }

  /** What a power cut inside an operation can leave to be recovered: what was stored before; all RAM holds, if
      the operation commits; or what was stored with a count, the intended one or more. */
  predicate CutEffect(p: Platform, d: Device, op: StoreOp, r: Payload)
    requires Sane(p, d)
  {
    var q, s := d.ram.payload, Recover(p, d.flash);
    || r == s
    || (Admissible(q, op)
        && if op.UpdateCount? then CountAtLeast(if Folds(d) then q else s, op.index, op.count, r)
           else r == Effect(p, q, op))
  }

  lemma UpdateCut(p: Platform, d: Device, s: Payload, stale: bool, op: StoreOp, e: Entropy, t: Flash)
    requires Holds(p, d, s, stale) && op.UpdateCount? && Admissible(d.ram.payload, op) && d.ram.generation < 0xffff_ffff
    requires PowerCut(p, d.flash, ExecOps(p, d, op, e), t)
    ensures FlashShaped(p, t) && !BootRam(p, t).changed && Good(p, Device(t, BootRam(p, t).ram))
    ensures |s.slots| == |d.ram.payload.slots|
    ensures Recover(p, t) == s || CountAtLeast(if Folds(d) then d.ram.payload else s, op.index, op.count, Recover(p, t))
  {
    hide Holds, Good, SlotValid, Sanitize, SlotShaped, ExecOps, CommitOps, CanAppend, AppendOp, ApplyAll, ImageCrc,
      BootRam, Interrupted, LoadSlot, TearDetected, CountAtLeast, JournalOps;
    HoldsIsSane(p, d, s, stale);
    HoldsRecovers(p, d, s, stale);
    if !d.ram.journal.ready {
      ValidSlotsAreStored(p, d, s, op.index);
      UnboundUpdateSteps(p, d, op.index, op.count, e);
      RenewalCutHolds(p, d, s, op.index, op.count, e, t);
    } else {
      UpdateOpsCases(p, d, op.index, op.count, e);
      if d.ram.journal.nextIndex < CAPACITY {
        if CanAppend(p, d) {
          PowerCutOfOne(p, d.flash, AppendFlashOp(p, d, op.index, op.count), t);
          AppendCut(p, d, s, stale, op.index, op.count, t);
        }
      } else if e.wrapOk {
        FoldCut(p, d, s, stale, op.index, op.count, e, t);
      }
    }
  }

  lemma RenewalCutHolds(p: Platform, d: Device, s: Payload, index: nat, count: u32, e: Entropy, t: Flash)
    requires Holds(p, d, s, false) && !d.ram.journal.ready && d.ram.active >= 0 && CanAppend(p, Renewed(d))
    requires index < |d.ram.payload.slots| && SlotValid(d.ram.payload.slots[index]) && d.ram.payload.slots == s.slots
    requires PowerCut(p, d.flash,
      JournalOps(d.ram.generation, d.ram.payloadCrc) + [AppendFlashOp(p, Renewed(d), index, count)], t)
    ensures FlashShaped(p, t) && !BootRam(p, t).changed && Good(p, Device(t, BootRam(p, t).ram))
    ensures Recover(p, t) == s || CountAtLeast(s, index, count, Recover(p, t))
  {
    hide Good, SlotValid, Clean, SlotShaped, JournalOps, AppendOp, BootRam, PowerCut, FreshJournal, EntryBlank,
      CountAtLeast;
    var sd := Settled(d, s, false);
    HoldsRecovers(p, d, s, false);
    UnboundUpdateIsCrashSafe(p, sd, index, count, e, t);
  }

  /** A power cut anywhere inside any operation: the next boot recovers what CutEffect says, repairs nothing, and
      the device is good. */
  lemma ExecIsCrashSafe(p: Platform, d: Device, op: StoreOp, e: Entropy, t: Flash)
    requires Sound(p, d) && OpClean(op) && d.ram.generation < 0xffff_ffff
    requires OpShaped(op) && Sane(p, d) && PowerCut(p, d.flash, ExecOps(p, d, op, e), t)
    ensures FlashShaped(p, t) && !BootRam(p, t).changed && Good(p, Device(t, BootRam(p, t).ram))
    ensures CutEffect(p, d, op, Recover(p, t))
  {
    hide Holds, Good, SlotValid, UpConfigValid, CommitOps, BootRam, Sanitize, Effect, CountAtLeast, SlotShaped;
    var s, stale := Recover(p, d.flash), Stale(p, d);
    HoldsRecovers(p, d, s, stale);
    HoldsIsSane(p, d, s, stale);
    if !Admissible(d.ram.payload, op) {
      NotAdmitted(p, d, op, e);
    } else if op.UpdateCount? {
      UpdateCut(p, d, s, stale, op, e, t);
    } else if e.wrapOk {
      EffectKeepsClean(p, d.ram.payload, op);
      CommitCut(p, d, s, stale, Effect(p, d.ram.payload, op), e.salt, t);
    }
  }

  // ---- Runs ----

  datatype Event =
    | Completed(op: StoreOp, e: Entropy)
    | CutInside(op: StoreOp, e: Entropy, t: Flash, boot: Entropy)
    | Reboot(boot: Entropy)

  /** One step of a run. Operations may fail, and counts may be written behind any journal. */
  predicate Step(p: Platform, d: Device, event: Event, d': Device) {
    && Sane(p, d)
    && d.ram.generation < 0xffff_ffff
    && (match event
        case Completed(op, e) => OpClean(op) && d' == Exec(p, d, op, e).device
        case CutInside(op, e, t, boot) =>
          && OpClean(op)
          && PowerCut(p, d.flash, ExecOps(p, d, op, e), t)
          && FlashShaped(p, t)
          && d' == Boot(p, t, boot)
        case Reboot(boot) => d' == Boot(p, d.flash, boot))
  }

  /** What a step means for the content in RAM and for the content a reboot recovers. */
  predicate ContentStep(p: Platform, d: Device, event: Event, d': Device)
    requires Sane(p, d) && Sane(p, d')
  {
    var stored, stored' := Recover(p, d.flash), Recover(p, d'.flash);
    match event
    case Completed(op, e) => OpShaped(op) && d' == Exec(p, d, op, e).device
      && OperationStep(p, d, op, Exec(p, d, op, e))
    case CutInside(op, _, _, _) => d'.ram.payload == stored' && CutEffect(p, d, op, stored')
    case Reboot(_) => d'.ram.payload == stored' == stored
  }

  /** A count written behind a journal that was not in use. */
  predicate UpdatesUnready(d: Device, event: Event) {
    event.Completed? && event.op.UpdateCount? && !d.ram.journal.ready
  }

  lemma StepRefines(p: Platform, d: Device, event: Event, d': Device)
    requires Sound(p, d) && Step(p, d, event, d')
    ensures Sound(p, d') && Sane(p, d') && ContentStep(p, d, event, d')
    ensures Stale(p, d') ==> Stale(p, d) || UpdatesUnready(d, event)
  {
    hide Holds, Good, Exec, ExecOps, BootRam, PowerCut, OpClean, CutEffect, OperationStep, Recover;
    match event {
      case Completed(op, e) =>
        ExecKeepsSound(p, d, op, e);
        SoundIsSane(p, d');
      case CutInside(op, e, t, boot) =>
        CleanOpShaped(op);
        ExecIsCrashSafe(p, d, op, e, t);
        BootIsSound(p, t, boot);
      case Reboot(boot) =>
        HoldsRecovers(p, d, Recover(p, d.flash), Stale(p, d));
        BootIsSound(p, d.flash, boot);
    }
  }

  lemma SoundIsSane(p: Platform, d: Device)
    requires Sound(p, d)
    ensures Sane(p, d) && Clean(p, d.ram.payload)
  {
    hide Good, BootRam;
  }

  lemma BootIsSound(p: Platform, f: Flash, boot: Entropy)
    requires FlashShaped(p, f) && !BootRam(p, f).changed && Good(p, Device(f, BootRam(p, f).ram))
    ensures var d := Boot(p, f, boot);
      Sound(p, d) && Sane(p, d) && d.flash == f && d.ram.payload == Recover(p, f) && !Stale(p, d)
  {
    hide Good, Holds, BootRam;
    var d := Device(f, BootRam(p, f).ram);
    GoodHolds(p, d);
    HoldsIsSound(p, d, d.ram.payload, false);
    HoldsIsSane(p, d, d.ram.payload, false);
  }

  predicate IsRun(p: Platform, ds: seq<Device>, events: seq<Event>) {
    && |ds| == |events| + 1
    && Sound(p, ds[0])
    && forall i :: 0 <= i < |events| ==> Step(p, ds[i], events[i], ds[i + 1])
  }

  /** Representation refinement: over every run of operations that succeed, fail or are cut, and reboots, RAM
      holds at every boundary a clean edit of what a reboot recovers, and every step does to both exactly what
      the operation means. */
  lemma {:induction false} RunRefines(p: Platform, ds: seq<Device>, events: seq<Event>, n: nat)
    requires IsRun(p, ds, events) && n <= |events|
    ensures Sound(p, ds[n]) && Sane(p, ds[n])
    ensures n < |events| ==> Sane(p, ds[n + 1]) && ContentStep(p, ds[n], events[n], ds[n + 1])
    decreases n
  {
    hide Good, Holds, Sound, Step, ContentStep, Sane, Stale;
    if n > 0 {
      RunRefines(p, ds, events, n - 1);
      StepRefines(p, ds[n - 1], events[n - 1], ds[n]);
    }
    SoundIsSane(p, ds[n]);
    if n < |events| {
      StepRefines(p, ds[n], events[n], ds[n + 1]);
    }
  }

  // ---- Runs in which RAM and flash never part ----

  /** A failure of an operation that does not roll back. */
  predicate LeavesEdit(event: Event) {
    event.Completed? && (event.op.SetPin? || event.op.SetUp? || event.op.Clear?) && !event.e.wrapOk
  }

  /** Without such failures, and with every count written behind a journal in use, RAM equals what a reboot
      recovers at every boundary. */
  lemma {:induction false} RunStaysGood(p: Platform, ds: seq<Device>, events: seq<Event>, n: nat)
    requires IsRun(p, ds, events) && n <= |events| && Good(p, ds[0])
    requires forall i :: 0 <= i < n ==> !LeavesEdit(events[i]) && !UpdatesUnready(ds[i], events[i])
    ensures Good(p, ds[n]) && Recover(p, ds[n].flash) == ds[n].ram.payload
    decreases n
  {
    hide Good, Sound, Step, Recover, LeavesEdit, UpdatesUnready;
    if n > 0 {
      RunStaysGood(p, ds, events, n - 1);
      StepKeepsGood(p, ds[n - 1], events[n - 1], ds[n]);
    }
    GoodHolds(p, ds[n]);
    HoldsIsSound(p, ds[n], ds[n].ram.payload, false);
  }

  lemma StepKeepsGood(p: Platform, d: Device, event: Event, d': Device)
    requires Good(p, d) && Step(p, d, event, d') && !LeavesEdit(event) && !UpdatesUnready(d, event)
    ensures Good(p, d')
  {
    hide Good, Holds, Step, Exec, ExecOps, Recover, Effect, CutEffect, Clean, AfterAppend;
    GoodHolds(p, d);
    HoldsIsSound(p, d, d.ram.payload, false);
    HoldsIsSane(p, d, d.ram.payload, false);
    StepRefines(p, d, event, d');
    if event.Completed? && Admissible(d.ram.payload, event.op) {
      InStepStays(p, d, event, d');
    }
    assert d'.ram.payload == Recover(p, d'.flash);
    SoundInStepIsGood(p, d');
  }

  lemma SoundInStepIsGood(p: Platform, d: Device)
    requires Sound(p, d) && !Stale(p, d) && d.ram.payload == Recover(p, d.flash)
    ensures Good(p, d)
  {
    hide Good, BootRam;
  }

  lemma InStepStays(p: Platform, d: Device, event: Event, d': Device)
    requires Sane(p, d) && Sane(p, d') && event.Completed? && ContentStep(p, d, event, d') && Step(p, d, event, d')
    requires Clean(p, d.ram.payload) && d.ram.payload == Recover(p, d.flash) && Admissible(d.ram.payload, event.op)
    requires !LeavesEdit(event) && !Stale(p, d')
    ensures d'.ram.payload == Recover(p, d'.flash)
  {
    hide BootRam, CommitOps, ApplyAll, Append, Clean, SlotShaped;
    var op := event.op;
    if op.Add? || op.Delete? {
      RollbackRestores(p, d.ram.payload, op);
    }
  }

  // ---- The store as a map ----

  /** What the store is for: credentials by slot number, the PIN state, the user-presence configuration. */
  datatype View = View(credentials: map<nat, Slot>, configured: bool, retries: byte, pinHash: seq<byte>,
                       presence: UpConfig)

  function ViewOf(q: Payload): View {
    View(map i: nat | i < |q.slots| && SlotValid(q.slots[i]) :: q.slots[i],
         q.pinConfigured != 0, q.pinRetries, q.pinHash, q.userPresence)
  }

  /** The operation on the map; a new credential goes to slot `free`. */
  function Updated(v: View, op: StoreOp, free: nat): View {
    match op
    case Add(record) => v.(credentials := v.credentials[free := record])
    case UpdateCount(index, count) =>
      if index in v.credentials
      then v.(credentials := v.credentials[index := v.credentials[index].(signCount := count)]) else v
    case Delete(index) => v.(credentials := v.credentials - {index})
    case Clear => v.(credentials := map[])
    case SetPin(configured, retries, hash) => v.(configured := configured, retries := retries, pinHash := hash)
    case SetUp(config) => v.(presence := config)
  }

  /** Every operation is the operation on the map, and adding takes the lowest slot without a credential. */
  lemma EffectUpdatesView(p: Platform, q: Payload, op: StoreOp)
    requires Shaped(p, q) && OpClean(op) && Admissible(q, op)
    ensures ViewOf(Effect(p, q, op)) == Updated(ViewOf(q), op, FirstFree(q.slots, 0))
    ensures op.Add? ==>
      FirstFree(q.slots, 0) !in ViewOf(q).credentials
      && forall i: nat :: i < FirstFree(q.slots, 0) ==> i in ViewOf(q).credentials
  {
    hide SlotShaped, SlotValid;
    var before, after := ViewOf(q), ViewOf(Effect(p, q, op));
    if op.UpdateCount? {
      SameValidity(q.slots[op.index], op.count);
    }
    assert !SlotValid(EmptySlot());
    assert after.credentials == Updated(before, op, FirstFree(q.slots, 0)).credentials;
  }

  lemma CountUpdatesView(q: Payload, index: nat, count: u32, free: nat)
    requires index < |q.slots|
    ensures ViewOf(WithCount(q, index, count)) == Updated(ViewOf(q), UpdateCount(index, count), free)
  {
    hide SlotValid;
    SameValidity(q.slots[index], count);
    assert ViewOf(WithCount(q, index, count)).credentials
        == Updated(ViewOf(q), UpdateCount(index, count), free).credentials;
  }

  /** The map a client sees, and the map it would see after a reboot. */
  datatype Views = Views(live: View, stored: View)

  function ViewsOf(p: Platform, d: Device): Views
    requires FlashShaped(p, d.flash)
  {
    Views(ViewOf(d.ram.payload), ViewOf(Recover(p, d.flash)))
  }

  predicate CountedUp(v: View, index: nat, least: u32, v': View) {
    exists count: u32 :: count >= least && v' == Updated(v, UpdateCount(index, count), 0)
  }

  lemma SameSlotCount(p: Platform, d: Device)
    requires Sane(p, d)
    ensures |Recover(p, d.flash).slots| == |d.ram.payload.slots|
  {
    hide LoadSlot, Sanitize;
  }

  /** One step of a run on the two maps; a new credential goes to slot `free`. */
  predicate ViewStep(a: Views, event: Event, ok: bool, folds: bool, stale: bool, free: nat, b: Views) {
    match event
    case Completed(op, e) =>
      if ok then
        && b.live == Updated(a.live, op, free)
        && b.stored == if !op.UpdateCount? || folds then b.live
                       else if stale then a.stored else Updated(a.stored, op, free)
      else
        && b.stored == a.stored
        && (b.live == a.live || (LeavesEdit(event) && b.live == Updated(a.live, op, free)))
    case CutInside(op, _, _, _) =>
      && b.live == b.stored
      && (|| b.stored == a.stored
          || (!op.UpdateCount? && b.stored == Updated(a.live, op, free))
          || (op.UpdateCount? && CountedUp(if folds then a.live else a.stored, op.index, op.count, b.stored)))
    case Reboot(_) => b == Views(a.stored, a.stored)
  }

  predicate Succeeds(p: Platform, d: Device, event: Event)
    requires Sane(p, d)
  {
    event.Completed? && OpShaped(event.op) && Exec(p, d, event.op, event.e).ok
  }

  lemma SucceededOnViews(p: Platform, d: Device, event: Event, d': Device)
    requires Sane(p, d) && Sane(p, d') && Step(p, d, event, d') && ContentStep(p, d, event, d')
    requires Succeeds(p, d, event)
    ensures ViewStep(ViewsOf(p, d), event, true, Folds(d), Stale(p, d'), FirstFree(d.ram.payload.slots, 0),
                     ViewsOf(p, d'))
  {
    hide Exec, ExecOps, PowerCut, Boot, SlotShaped, SlotValid, Effect, ViewOf, Updated, Recover, Folds, Stale,
      WithCount;
    var q, op, free := d.ram.payload, event.op, FirstFree(d.ram.payload.slots, 0);
    EffectUpdatesView(p, q, op);
    SameSlotCount(p, d);
    if op.UpdateCount? {
      CountUpdatesView(Recover(p, d.flash), op.index, op.count, free);
    }
  }

  lemma FailedOnViews(p: Platform, d: Device, event: Event, d': Device)
    requires Sane(p, d) && Sane(p, d') && Step(p, d, event, d') && ContentStep(p, d, event, d')
    requires event.Completed? && !Succeeds(p, d, event) && Clean(p, d.ram.payload)
    ensures ViewStep(ViewsOf(p, d), event, false, Folds(d), Stale(p, d'), FirstFree(d.ram.payload.slots, 0),
                     ViewsOf(p, d'))
  {
    hide ExecOps, CommitOps, Append, PowerCut, Boot, SlotShaped, SlotValid, Effect, ViewOf, Updated, Recover, Folds,
      Stale, Clean;
    var q, op := d.ram.payload, event.op;
    if Admissible(q, op) {
      if op.Add? || op.Delete? {
        RollbackRestores(p, q, op);
      } else if !op.UpdateCount? {
        EffectUpdatesView(p, q, op);
      }
    }
  }

  lemma CutOnViews(p: Platform, d: Device, event: Event, d': Device)
    requires Sane(p, d) && Sane(p, d') && Step(p, d, event, d') && ContentStep(p, d, event, d')
    requires event.CutInside?
    ensures ViewStep(ViewsOf(p, d), event, false, Folds(d), Stale(p, d'), FirstFree(d.ram.payload.slots, 0),
                     ViewsOf(p, d'))
  {
    hide Exec, ExecOps, PowerCut, Boot, SlotShaped, SlotValid, Effect, ViewOf, Updated, Recover, Stale, WithCount;
    var q, s, r := d.ram.payload, Recover(p, d.flash), Recover(p, d'.flash);
    var op := event.op;
    SameSlotCount(p, d);
    if r != s {
      if op.UpdateCount? {
        CountUpdatesView(if Folds(d) then q else s, op.index, r.slots[op.index].signCount, 0);
      } else {
        EffectUpdatesView(p, q, op);
      }
    }
  }

  /** Representation refinement, as maps: over every run, the map in RAM and the map a reboot would recover are
      updated together by the operations that succeed; a failure shows in RAM alone, and only for the operations
      that do not roll back; a power cut leaves the stored map, or the update, a count then possibly larger. */
  lemma RunRefinesMap(p: Platform, ds: seq<Device>, events: seq<Event>, n: nat)
    requires IsRun(p, ds, events) && n < |events|
    ensures Sane(p, ds[n]) && Sane(p, ds[n + 1])
    ensures ViewStep(ViewsOf(p, ds[n]), events[n], Succeeds(p, ds[n], events[n]), Folds(ds[n]), Stale(p, ds[n + 1]),
                     FirstFree(ds[n].ram.payload.slots, 0), ViewsOf(p, ds[n + 1]))
  {
    hide Good, Holds, Exec, Recover, ViewOf, Updated, ViewStep, Step, ContentStep, Sound, Succeeds, Stale, Folds;
    RunRefines(p, ds, events, n);
    RunRefines(p, ds, events, n + 1);
    SoundIsSane(p, ds[n]);
    var d, event, d' := ds[n], events[n], ds[n + 1];
    if Succeeds(p, d, event) {
      SucceededOnViews(p, d, event, d');
    } else if event.Completed? {
      FailedOnViews(p, d, event, d');
    } else if event.CutInside? {
      CutOnViews(p, d, event, d');
    } else {
      RebootOnViews(p, d, event, d');
    }
  }

  lemma RebootOnViews(p: Platform, d: Device, event: Event, d': Device)
    requires Sane(p, d) && Sane(p, d') && ContentStep(p, d, event, d') && event.Reboot?
    ensures ViewStep(ViewsOf(p, d), event, false, Folds(d), Stale(p, d'), FirstFree(d.ram.payload.slots, 0),
                     ViewsOf(p, d'))
  {
    hide Recover, ViewOf;
  }

  /** An erased chip boots into a good device with the default content, and writes nothing while booting. */
  lemma BlankChipIsGood(p: Platform, f: Flash, e: Entropy)
    requires f == Flash(Erased(p.ImageSize()), Erased(p.ImageSize()), Erased(JOURNAL_SIZE))
    ensures Good(p, Boot(p, f, e))
    ensures Boot(p, f, e).flash == f && Boot(p, f, e).ram.payload == DefaultPayload(p)
  {
    hide Sanitize;
    ErasedHeaderRejected(p, f.slot0);
    ErasedHeaderRejected(p, f.slot1);
    BlankHeaderUnreadable(f.journal);
    DefaultIsClean(p);
  }
}
