/** One store operation at a time, completed or cut: what it leaves in RAM and what a reboot recovers. */
module StoreOperations {
  import opened Bits
  import opened NorFlash
  import opened StoreFormat
  import opened SignCountJournal
  import opened StoreSpec
  import opened CrashSafety
  import opened JournalSafety

  // ---- One operation ----

  /** What the callers of the store pass: valid records, valid configurations, and never an unset PIN without
      retries. */
  predicate OpClean(op: StoreOp) {
    match op
    case Add(record) => SlotShaped(record) && SlotValid(record)
    case SetPin(configured, retries, _) => configured || retries > 0
    case _ => true
  }

  /** What the content must allow: a place for a new credential, a credential to delete, a valid configuration. */
  predicate Allowed(slots: seq<Slot>, op: StoreOp) {
    match op
    case Add(_) => exists i :: 0 <= i < |slots| && !SlotValid(slots[i])
    case UpdateCount(index, _) => index < |slots| && SlotValid(slots[index])
    case Delete(index) => index < |slots| && SlotValid(slots[index])
    case SetUp(config) => UpConfigValid(config)
    case _ => true
  }

  /** An operation other than a count update succeeds exactly if it is allowed and the commit works; one that is not
      allowed does nothing at all. */
  lemma SucceedsIff(p: Platform, d: Device, op: StoreOp, e: Entropy)
    requires Sane(p, d) && OpShaped(op)
    ensures !op.UpdateCount? ==> (Exec(p, d, op, e).ok <==> e.wrapOk && Allowed(d.ram.payload.slots, op))
    ensures !Allowed(d.ram.payload.slots, op) ==> Exec(p, d, op, e) == Outcome(false, d)
  {
    hide SlotShaped, SlotValid, UpConfigValid, CommitOps, ApplyAll, Append;
  }

  /** What a successful operation changes, field by field; everything else is as it was. */
  lemma EffectTouches(p: Platform, q: Payload, op: StoreOp)
    requires Shaped(p, q) && Admissible(q, op)
    ensures var r := Effect(p, q, op);
      match op
      case Add(record) =>
        var free := FirstFree(q.slots, 0);
        r == q.(slots := q.slots[free := record], credentialCount := (q.credentialCount + 1) % 0x1_0000_0000)
      case UpdateCount(index, count) =>
        r == q.(slots := r.slots) && |r.slots| == |q.slots| && r.slots[index] == q.slots[index].(signCount := count)
        && forall i :: 0 <= i < |q.slots| && i != index ==> r.slots[i] == q.slots[i]
      case Delete(index) =>
        r == q.(slots := r.slots, credentialCount := r.credentialCount) && |r.slots| == |q.slots|
        && r.slots[index].inUse == 0 && PackSlot(r.slots[index]) == Zeros(SLOT_SIZE)
        && forall i :: 0 <= i < |q.slots| && i != index ==> r.slots[i] == q.slots[i]
      case Clear =>
        r == q.(slots := r.slots, credentialCount := 0) && |r.slots| == |q.slots|
        && forall i :: 0 <= i < |q.slots| ==> PackSlot(r.slots[i]) == Zeros(SLOT_SIZE)
      case SetPin(configured, retries, hash) =>
        r == q.(pinConfigured := r.pinConfigured, pinRetries := retries, pinHash := hash)
        && r.pinConfigured == if configured then 1 else 0
      case SetUp(config) =>
        r == q.(userPresence := config, provenanceMagic := 0xa5, provenanceFlags := r.provenanceFlags)
        && r.provenanceFlags == if p.debugHid then 0x81 else 0x80
  {
    hide SlotShaped, SlotValid, PackSlot;
    EmptyIsZero();
  }

  /** A slot that was zeroed is all zeros in flash. */
  lemma EmptyIsZero()
    ensures SlotShaped(EmptySlot()) && PackSlot(EmptySlot()) == Zeros(SLOT_SIZE)
  {
    var b := PackSlot(EmptySlot());
    assert PackNumbers(EmptySlot()) == Zeros(16);
    assert PackKeys(EmptySlot()) == Zeros(128);
    assert PackNames(EmptySlot()) == Zeros(288);
    assert b == Zeros(SLOT_SIZE);
  }

  /** Replacing one slot keeps the payload clean when the count follows. */
  lemma SlotChangeKeepsClean(p: Platform, q: Payload, index: nat, s: Slot, count: u32)
    requires Clean(p, q) && index < |q.slots| && SlotShaped(s) && (SlotValid(s) || s == EmptySlot())
    requires count == q.credentialCount - (if SlotValid(q.slots[index]) then 1 else 0) + (if SlotValid(s) then 1 else 0)
    ensures Clean(p, q.(slots := q.slots[index := s], credentialCount := count))
  {
    hide SlotValid, UpConfigValid, Sanitize, ValidCount;
    var r := q.(slots := q.slots[index := s], credentialCount := count);
    CleanIff(p, q);
    CleanIff(p, r);
    CountAfterUpdate(q.slots, index, s);
  }

  lemma EffectKeepsClean(p: Platform, q: Payload, op: StoreOp)
    requires Clean(p, q) && OpClean(op) && Admissible(q, op)
    ensures Clean(p, Effect(p, q, op))
  {
    hide SlotValid, UpConfigValid, Sanitize, SlotShaped, ValidCount;
    EffectShaped(p, q, op);
    CleanIff(p, q);
    match op {
      case Add(record) =>
        SlotChangeKeepsClean(p, q, FirstFree(q.slots, 0), record, q.credentialCount + 1);
      case UpdateCount(index, count) =>
        SameValidity(q.slots[index], count);
        SlotChangeKeepsClean(p, q, index, q.slots[index].(signCount := count), q.credentialCount);
      case Delete(index) =>
        CountAfterUpdate(q.slots, index, EmptySlot());
        SlotChangeKeepsClean(p, q, index, EmptySlot(), q.credentialCount - 1);
      case Clear =>
        CountOfNone(Effect(p, q, op).slots);
        CleanIff(p, Effect(p, q, op));
      case SetPin(_, _, _) => CleanIff(p, Effect(p, q, op));
      case SetUp(config) => CleanIff(p, Effect(p, q, op));
    }
  }

  lemma SameValidity(s: Slot, count: u32)
    ensures SlotValid(s.(signCount := count)) == SlotValid(s)
    ensures SlotShaped(s) ==> SlotShaped(s.(signCount := count))
  {
  }

  /** After a commit the journal is ready, blank and bound: the next append finds room. */
  lemma FoldedHasRoom(p: Platform, f: Flash, ram: Ram, e: Entropy)
    requires Anchored(p, f, ram) && Clean(p, ram.payload) && ram.generation < 0xffff_ffff && e.wrapOk
    ensures var folded := Commit(p, Device(f, ram), e).device;
      Good(p, folded) && CanAppend(p, folded)
  {
    hide Chooses, Synced, Sanitize, SlotShaped, CommitOps, ImageCrc, FreshJournal, ApplyAll, EntryCells, EntryBlank,
      PrepareImage;
    CommitCompletes(p, f, ram, e);
    CommitWrites(p, f, ram, e.salt);
    FreshJournalReads(Successor(ram.generation), ImageCrc(p, ram.payload, e.salt));
  }

  /** Appending to a journal with room, once RAM already holds the new count. */
  function Appended(p: Platform, d: Device, index: u16, count: u32): Device
    requires FlashShaped(p, d.flash) && d.ram.journal.nextIndex < CAPACITY
  {
    var j := d.ram.journal;
    Device(Apply(d.flash, AppendFlashOp(p, d, index, count)),
           d.ram.(journal := j.(nextIndex := j.nextIndex + 1, nextSequence := Successor(j.nextSequence))))
  }

  /** The entry an append leaves in flash, byte order and all: the slot, its complement, the count, and the sequence
      number RAM had reached; RAM goes on to the next one. */
  lemma AppendedEntry(p: Platform, d: Device, index: u16, count: u32)
    requires FlashShaped(p, d.flash) && d.ram.journal.nextIndex < CAPACITY && CanAppend(p, d)
    ensures var r, n := Appended(p, d, index, count), d.ram.journal.nextIndex;
      && |r.flash.journal| == JOURNAL_SIZE
      && EntryAt(r.flash.journal, n)
           == Entry(0x5343_4e54, index, 0xffff - index, count, d.ram.journal.nextSequence)
      && r.ram.journal.nextSequence == (d.ram.journal.nextSequence + 1) % 0x1_0000_0000
      && r.ram.journal.nextIndex == n + 1
      && forall i :: 0 <= i < CAPACITY && i != n ==> EntryCells(r.flash.journal, i) == EntryCells(d.flash.journal, i)
  {
    hide EntryBlank, EntryCells, WithEntry, EntryBytes, CellsAfter, ParseEntry;
    var e := NewEntry(index, count, d.ram.journal.nextSequence);
    CompletedAppend(d.flash.journal, d.ram.journal.nextIndex, e);
    WithEntryReads(d.flash.journal, d.ram.journal.nextIndex, EntryBytes(e));
    ParseEntryBytes(e);
  }

  /** The device whose RAM already holds the new count, before anything is written. */
  function Edited(d: Device, index: nat, count: u32): Device
    requires index < |d.ram.payload.slots|
  {
    d.(ram := d.ram.(payload := WithCount(d.ram.payload, index, count)))
  }

  /** The cases of sign_count_journal_append behind a ready journal. */
  lemma UpdateCases(p: Platform, d: Device, index: nat, count: u32, e: Entropy)
    requires Sane(p, d) && d.ram.journal.ready
    requires index < |d.ram.payload.slots| && SlotValid(d.ram.payload.slots[index])
    ensures var r := Exec(p, d, UpdateCount(index, count), e);
      var edited := Edited(d, index, count);
      if d.ram.journal.nextIndex < CAPACITY then
        r == if CanAppend(p, d) then Outcome(true, Appended(p, edited, index, count)) else Outcome(false, d)
      else if e.wrapOk then
        var folded := Commit(p, edited, e).device;
        CanAppend(p, folded) ==> r == Outcome(true, Appended(p, folded, index, count))
      else r == Outcome(false, d)
  {
    hide SlotValid, CommitOps, EntryBlank, EntryCells, ApplyAll, AppendFlashOp, PackSlot, SlotShaped;
  }

  lemma AppendEdited(p: Platform, d: Device, index: nat, count: u32)
    requires Good(p, d) && Sane(p, d) && d.ram.journal.ready && d.ram.journal.nextIndex < CAPACITY && CanAppend(p, d)
    requires index < |d.ram.payload.slots| && SlotValid(d.ram.payload.slots[index])
    ensures Good(p, Appended(p, Edited(d, index, count), index, count))
  {
    hide Chooses, Synced, SlotValid, SlotShaped, AppendOp, EntryCells, EntryBlank;
    AppendCompletes(p, d, index, count);
  }

  lemma AppendToFolded(p: Platform, f: Flash, ram: Ram, index: nat, count: u32, e: Entropy)
    requires FlashShaped(p, f) && e.wrapOk && Shaped(p, ram.payload)
    requires var folded := Commit(p, Device(f, ram), e).device; Good(p, folded) && CanAppend(p, folded)
    requires index < |ram.payload.slots| && SlotValid(ram.payload.slots[index])
    requires ram.payload.slots[index].signCount == count
    ensures Good(p, Appended(p, Commit(p, Device(f, ram), e).device, index, count))
  {
    hide Chooses, Synced, SlotValid, SlotShaped, CommitOps, CanAppend, AppendOp, ApplyAll, ImageCrc;
    var folded := Commit(p, Device(f, ram), e).device;
    assert WithCount(ram.payload, index, count) == ram.payload;
    AppendCompletes(p, folded, index, count);
  }

  /** A count update behind a ready journal is durable when it succeeds; when it fails, nothing is written and
      RAM is rolled back. */
  lemma UpdateCompletes(p: Platform, d: Device, index: nat, count: u32, e: Entropy)
    requires Good(p, d) && Sane(p, d) && d.ram.journal.ready && d.ram.generation < 0xffff_ffff
    requires index < |d.ram.payload.slots| && SlotValid(d.ram.payload.slots[index])
    ensures var r := Exec(p, d, UpdateCount(index, count), e);
      && (r.ok ==> Good(p, r.device) && r.device.ram.payload == WithCount(d.ram.payload, index, count))
      && (!r.ok ==> r.device == d)
  {
    hide Chooses, Synced, SlotValid, Sanitize, SlotShaped, Exec, CommitOps, CanAppend, AppendFlashOp, ApplyAll,
      ImageCrc, BootRam;
    UpdateCases(p, d, index, count, e);
    if d.ram.journal.nextIndex < CAPACITY {
      if CanAppend(p, d) {
        AppendEdited(p, d, index, count);
      }
    } else if e.wrapOk {
      var edited := Edited(d, index, count);
      RebootRecovers(p, d);
      EffectKeepsClean(p, d.ram.payload, UpdateCount(index, count));
      FoldedHasRoom(p, d.flash, edited.ram, e);
      SameValidity(d.ram.payload.slots[index], count);
      AppendToFolded(p, d.flash, edited.ram, index, count, e);
    }
  }

  lemma RollbackRestores(p: Platform, q: Payload, op: StoreOp)
    requires Clean(p, q) && Admissible(q, op) && (op.Add? || op.Delete?)
    ensures Rollback(p, q, op) == q
  {
    if op.Add? {
      assert q.slots[FirstFree(q.slots, 0)] == EmptySlot();
    }
  }

  lemma GoodIsSane(p: Platform, d: Device)
    requires Good(p, d)
    ensures Sane(p, d)
  {
    RebootRecovers(p, d);
  }

  /** Exactly which failures show after a reboot: adding and deleting restore what they had changed in RAM; setting
      the PIN state, setting the user-presence configuration and clearing do not, so RAM then differs from what
      the flash holds whenever the operation would have changed anything. */
  lemma FailureShowsIff(p: Platform, d: Device, op: StoreOp, e: Entropy)
    requires Good(p, d) && Sane(p, d) && OpShaped(op) && !e.wrapOk
    requires Admissible(d.ram.payload, op) && !op.UpdateCount?
    ensures var r := Exec(p, d, op, e);
      && !r.ok && r.device.flash == d.flash && Recover(p, r.device.flash) == d.ram.payload
      && (r.device.ram.payload == Recover(p, r.device.flash) <==>
           op.Add? || op.Delete? || Effect(p, d.ram.payload, op) == d.ram.payload)
  {
    hide Chooses, Synced, SlotValid, UpConfigValid, CommitOps, ImageCrc, ApplyAll, Sanitize;
    RebootRecovers(p, d);
    if op.Add? || op.Delete? {
      RollbackRestores(p, d.ram.payload, op);
    }
  }

  /** Whatever had been left in RAM by a failed operation, the next successful commit makes it durable. */
  lemma CommitCatchesUp(p: Platform, d: Device, op: StoreOp, e: Entropy)
    requires Anchored(p, d.flash, d.ram) && Sane(p, d) && Clean(p, d.ram.payload) && OpClean(op)
    requires Admissible(d.ram.payload, op) && !op.UpdateCount? && e.wrapOk && d.ram.generation < 0xffff_ffff
    ensures OpShaped(op)
    ensures var r := Exec(p, d, op, e);
      r.ok && Good(p, r.device) && Recover(p, r.device.flash) == Effect(p, d.ram.payload, op)
  {
    hide Chooses, Synced, SlotValid, UpConfigValid, CommitOps, ImageCrc, ApplyAll, Sanitize, BootRam;
    EffectKeepsClean(p, d.ram.payload, op);
    CommitCompletes(p, d.flash, d.ram.(payload := Effect(p, d.ram.payload, op)), e);
    RebootRecovers(p, Exec(p, d, op, e).device);
  }

  // ---- Power cuts inside an operation ----

  /** The flash operations of an update behind a ready journal. */
  lemma UpdateOpsCases(p: Platform, d: Device, index: nat, count: u32, e: Entropy)
    requires Sane(p, d) && d.ram.journal.ready
    requires index < |d.ram.payload.slots| && SlotValid(d.ram.payload.slots[index])
    ensures var ops := ExecOps(p, d, UpdateCount(index, count), e);
      var edited := Edited(d, index, count);
      if d.ram.journal.nextIndex < CAPACITY then
        ops == if CanAppend(p, d) then [AppendFlashOp(p, d, index, count)] else []
      else if e.wrapOk then
        var folded := Commit(p, edited, e).device;
        CanAppend(p, folded) ==>
          ops == CommitOps(p, edited.ram, e.salt) + [AppendFlashOp(p, folded, index, count)]
      else ops == []
  {
    hide SlotValid, CommitOps, EntryBlank, EntryCells, ApplyAll, AppendOp, PackSlot, SlotShaped;
  }
}
