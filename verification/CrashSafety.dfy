/** What a power cut can and cannot do to a commit, and why a reboot recovers what was stored. */
module CrashSafety {
  import opened Bits
  import opened Words
  import opened NorFlash
  import opened StoreFormat
  import opened SignCountJournal
  import opened StoreSpec

  // ---- Invariant ----

  /** Nothing at boot would have to repair this payload. */
  predicate Clean(p: Platform, q: Payload) {
    && Shaped(p, q)
    && Sanitize(p, q) == q
    && forall i :: 0 <= i < |q.slots| ==> SlotValid(q.slots[i]) || q.slots[i] == EmptySlot()
  }

  /** Slot `active` is complete and newer than its sibling; -1 means that no slot loads. */
  predicate Chooses(p: Platform, f: Flash, active: int, generation: u32) {
    if active == -1 then
      LoadSlot(p, f.slot0) == None && LoadSlot(p, f.slot1) == None && generation == 0
    else
      && 0 <= active <= 1
      && var mine := LoadSlot(p, f.Read(SlotRegion(active)));
         var other := LoadSlot(p, f.Read(SlotRegion(TargetSlot(active))));
         && mine.Some? && mine.value.wrapped && mine.value.generation == generation
         && Clean(p, mine.value.payload)
         && (other.Some? ==> other.value.generation < generation)
  }

  /** The content and checksum of the active image. */
  function Base(p: Platform, f: Flash, active: int): (r: (Payload, u32))
    requires active == 0 || active == 1 ==> LoadSlot(p, f.Read(SlotRegion(active))).Some?
    ensures Shaped(p, r.0)
  {
    if active == 0 || active == 1 then
      var loaded := LoadSlot(p, f.Read(SlotRegion(active))).value;
      (loaded.payload, loaded.payloadCrc)
    else (DefaultPayload(p), 0)
  }

  /** No entry has been written. */
  predicate AllBlank(b: seq<byte>)
    requires |b| == JOURNAL_SIZE
  {
    forall i :: 0 <= i < CAPACITY ==> EntryBlank(EntryCells(b, i))
  }

  /** A readable journal header that names a generation the store has not reached has nothing behind it. */
  predicate JournalNotAhead(f: Flash, generation: u32)
    requires |f.journal| == JOURNAL_SIZE
  {
    var h := ReadJournalHeader(f.journal);
    h.Some? && h.value.storeGeneration > generation ==> AllBlank(f.journal)
  }

  /** Everything behind entry `stop` is blank. */
  predicate BlankBehind(b: seq<byte>, stop: nat)
    requires |b| == JOURNAL_SIZE
  {
    forall i :: stop < i < CAPACITY ==> EntryBlank(EntryCells(b, i))
  }

  /** The RAM image is what the flash holds: the active image with its journal replayed. */
  predicate Synced(p: Platform, f: Flash, ram: Ram)
    requires FlashShaped(p, f) && Chooses(p, f, ram.active, ram.generation)
  {
    var (base, crc) := Base(p, f, ram.active);
    if ram.journal.ready then
      && ram.active >= 0
      && Bound(f.journal, ram.generation, crc)
      && var log := LiveEntries(f.journal, 0);
         && ram.journal.nextIndex == |log|
         && ram.payload == base.(slots := ReplayLog(base.slots, log))
         && BlankBehind(f.journal, |log|)
    else
      && ram.journal.nextIndex == 0
      && ram.payload == base
      && (ram.active >= 0 ==> !Bound(f.journal, ram.generation, crc))
  }

  predicate Good(p: Platform, d: Device) {
    && FlashShaped(p, d.flash)
    && Chooses(p, d.flash, d.ram.active, d.ram.generation)
    && JournalNotAhead(d.flash, d.ram.generation)
    && Synced(p, d.flash, d.ram)
  }

  // ---- Power cuts ----

  /** `t` is `before`, `after`, or nothing. */
  predicate OldNewOrNone<T(==)>(before: Option<T>, after: Option<T>, t: Option<T>) {
    t == None || t == before || t == after
  }

  /** The two hypotheses on torn bytes. A slot is protected by checksums: torn in the middle of an operation, it
      loads as before the operation, as after it, or not at all. The journal header is not: a torn program of it
      is harmless (JournalHeaderCut), and of a torn erase only the next predicate is assumed. */
  predicate TearDetected(p: Platform, f: Flash, op: FlashOp, t: Flash) {
    var after := Apply(f, op);
    && OldNewOrNone(LoadSlot(p, f.slot0), LoadSlot(p, after.slot0), LoadSlot(p, t.slot0))
    && OldNewOrNone(LoadSlot(p, f.slot1), LoadSlot(p, after.slot1), LoadSlot(p, t.slot1))
    && (op == Erase(Journal) && |t.journal| == JOURNAL_SIZE ==> OldEntriesUnclaimed(p, f, t.journal))
  }

  /** While entries of the old journal are left, its torn header does not happen to name the image that boot
      chooses, nor a generation still to come. */
  predicate OldEntriesUnclaimed(p: Platform, f: Flash, b: seq<byte>)
    requires |b| == JOURNAL_SIZE
  {
    var h, chosen := ReadJournalHeader(b), SelectSlot(p, f);
    h.Some? && !AllBlank(b) ==>
      && chosen.Some?
      && h.value.storeGeneration <= chosen.value.loaded.generation
      && !Bound(b, chosen.value.loaded.generation, chosen.value.loaded.payloadCrc)
  }

  /** Power is lost somewhere inside the sequence of flash operations and `t` is what is left. */
  predicate PowerCut(p: Platform, f: Flash, ops: seq<FlashOp>, t: Flash)
    decreases |ops|
  {
    if ops == [] then t == f
    else (Interrupted(f, ops[0], t) && TearDetected(p, f, ops[0], t)) || PowerCut(p, Apply(f, ops[0]), ops[1..], t)
  }

  lemma {:induction false} PowerCutIsCut(p: Platform, f: Flash, ops: seq<FlashOp>, t: Flash)
    requires PowerCut(p, f, ops, t)
    ensures CutDuring(f, ops, t)
    decreases |ops|
  {
    if ops != [] && PowerCut(p, Apply(f, ops[0]), ops[1..], t) {
      PowerCutIsCut(p, Apply(f, ops[0]), ops[1..], t);
    }
  }

  /** A cut inside a concatenation is a cut inside the first part or inside the second. */
  lemma {:induction false} PowerCutOfConcat(p: Platform, f: Flash, a: seq<FlashOp>, b: seq<FlashOp>, t: Flash)
    requires PowerCut(p, f, a + b, t)
    ensures PowerCut(p, f, a, t) || PowerCut(p, ApplyAll(f, a), b, t)
    decreases |a|
  {
    hide TearDetected, Interrupted, Apply;
    if a == [] {
      assert a + b == b;
    } else {
      assert (a + b)[0] == a[0] && (a + b)[1..] == a[1..] + b;
      if PowerCut(p, Apply(f, a[0]), a[1..] + b, t) {
        PowerCutOfConcat(p, Apply(f, a[0]), a[1..], b, t);
      }
    }
  }

  lemma PowerCutOfOne(p: Platform, f: Flash, op: FlashOp, t: Flash)
    requires PowerCut(p, f, [op], t)
    ensures Interrupted(f, op, t) && TearDetected(p, f, op, t)
  {
    hide LoadSlot;
    InterruptedAtEnds(f, op);
    var none: seq<FlashOp> := [op][1..];
    assert PowerCut(p, Apply(f, op), none, t) ==> t == Apply(f, op);
    if op == Erase(Journal) && t == Apply(f, op) && |t.journal| == JOURNAL_SIZE {
      BlankHeaderUnreadable(t.journal);
    }
  }

  // ---- Clean payloads ----

  lemma {:induction false} CountOfNone(slots: seq<Slot>)
    requires forall i :: 0 <= i < |slots| ==> !SlotValid(slots[i])
    ensures ValidCount(slots) == 0
    decreases |slots|
  {
    if slots != [] {
      CountOfNone(slots[..|slots| - 1]);
    }
  }

  lemma {:induction false} CountAfterUpdate(slots: seq<Slot>, index: nat, s: Slot)
    requires index < |slots|
    ensures ValidCount(slots[index := s])
      == ValidCount(slots) - (if SlotValid(slots[index]) then 1 else 0) + (if SlotValid(s) then 1 else 0)
    decreases |slots|
  {
    var last := |slots| - 1;
    var updated := slots[index := s];
    if index == last {
      assert updated[..last] == slots[..last];
    } else {
      CountAfterUpdate(slots[..last], index, s);
      assert updated[..last] == slots[..last][index := s];
    }
  }

  /** Being clean, slot by slot and field by field. */
  lemma CleanIff(p: Platform, q: Payload)
    requires Shaped(p, q)
    ensures Clean(p, q) <==>
      && (forall i :: 0 <= i < |q.slots| ==> SlotValid(q.slots[i]) || q.slots[i] == EmptySlot())
      && q.credentialCount == ValidCount(q.slots)
      && UpConfigValid(q.userPresence) && UpTrusted(p, q)
      && !(q.pinRetries == 0 && q.pinConfigured == 0)
  {
    var r := SanitizeSlots(p, q);
    if forall i :: 0 <= i < |q.slots| ==> SlotValid(q.slots[i]) || q.slots[i] == EmptySlot() {
      assert r.slots == q.slots;
    }
    if Clean(p, q) {
      assert Sanitize(p, q).credentialCount == r.credentialCount;
      MarkedUpDiffers(p, r);
    }
  }

  lemma MarkedUpDiffers(p: Platform, q: Payload)
    ensures UpTrusted(p, MarkUp(p, q, p.defaultUp)) && UpConfigValid(MarkUp(p, q, p.defaultUp).userPresence)
  {
  }

  lemma DefaultIsClean(p: Platform)
    ensures Clean(p, DefaultPayload(p))
  {
    CountOfNone(DefaultPayload(p).slots);
    CleanIff(p, DefaultPayload(p));
  }

  lemma ReplayEntryKeepsClean(p: Platform, q: Payload, e: Entry)
    requires Clean(p, q)
    ensures Clean(p, q.(slots := ReplayEntry(q.slots, e)))
  {
    hide Sanitize;
    var r := q.(slots := ReplayEntry(q.slots, e));
    if r.slots != q.slots {
      CountAfterUpdate(q.slots, e.slotIndex, q.slots[e.slotIndex].(signCount := e.signCount));
    }
    CleanIff(p, q);
    CleanIff(p, r);
  }

  /** Replaying counts onto a clean payload keeps it clean. */
  lemma {:induction false} ReplayKeepsClean(p: Platform, q: Payload, log: seq<Entry>)
    requires Clean(p, q)
    ensures Clean(p, q.(slots := ReplayLog(q.slots, log)))
    decreases |log|
  {
    hide Clean, ReplayEntry;
    if log != [] {
      var e := log[0];
      ReplayEntryKeepsClean(p, q, e);
      ReplayKeepsClean(p, q.(slots := ReplayEntry(q.slots, e)), log[1..]);
    } else {
      assert q.(slots := ReplayLog(q.slots, log)) == q;
    }
  }

  // ---- Reboot ----

  /** A reboot of a device in a good state recovers exactly the RAM image, and needs no repair. */
  lemma RebootRecovers(p: Platform, d: Device)
    requires Good(p, d)
    ensures Clean(p, d.ram.payload)
    ensures Recover(p, d.flash) == d.ram.payload
    ensures !BootRam(p, d.flash).changed
    ensures var r := BootRam(p, d.flash).ram;
      && r.generation == d.ram.generation && r.active == d.ram.active
      && r.journal.ready == d.ram.journal.ready && r.journal.nextIndex == d.ram.journal.nextIndex
    ensures Good(p, Device(d.flash, BootRam(p, d.flash).ram))
  {
    hide LoadSlot, Sanitize;
    var f, ram := d.flash, d.ram;
    DefaultIsClean(p);
    if ram.active >= 0 {
      var loaded := LoadSlot(p, f.Read(SlotRegion(ram.active))).value;
      assert SelectSlot(p, f) == Some(Chosen(ram.active, loaded));
      assert Bound(f.journal, loaded.generation, loaded.payloadCrc) == ram.journal.ready;
      if ram.journal.ready {
        ReplayKeepsClean(p, loaded.payload, LiveEntries(f.journal, 0));
      } else {
        assert ReplayLog(loaded.payload.slots, []) == loaded.payload.slots;
      }
    } else {
      assert SelectSlot(p, f) == None;
    }
  }

  // ---- Commit ----

  /** Until the header page is programmed, an image is rejected whatever the checksums are. */
  lemma UnfinishedImageRejected(p: Platform, f: Flash, region: Region, image: seq<byte>, t: Flash)
    requires |image| == p.ImageSize() == |f.Read(region)|
    requires forall i :: 0 <= i < 256 ==> f.Read(region)[i] == 255
    requires CutDuring(f, PagePrograms(region, image, 1, 16 * p.slotSectors), t)
    ensures LoadSlot(p, t.Read(region)) == None
  {
    var pages := PagePrograms(region, image, 1, 16 * p.slotSectors);
    CutSpares(f, pages, t, region, 0, 256);
    CutKeepsShape(f, pages, t);
    var was, cells := f.Read(region)[0..256], t.Read(region);
    assert cells[0..256] == was;
    assert cells[0] == was[0] && cells[1] == was[1] && cells[2] == was[2] && cells[3] == was[3];
    ErasedHeaderRejected(p, cells);
  }

  lemma EraseCut(p: Platform, f: Flash, region: Region, t: Flash)
    requires PowerCut(p, f, [Erase(region)], t) && region != Journal && 4 <= |f.Read(region)|
    ensures LoadSlot(p, t.Read(region)) == None || LoadSlot(p, t.Read(region)) == LoadSlot(p, f.Read(region))
  {
    PowerCutOfOne(p, f, Erase(region), t);
    ErasedHeaderRejected(p, Erased(|f.Read(region)|));
  }

  lemma HeaderCut(p: Platform, f: Flash, region: Region, image: seq<byte>, t: Flash)
    requires region != Journal && 256 <= |image| && LoadSlot(p, f.Read(region)) == None
    requires Apply(f, Program(region, 0, image[..256])).Read(region) == image
    requires PowerCut(p, f, [Program(region, 0, image[..256])], t)
    ensures LoadSlot(p, t.Read(region)) == None || LoadSlot(p, t.Read(region)) == LoadSlot(p, image)
  {
    PowerCutOfOne(p, f, Program(region, 0, image[..256]), t);
  }

  /** The flash once the target is erased, and once all pages but the header's are programmed. */
  function ErasedTarget(f: Flash, region: Region): Flash {
    Apply(f, Erase(region))
  }

  function BeforeHeader(p: Platform, f: Flash, region: Region, image: seq<byte>): Flash
    requires |image| == p.ImageSize()
  {
    ApplyAll(ErasedTarget(f, region), PagePrograms(region, image, 1, 16 * p.slotSectors))
  }

  /** A cut falls into the erase, into the page loop, or into the header page. */
  lemma SlotCutPhases(p: Platform, f: Flash, region: Region, image: seq<byte>, t: Flash)
    requires |image| == p.ImageSize()
    requires PowerCut(p, f, SlotOps(p, region, image), t)
    ensures PowerCut(p, f, [Erase(region)], t)
         || CutDuring(ErasedTarget(f, region), PagePrograms(region, image, 1, 16 * p.slotSectors), t)
         || PowerCut(p, BeforeHeader(p, f, region, image), [Program(region, 0, image[..256])], t)
  {
    var start, pages := [Erase(region)], PagePrograms(region, image, 1, 16 * p.slotSectors);
    var last := Program(region, 0, image[..256]);
    var f1 := ErasedTarget(f, region);
    assert ApplyAll(f, start) == f1 by { assert ApplyAll(f1, start[1..]) == f1; }
    assert ApplyAll(f, start + pages) == ApplyAll(f1, pages) by { ApplyAllConcat(f, start, pages); }
    PowerCutOfConcat(p, f, start + pages, [last], t);
    if PowerCut(p, f, start + pages, t) {
      PowerCutOfConcat(p, f, start, pages, t);
      if PowerCut(p, f1, pages, t) {
        PowerCutIsCut(p, f1, pages, t);
      }
    }
  }

  lemma BeforeHeaderRejected(p: Platform, f: Flash, region: Region, image: seq<byte>)
    requires |image| == p.ImageSize() == |f.Read(region)|
    ensures LoadSlot(p, BeforeHeader(p, f, region, image).Read(region)) == None
  {
    hide LoadSlot, ApplyAll, CutDuring, PagePrograms;
    CompletedIsCut(ErasedTarget(f, region), PagePrograms(region, image, 1, 16 * p.slotSectors));
    UnfinishedImageRejected(p, ErasedTarget(f, region), region, image, BeforeHeader(p, f, region, image));
  }

  lemma HeaderPageCompletes(p: Platform, f: Flash, region: Region, image: seq<byte>)
    requires |image| == p.ImageSize() == |f.Read(region)|
    ensures Apply(BeforeHeader(p, f, region, image), Program(region, 0, image[..256])) == f.With(region, image)
  {
    hide LoadSlot, ApplyAll, PagePrograms, Programmed, Spliced;
    PagesWritten(ErasedTarget(f, region), region, image, 1, 16 * p.slotSectors);
    HeaderCompletes(image);
  }

  lemma HeaderCompletes(image: seq<byte>)
    requires 256 <= |image|
    ensures Programmed(Spliced(Erased(|image|), image, 256, |image|), 0, image[..256]) == image
  {
    var cells := Spliced(Erased(|image|), image, 256, |image|);
    assert image[0..256] == image[..256];
    StretchWritten(cells, image, 0, 256);
    assert Spliced(cells, image, 0, 256) == image;
  }

  /** What the slot's flash operations leave when they all complete. */
  lemma SlotOpsWrite(p: Platform, f: Flash, region: Region, image: seq<byte>)
    requires |image| == p.ImageSize() == |f.Read(region)|
    ensures ApplyAll(f, SlotOps(p, region, image)) == f.With(region, image)
  {
    var start, pages := [Erase(region)], PagePrograms(region, image, 1, 16 * p.slotSectors);
    var f1 := ErasedTarget(f, region);
    assert ApplyAll(f, start) == f1 by { assert ApplyAll(f1, start[1..]) == f1; }
    ApplyAllConcat(f, start, pages);
    ApplyAllAppend(f, start + pages, Program(region, 0, image[..256]));
    HeaderPageCompletes(p, f, region, image);
  }

  /** Cut anywhere inside the slot's operations, the target slot loads as before, as the new image, or not at
      all, and nothing else has changed. */
  lemma SlotOpsCut(p: Platform, f: Flash, region: Region, image: seq<byte>, t: Flash)
    requires |image| == p.ImageSize() == |f.Read(region)| && region != Journal
    requires PowerCut(p, f, SlotOps(p, region, image), t)
    ensures OldNewOrNone(LoadSlot(p, f.Read(region)), LoadSlot(p, image), LoadSlot(p, t.Read(region)))
    ensures t == f.With(region, t.Read(region)) && SameShape(f, t)
  {
    hide LoadSlot;
    PowerCutIsCut(p, f, SlotOps(p, region, image), t);
    CutKeepsOthers(f, SlotOps(p, region, image), region, t);
    SlotCutPhases(p, f, region, image, t);
    if PowerCut(p, f, [Erase(region)], t) {
      EraseCut(p, f, region, t);
    } else if PowerCut(p, BeforeHeader(p, f, region, image), [Program(region, 0, image[..256])], t) {
      BeforeHeaderRejected(p, f, region, image);
      HeaderPageCompletes(p, f, region, image);
      HeaderCut(p, BeforeHeader(p, f, region, image), region, image, t);
    } else {
      UnfinishedImageRejected(p, ErasedTarget(f, region), region, image, t);
    }
  }

  function ErasedJournal(f: Flash): Flash {
    Apply(f, Erase(Journal))
  }

  function FirstPageOp(generation: u32, payloadCrc: u32): FlashOp {
    Program(Journal, 0, FirstPage(generation, payloadCrc))
  }

  lemma FirstPageWritten(f: Flash, generation: u32, payloadCrc: u32)
    requires |f.journal| == JOURNAL_SIZE
    ensures Apply(ErasedJournal(f), FirstPageOp(generation, payloadCrc))
      == f.(journal := FreshJournal(generation, payloadCrc))
  {
    var blank, whole := Erased(JOURNAL_SIZE), FreshJournal(generation, payloadCrc);
    assert whole[0..256] == FirstPage(generation, payloadCrc);
    StretchWritten(blank, whole, 0, 256);
    assert Spliced(blank, whole, 0, 256) == whole;
  }

  lemma JournalOpsSplit(f: Flash, generation: u32, payloadCrc: u32)
    ensures JournalOps(generation, payloadCrc) == [Erase(Journal)] + [FirstPageOp(generation, payloadCrc)]
    ensures ApplyAll(f, [Erase(Journal)]) == ErasedJournal(f)
    ensures ApplyAll(f, JournalOps(generation, payloadCrc))
      == Apply(ErasedJournal(f), FirstPageOp(generation, payloadCrc))
  {
    hide Apply, FirstPage;
    var start: seq<FlashOp> := [Erase(Journal)];
    assert start[1..] == [];
    assert ApplyAll(f, start) == Apply(f, Erase(Journal));
    ApplyAllAppend(f, start, FirstPageOp(generation, payloadCrc));
  }

  lemma JournalOpsWrite(f: Flash, generation: u32, payloadCrc: u32)
    requires |f.journal| == JOURNAL_SIZE
    ensures ApplyAll(f, JournalOps(generation, payloadCrc)) == f.(journal := FreshJournal(generation, payloadCrc))
  {
    hide *;
    JournalOpsSplit(f, generation, payloadCrc);
    FirstPageWritten(f, generation, payloadCrc);
  }

  /** A torn program of the header page leaves every entry blank, whatever header it leaves. */
  lemma JournalHeaderCut(f: Flash, generation: u32, payloadCrc: u32, t: Flash)
    requires |f.journal| == JOURNAL_SIZE
    requires Interrupted(ErasedJournal(f), FirstPageOp(generation, payloadCrc), t)
    ensures |t.journal| == JOURNAL_SIZE && AllBlank(t.journal)
  {
    hide Interrupted, FirstPage, EntryBlank, EntryCells;
    var f1, op := ErasedJournal(f), FirstPageOp(generation, payloadCrc);
    OneSpares(f1, op, t, Journal, 256, JOURNAL_SIZE);
    forall i | 0 <= i < CAPACITY
      ensures EntryBlank(EntryCells(t.journal, i))
    {
      BlankStretch(t.journal, f1.journal, i);
    }
  }

  /** Cut inside the re-initialisation, only the journal has changed, and it is blank or not claimed by the image
      that boot chooses. */
  lemma JournalOpsCut(p: Platform, f: Flash, generation: u32, payloadCrc: u32, t: Flash)
    requires |f.journal| == JOURNAL_SIZE
    requires PowerCut(p, f, JournalOps(generation, payloadCrc), t)
    ensures t == f.(journal := t.journal) && |t.journal| == JOURNAL_SIZE
    ensures OldEntriesUnclaimed(p, f, t.journal)
  {
    hide LoadSlot, Interrupted, PowerCut, FirstPage, EntryBlank, EntryCells, CutDuring, Apply, SelectSlot;
    var ops := JournalOps(generation, payloadCrc);
    PowerCutIsCut(p, f, ops, t);
    CutKeepsOthers(f, ops, Journal, t);
    JournalOpsSplit(f, generation, payloadCrc);
    PowerCutOfConcat(p, f, [Erase(Journal)], [FirstPageOp(generation, payloadCrc)], t);
    if PowerCut(p, f, [Erase(Journal)], t) {
      PowerCutOfOne(p, f, Erase(Journal), t);
    } else {
      PowerCutOfOne(p, ErasedJournal(f), FirstPageOp(generation, payloadCrc), t);
      JournalHeaderCut(f, generation, payloadCrc, t);
    }
  }

  lemma BlankStretch(b: seq<byte>, blank: seq<byte>, index: nat)
    requires |b| == |blank| == JOURNAL_SIZE && index < CAPACITY
    requires b[256..JOURNAL_SIZE] == blank[256..JOURNAL_SIZE]
    requires forall i :: 0 <= i < JOURNAL_SIZE ==> blank[i] == 255
    ensures EntryBlank(EntryCells(b, index))
  {
    forall k | 0 <= k < 16
      ensures EntryCells(b, index)[k] == 255
    {
      var i := EntryOffset(index) + k;
      assert b[i] == b[256..JOURNAL_SIZE][i - 256] == blank[256..JOURNAL_SIZE][i - 256];
    }
  }

  /** The flash is in order even if the RAM image has been edited since: what a commit starts from. */
  predicate Anchored(p: Platform, f: Flash, ram: Ram) {
    && FlashShaped(p, f)
    && Chooses(p, f, ram.active, ram.generation)
    && JournalNotAhead(f, ram.generation)
  }

  /** The slot a commit leaves alone does not load as anything newer than RAM. */
  predicate KeptIsOlder(p: Platform, f: Flash, active: int, generation: u32) {
    var kept := LoadSlot(p, f.Read(SlotRegion(TargetSlot(TargetSlot(active)))));
    kept.Some? ==> kept.value.generation <= generation
  }

  /** Once the target slot loads as the new image, boot chooses it over the old one. */
  lemma NewSlotWins(p: Platform, t: Flash, ram: Ram, salt: Bytes16)
    requires FlashShaped(p, t) && Clean(p, ram.payload) && ram.generation < 0xffff_ffff
    requires KeptIsOlder(p, t, ram.active, ram.generation)
    requires LoadSlot(p, t.Read(SlotRegion(TargetSlot(ram.active))))
          == LoadSlot(p, PrepareImage(p, ram.payload, Successor(ram.generation), salt))
    ensures Chooses(p, t, TargetSlot(ram.active), Successor(ram.generation))
    ensures Base(p, t, TargetSlot(ram.active)) == (ram.payload, ImageCrc(p, ram.payload, salt))
  {
    hide LoadSlot, Sanitize, PrepareImage, ImageCrc;
    LoadPrepared(p, ram.payload, Successor(ram.generation), salt);
  }

  lemma NewSlotChosen(p: Platform, f: Flash, ram: Ram, salt: Bytes16, t: Flash)
    requires Anchored(p, f, ram) && Clean(p, ram.payload) && ram.generation < 0xffff_ffff
    requires FlashShaped(p, t)
    requires LoadSlot(p, t.Read(SlotRegion(TargetSlot(ram.active))))
          == LoadSlot(p, PrepareImage(p, ram.payload, Successor(ram.generation), salt))
    requires ram.active >= 0 ==> t.Read(SlotRegion(ram.active)) == f.Read(SlotRegion(ram.active))
    requires ram.active < 0 ==> t.slot1 == f.slot1
    ensures Chooses(p, t, TargetSlot(ram.active), Successor(ram.generation))
    ensures Base(p, t, TargetSlot(ram.active)) == (ram.payload, ImageCrc(p, ram.payload, salt))
  {
    hide LoadSlot, Clean, PrepareImage, ImageCrc;
    NewSlotWins(p, t, ram, salt);
  }

  /** A device in order whose journal is not bound, or is bound and blank. */
  lemma SyncedWithoutLog(p: Platform, f: Flash, ram: Ram)
    requires Anchored(p, f, ram) && ram.active >= 0
    requires var (base, crc) := Base(p, f, ram.active);
      && ram.payload == base
      && ram.journal.nextIndex == 0
      && ram.journal.ready == Bound(f.journal, ram.generation, crc)
      && (ram.journal.ready ==> AllBlank(f.journal))
    ensures Good(p, Device(f, ram))
  {
    hide LoadSlot, Sanitize;
    if ram.journal.ready {
      BlankEntryIsInvalid(EntryCells(f.journal, 0));
      assert LiveEntries(f.journal, 0) == [];
      assert ReplayLog(ram.payload.slots, []) == ram.payload.slots;
    }
  }

  lemma CommitWrites(p: Platform, f: Flash, ram: Ram, salt: Bytes16)
    requires FlashShaped(p, f) && Shaped(p, ram.payload)
    ensures var g, target := Successor(ram.generation), SlotRegion(TargetSlot(ram.active));
      ApplyAll(f, CommitOps(p, ram, salt))
        == f.With(target, PrepareImage(p, ram.payload, g, salt))
            .(journal := FreshJournal(g, ImageCrc(p, ram.payload, salt)))
  {
    hide PrepareImage, ImageCrc, SlotOps, JournalOps, FreshJournal;
    var g, target := Successor(ram.generation), SlotRegion(TargetSlot(ram.active));
    var image, crc := PrepareImage(p, ram.payload, g, salt), ImageCrc(p, ram.payload, salt);
    SlotOpsWrite(p, f, target, image);
    JournalOpsWrite(f.With(target, image), g, crc);
    ApplyAllConcat(f, SlotOps(p, target, image), JournalOps(g, crc));
  }

  /** A completed commit leaves a good device holding the RAM image, whatever the slot it overwrites and the
      journal held before. */
  lemma CommitIsGood(p: Platform, f: Flash, ram: Ram, e: Entropy)
    requires FlashShaped(p, f) && KeptIsOlder(p, f, ram.active, ram.generation)
    requires Clean(p, ram.payload) && ram.generation < 0xffff_ffff && e.wrapOk
    ensures Good(p, Commit(p, Device(f, ram), e).device)
  {
    hide LoadSlot, Sanitize, Chooses, PrepareImage, FreshJournal, ImageCrc, ApplyAll;
    var after := Commit(p, Device(f, ram), e).device;
    CommitWrites(p, f, ram, e.salt);
    FreshJournalReads(Successor(ram.generation), ImageCrc(p, ram.payload, e.salt));
    NewSlotWins(p, after.flash, ram, e.salt);
    SyncedWithoutLog(p, after.flash, after.ram);
  }

  /** A completed commit leaves a good device holding the edited payload. */
  lemma CommitCompletes(p: Platform, f: Flash, ram: Ram, e: Entropy)
    requires Anchored(p, f, ram) && Clean(p, ram.payload) && ram.generation < 0xffff_ffff && e.wrapOk
    ensures Good(p, Commit(p, Device(f, ram), e).device)
  {
    hide LoadSlot, Clean, Commit;
    CommitIsGood(p, f, ram, e);
  }

  // ---- Crash atomicity ----

  /** The RAM image of a boot that replays nothing. */
  function Replayless(ram: Ram, bound: bool): Ram {
    ram.(journal := JournalState(bound, 1, 0))
  }

  lemma ChosenSlot(p: Platform, f: Flash, active: int, generation: u32)
    requires Chooses(p, f, active, generation) && active >= 0
    ensures var chosen := SelectSlot(p, f);
      && chosen.Some? && chosen.value.index == active && chosen.value.loaded.generation == generation
      && (chosen.value.loaded.payload, chosen.value.loaded.payloadCrc) == Base(p, f, active)
  {
    hide LoadSlot, Sanitize;
  }

  /** The slots decide which payload is recovered; the journal of the old generation adds nothing to the new. */
  lemma CutBeforeJournal(p: Platform, d: Device, q: Payload, salt: Bytes16, t: Flash)
    requires Good(p, d) && Clean(p, q) && d.ram.generation < 0xffff_ffff
    requires FlashShaped(p, t) && t.journal == d.flash.journal
    requires var target := SlotRegion(TargetSlot(d.ram.active));
      && t == d.flash.With(target, t.Read(target))
      && OldNewOrNone(LoadSlot(p, d.flash.Read(target)),
                      LoadSlot(p, PrepareImage(p, q, Successor(d.ram.generation), salt)), LoadSlot(p, t.Read(target)))
    ensures var ram := CommittedRam(p, d.ram.(payload := q), salt);
      Good(p, Device(t, d.ram)) || Good(p, Device(t, Replayless(ram, Bound(t.journal, ram.generation, ram.payloadCrc))))
  {
    hide LoadSlot, Sanitize, PrepareImage, ImageCrc, EntryBlank, EntryCells;
    var target := SlotRegion(TargetSlot(d.ram.active));
    var edited := d.ram.(payload := q);
    if LoadSlot(p, t.Read(target)) == LoadSlot(p, PrepareImage(p, q, Successor(d.ram.generation), salt)) {
      var ram := CommittedRam(p, edited, salt);
      NewSlotChosen(p, d.flash, edited, salt, t);
      SyncedWithoutLog(p, t, Replayless(ram, Bound(t.journal, ram.generation, ram.payloadCrc)));
    }
  }

  /** The new slot is complete and the journal unclaimed: boot replays nothing. */
  lemma CutInsideJournal(p: Platform, d: Device, q: Payload, salt: Bytes16, t: Flash)
    requires Good(p, d) && Clean(p, q) && d.ram.generation < 0xffff_ffff && |t.journal| == JOURNAL_SIZE
    requires var g, target := Successor(d.ram.generation), SlotRegion(TargetSlot(d.ram.active));
      var f := d.flash.With(target, PrepareImage(p, q, g, salt));
      t == f.(journal := t.journal) && OldEntriesUnclaimed(p, f, t.journal)
    ensures var ram := CommittedRam(p, d.ram.(payload := q), salt);
      Good(p, Device(t, Replayless(ram, Bound(t.journal, ram.generation, ram.payloadCrc))))
  {
    hide LoadSlot, Sanitize, PrepareImage, ImageCrc, Chooses, SelectSlot, Base, EntryBlank, EntryCells;
    var edited := d.ram.(payload := q);
    var ram := CommittedRam(p, edited, salt);
    var f := d.flash.With(SlotRegion(ram.active), PrepareImage(p, q, ram.generation, salt));
    NewSlotChosen(p, d.flash, edited, salt, f);
    NewSlotChosen(p, d.flash, edited, salt, t);
    ChosenSlot(p, f, ram.active, ram.generation);
    SyncedWithoutLog(p, t, Replayless(ram, Bound(t.journal, ram.generation, ram.payloadCrc)));
  }

  /** Commit is crash-atomic: whenever power is lost inside store_commit_transaction, the next boot recovers the
      whole old content, journal replayed, or the whole new content, needs no repair, and the device is good. */
  lemma CommitIsCrashAtomic(p: Platform, d: Device, q: Payload, salt: Bytes16, t: Flash)
    requires Good(p, d) && Clean(p, q) && d.ram.generation < 0xffff_ffff
    requires PowerCut(p, d.flash, CommitOps(p, d.ram.(payload := q), salt), t)
    ensures FlashShaped(p, t)
    ensures Recover(p, t) == d.ram.payload || Recover(p, t) == q
    ensures !BootRam(p, t).changed && Good(p, Device(t, BootRam(p, t).ram))
  {
    hide LoadSlot, Sanitize, PrepareImage, ImageCrc, PowerCut, CutDuring, SlotOps, JournalOps, BootRam, ApplyAll,
      OldEntriesUnclaimed;
    var ram := CommittedRam(p, d.ram.(payload := q), salt);
    var target, image := SlotRegion(ram.active), PrepareImage(p, q, ram.generation, salt);
    var f1 := d.flash.With(target, image);
    var after := Replayless(ram, Bound(t.journal, ram.generation, ram.payloadCrc));
    PowerCutOfConcat(p, d.flash, SlotOps(p, target, image), JournalOps(ram.generation, ram.payloadCrc), t);
    SlotOpsWrite(p, d.flash, target, image);
    if PowerCut(p, d.flash, SlotOps(p, target, image), t) {
      SlotOpsCut(p, d.flash, target, image, t);
      CutBeforeJournal(p, d, q, salt, t);
    } else {
      JournalOpsCut(p, f1, ram.generation, ram.payloadCrc, t);
      CutInsideJournal(p, d, q, salt, t);
    }
    GoodEitherWay(p, t, d.ram, after);
  }

  /** What is assumed of a torn erase is exactly what is needed: with the new slot complete and any journal bytes
      whatever, boot recovers the new content if and only if the journal is not bound to the new image or what is
      left in it replays to nothing. */
  lemma NewContentRecoveredIff(p: Platform, d: Device, q: Payload, salt: Bytes16, b: seq<byte>)
    requires Good(p, d) && Clean(p, q) && d.ram.generation < 0xffff_ffff && |b| == JOURNAL_SIZE
    ensures var ram := CommittedRam(p, d.ram.(payload := q), salt);
      var t := d.flash.With(SlotRegion(ram.active), PrepareImage(p, q, ram.generation, salt)).(journal := b);
      && FlashShaped(p, t)
      && (Recover(p, t) == q <==>
           !Bound(b, ram.generation, ram.payloadCrc) || ReplayLog(q.slots, LiveEntries(b, 0)) == q.slots)
  {
    hide LoadSlot, Sanitize, PrepareImage, ImageCrc, Chooses, SelectSlot, Base, LiveEntries, Bound, SlotShaped;
    var ram := CommittedRam(p, d.ram.(payload := q), salt);
    var t := d.flash.With(SlotRegion(ram.active), PrepareImage(p, q, ram.generation, salt)).(journal := b);
    NewSlotChosen(p, d.flash, d.ram.(payload := q), salt, t);
    ChosenSlot(p, t, ram.active, ram.generation);
    assert ReplayLog(q.slots, []) == q.slots;
  }

  lemma GoodEitherWay(p: Platform, t: Flash, a: Ram, b: Ram)
    requires Good(p, Device(t, a)) || Good(p, Device(t, b))
    ensures Recover(p, t) == a.payload || Recover(p, t) == b.payload
    ensures !BootRam(p, t).changed && Good(p, Device(t, BootRam(p, t).ram))
  {
    hide Good, BootRam;
    if Good(p, Device(t, a)) {
      RebootRecovers(p, Device(t, a));
    } else {
      RebootRecovers(p, Device(t, b));
    }
  }
}
