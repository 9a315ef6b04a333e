/** What every credential-store operation does to the flash and to the RAM image, as functions on values.
    The class in CredentialStore.dfy is proved to compute exactly these. */
module StoreSpec {
  import opened Bits
  import opened NorFlash
  import opened StoreFormat
  import opened SignCountJournal

  /** s_store, s_store_generation, s_store_payload_crc32, s_active_slot_index and s_sign_count_journal. */
  datatype Ram = Ram(payload: Payload, generation: u32, payloadCrc: u32, active: int, journal: JournalState)

  datatype Device = Device(flash: Flash, ram: Ram)

  /** The salt drawn for one commit, and whether the crypto library succeeded. */
  datatype Entropy = Entropy(salt: Bytes16, wrapOk: bool)

  predicate FlashShaped(p: Platform, f: Flash) {
    |f.slot0| == |f.slot1| == p.ImageSize() && |f.journal| == JOURNAL_SIZE
  }

  predicate Sane(p: Platform, d: Device) {
    FlashShaped(p, d.flash) && Shaped(p, d.ram.payload) && -1 <= d.ram.active <= 1
    && d.ram.journal.nextIndex <= CAPACITY
  }

  function SlotRegion(index: int): Region {
    if index == 0 then Slot0 else Slot1
  }

  function TargetSlot(active: int): int {
    if active == 0 then 1 else 0
  }

  function Successor(n: u32): u32 {
    (n + 1) % 0x1_0000_0000
  }

  // ---- Boot ----

  function ProvenanceFlags(p: Platform): byte {
    if p.debugHid then UP_PROVENANCE_FLAG_VALID + UP_PROVENANCE_FLAG_DEBUG_HID else UP_PROVENANCE_FLAG_VALID
  }

  /** store_reset_image */
  function DefaultPayload(p: Platform): (q: Payload)
    ensures Shaped(p, q)
  {
    Payload(0, 0, PIN_RETRIES_DEFAULT, UP_PROVENANCE_MAGIC, ProvenanceFlags(p), Zeros(16), p.defaultUp,
            seq(p.maxCredentials, i => EmptySlot()), Zeros(p.TailSize()))
  }

  function ResetRam(p: Platform): Ram {
    var q := DefaultPayload(p);
    Ram(q, 0, p.crc(Pack(p, q)), -1, RESET_STATE)
  }

  function ValidCount(slots: seq<Slot>): (n: nat)
    ensures n <= |slots|
  {
    if slots == [] then 0
    else ValidCount(slots[..|slots| - 1]) + if SlotValid(slots[|slots| - 1]) then 1 else 0
  }

  function SanitizeSlot(s: Slot): (r: Slot)
    ensures SlotShaped(s) ==> SlotShaped(r)
    ensures SlotValid(r) == SlotValid(s)
  {
    if SlotValid(s) || s.inUse == 0 then s else EmptySlot()
  }

  /** store_sanitize_slots */
  function SanitizeSlots(p: Platform, q: Payload): (r: Payload)
    requires Shaped(p, q)
    ensures Shaped(p, r)
  {
    var slots := seq(|q.slots|, i requires 0 <= i < |q.slots| => SanitizeSlot(q.slots[i]));
    q.(slots := slots, credentialCount := ValidCount(slots))
  }

  /** store_user_presence_config_is_trusted */
  predicate UpTrusted(p: Platform, q: Payload) {
    p.debugHid
    || (q.provenanceMagic == UP_PROVENANCE_MAGIC
        && q.provenanceFlags >= UP_PROVENANCE_FLAG_VALID
        && q.provenanceFlags % 2 == 0)
  }

  /** store_sanitize_user_presence_config */
  function SanitizeUp(p: Platform, q: Payload): Payload {
    if UpConfigValid(q.userPresence) && UpTrusted(p, q) then q else MarkUp(p, q, p.defaultUp)
  }

  function MarkUp(p: Platform, q: Payload, c: UpConfig): Payload {
    q.(userPresence := c, provenanceMagic := UP_PROVENANCE_MAGIC, provenanceFlags := ProvenanceFlags(p))
  }

  function SanitizePin(q: Payload): Payload {
    if q.pinRetries == 0 && q.pinConfigured == 0 then q.(pinRetries := PIN_RETRIES_DEFAULT) else q
  }

  function Sanitize(p: Platform, q: Payload): (r: Payload)
    requires Shaped(p, q)
    ensures Shaped(p, r)
  {
    SanitizePin(SanitizeUp(p, SanitizeSlots(p, q)))
  }

  datatype Chosen = Chosen(index: int, loaded: LoadedSlot)

  /** The newest slot that loads; the first one wins a tie. */
  function SelectSlot(p: Platform, f: Flash): (r: Option<Chosen>)
    ensures r.Some? ==> 0 <= r.value.index <= 1 && Shaped(p, r.value.loaded.payload)
  {
    var a, b := LoadSlot(p, f.slot0), LoadSlot(p, f.slot1);
    if a.Some? && (b.None? || b.value.generation <= a.value.generation) then Some(Chosen(0, a.value))
    else if b.Some? then Some(Chosen(1, b.value))
    else None
  }

  datatype Booted = Booted(ram: Ram, changed: bool)

  /** store_load_if_needed, up to the commit that follows when the loaded image had to be changed. */
  function BootRam(p: Platform, f: Flash): (r: Booted)
    requires FlashShaped(p, f)
    ensures Shaped(p, r.ram.payload)
  {
    match SelectSlot(p, f)
    case None =>
      var q := Sanitize(p, DefaultPayload(p));
      Booted(ResetRam(p).(payload := q), q != DefaultPayload(p))
    case Some(Chosen(index, loaded)) =>
      BootLoaded(p, f.journal, index, loaded)
  }

  function BootLoaded(p: Platform, journal: seq<byte>, index: int, loaded: LoadedSlot): (r: Booted)
    requires |journal| == JOURNAL_SIZE && Shaped(p, loaded.payload)
    ensures Shaped(p, r.ram.payload)
  {
    var q := Sanitize(p, loaded.payload);
    var bound := Bound(journal, loaded.generation, loaded.payloadCrc);
    var log := if bound then LiveEntries(journal, 0) else [];
    var replayed := q.(slots := ReplayLog(q.slots, log));
    ReplayLogShaped(q.slots, log);
    var state := if bound then JournalState(true, SequenceAfter(1, log), |log|) else RESET_STATE;
    Booted(Ram(replayed, loaded.generation, p.crc(Pack(p, replayed)), index, state),
           !loaded.wrapped || q != loaded.payload)
  }

  lemma {:induction false} ReplayLogShaped(slots: seq<Slot>, log: seq<Entry>)
    requires forall i :: 0 <= i < |slots| ==> SlotShaped(slots[i])
    ensures forall i :: 0 <= i < |slots| ==> SlotShaped(ReplayLog(slots, log)[i])
    decreases |log|
  {
    if log != [] {
      ReplayLogShaped(ReplayEntry(slots, log[0]), log[1..]);
    }
  }

  /** The content a power cycle recovers from the flash. */
  function Recover(p: Platform, f: Flash): Payload
    requires FlashShaped(p, f)
  {
    BootRam(p, f).ram.payload
  }

  function Boot(p: Platform, f: Flash, e: Entropy): Device
    requires FlashShaped(p, f)
  {
    var b := BootRam(p, f);
    if b.changed then Commit(p, Device(f, b.ram), e).device else Device(f, b.ram)
  }

  // ---- Commit ----

  datatype Outcome = Outcome(ok: bool, device: Device)

  function SlotOps(p: Platform, region: Region, image: seq<byte>): seq<FlashOp>
    requires |image| == p.ImageSize()
  {
    [Erase(region)] + PagePrograms(region, image, 1, 16 * p.slotSectors) + [Program(region, 0, image[..256])]
  }

  function JournalOps(generation: u32, payloadCrc: u32): seq<FlashOp> {
    [Erase(Journal), Program(Journal, 0, FirstPage(generation, payloadCrc))]
  }

  /** Every flash operation of store_commit_transaction, in order. */
  function CommitOps(p: Platform, ram: Ram, salt: Bytes16): seq<FlashOp>
    requires Shaped(p, ram.payload)
  {
    var g := Successor(ram.generation);
    SlotOps(p, SlotRegion(TargetSlot(ram.active)), PrepareImage(p, ram.payload, g, salt))
    + JournalOps(g, ImageCrc(p, ram.payload, salt))
  }

  function CommittedRam(p: Platform, ram: Ram, salt: Bytes16): Ram
    requires Shaped(p, ram.payload)
  {
    Ram(ram.payload, Successor(ram.generation), ImageCrc(p, ram.payload, salt), TargetSlot(ram.active),
        JournalState(true, 1, 0))
  }

  /** store_commit_transaction on sound hardware: it fails only when the image cannot be wrapped. */
  function Commit(p: Platform, d: Device, e: Entropy): (r: Outcome)
    requires Shaped(p, d.ram.payload)
    ensures SameShape(d.flash, r.device.flash)
    ensures r.ok == e.wrapOk
  {
    if !e.wrapOk then Outcome(false, d)
    else Outcome(true, Device(ApplyAll(d.flash, CommitOps(p, d.ram, e.salt)), CommittedRam(p, d.ram, e.salt)))
  }

  lemma BootIsSane(p: Platform, f: Flash, e: Entropy)
    requires FlashShaped(p, f)
    ensures Sane(p, Boot(p, f, e))
  {
    hide ApplyAll, SlotShaped, LoadSlot, Sanitize, CommitOps, Pack, DefaultPayload, ReplayLog, Bound;
  }

  // ---- Journal append ----

  /** sign_count_journal_erase_and_initialize */
  function JournalInitOps(ram: Ram): seq<FlashOp> {
    if ram.active < 0 then [] else JournalOps(ram.generation, ram.payloadCrc)
  }

  function JournalInit(d: Device): (r: Device)
    ensures SameShape(d.flash, r.flash)
  {
    Device(ApplyAll(d.flash, JournalInitOps(d.ram)),
           d.ram.(journal := if d.ram.active < 0 then RESET_STATE else JournalState(true, 1, 0)))
  }

  function EnsureReady(d: Device): (r: Device)
    ensures SameShape(d.flash, r.flash)
    ensures r.ram.payload == d.ram.payload
  {
    if d.ram.journal.ready then d else JournalInit(d)
  }

  function EnsureReadyOps(d: Device): seq<FlashOp> {
    if d.ram.journal.ready then [] else JournalInitOps(d.ram)
  }

  /** Room for one more entry: a full journal is folded into a new commit. */
  function EnsureRoom(p: Platform, d: Device, e: Entropy): (r: Outcome)
    requires Sane(p, d)
    ensures r.ok ==> Sane(p, r.device) && r.device.ram.journal.nextIndex < CAPACITY
    ensures r.device.ram.payload == d.ram.payload && FlashShaped(p, r.device.flash)
  {
    var ready := EnsureReady(d);
    if ready.ram.journal.nextIndex < CAPACITY then Outcome(true, ready) else Commit(p, ready, e)
  }

  function EnsureRoomOps(p: Platform, d: Device, e: Entropy): seq<FlashOp>
    requires Sane(p, d)
  {
    var ready := EnsureReady(d);
    EnsureReadyOps(d)
    + if ready.ram.journal.nextIndex < CAPACITY || !e.wrapOk then [] else CommitOps(p, ready.ram, e.salt)
  }

  predicate CanAppend(p: Platform, d: Device)
    requires FlashShaped(p, d.flash) && d.ram.journal.nextIndex < CAPACITY
  {
    EntryBlank(EntryCells(d.flash.journal, d.ram.journal.nextIndex))
  }

  function AppendFlashOp(p: Platform, d: Device, index: u16, count: u32): FlashOp
    requires FlashShaped(p, d.flash) && d.ram.journal.nextIndex < CAPACITY
  {
    AppendOp(d.flash.journal, d.ram.journal.nextIndex, NewEntry(index, count, d.ram.journal.nextSequence))
  }

  /** sign_count_journal_append; the RAM payload already holds the new count. */
  function Append(p: Platform, d: Device, index: u16, count: u32, e: Entropy): (r: Outcome)
    requires Sane(p, d)
    ensures FlashShaped(p, r.device.flash) && r.device.ram.payload == d.ram.payload
  {
    var room := EnsureRoom(p, d, e);
    var roomy := room.device;
    if !room.ok || !CanAppend(p, roomy) then Outcome(false, roomy)
    else
      var j := roomy.ram.journal;
      Outcome(true, Device(
        Apply(roomy.flash, AppendFlashOp(p, roomy, index, count)),
        roomy.ram.(journal := j.(nextIndex := j.nextIndex + 1, nextSequence := Successor(j.nextSequence)))))
  }

  function AppendOps(p: Platform, d: Device, index: u16, count: u32, e: Entropy): seq<FlashOp>
    requires Sane(p, d)
  {
    var room := EnsureRoom(p, d, e);
    EnsureRoomOps(p, d, e)
    + if !room.ok || !CanAppend(p, room.device) then [] else [AppendFlashOp(p, room.device, index, count)]
  }

  // ---- Store operations ----

  datatype StoreOp =
    | Add(record: Slot)
    | UpdateCount(index: nat, count: u32)
    | Delete(index: nat)
    | Clear
    | SetPin(configured: bool, retries: byte, hash: Bytes16)
    | SetUp(config: UpConfig)

  function FirstFree(slots: seq<Slot>, from: nat): (index: nat)
    requires from <= |slots|
    ensures from <= index <= |slots|
    ensures forall i :: from <= i < index ==> SlotValid(slots[i])
    ensures index < |slots| ==> !SlotValid(slots[index])
    decreases |slots| - from
  {
    if from == |slots| || !SlotValid(slots[from]) then from else FirstFree(slots, from + 1)
  }

  /** The guard under which an operation reaches the flash at all. */
  predicate Admissible(q: Payload, op: StoreOp) {
    match op
    case Add(_) => FirstFree(q.slots, 0) < |q.slots|
    case UpdateCount(index, _) => index < |q.slots| && SlotValid(q.slots[index])
    case Delete(index) => index < |q.slots| && SlotValid(q.slots[index])
    case SetUp(config) => UpConfigValid(config)
    case _ => true
  }

  /** What a successful operation means for the stored content. */
  function Effect(p: Platform, q: Payload, op: StoreOp): Payload
    requires Admissible(q, op)
  {
    match op
    case Add(record) =>
      q.(slots := q.slots[FirstFree(q.slots, 0) := record], credentialCount := Successor(q.credentialCount))
    case UpdateCount(index, count) => q.(slots := q.slots[index := q.slots[index].(signCount := count)])
    case Delete(index) =>
      q.(slots := q.slots[index := EmptySlot()],
         credentialCount := if q.credentialCount > 0 then q.credentialCount - 1 else 0)
    case Clear => q.(slots := seq(|q.slots|, i => EmptySlot()), credentialCount := 0)
    case SetPin(configured, retries, hash) =>
      q.(pinConfigured := if configured then 1 else 0, pinRetries := retries, pinHash := hash)
    case SetUp(config) => MarkUp(p, q, config)
  }

  /** What a failed operation leaves in RAM: only add, update and delete restore the old content. */
  function Rollback(p: Platform, q: Payload, op: StoreOp): Payload
    requires Admissible(q, op)
  {
    match op
    case Add(_) => q.(slots := q.slots[FirstFree(q.slots, 0) := EmptySlot()])
    case UpdateCount(_, _) => q
    case Delete(_) => q
    case _ => Effect(p, q, op)
  }

  predicate OpShaped(op: StoreOp) {
    op.Add? ==> SlotShaped(op.record)
  }

  lemma EffectShaped(p: Platform, q: Payload, op: StoreOp)
    requires Shaped(p, q) && OpShaped(op) && Admissible(q, op)
    ensures Shaped(p, Effect(p, q, op)) && Shaped(p, Rollback(p, q, op))
  {
  }

  /** One store operation, run to completion. */
  function Exec(p: Platform, d: Device, op: StoreOp, e: Entropy): (r: Outcome)
    requires Sane(p, d) && OpShaped(op)
    ensures FlashShaped(p, r.device.flash) && Shaped(p, r.device.ram.payload)
  {
    if !Admissible(d.ram.payload, op) then Outcome(false, d)
    else
      EffectShaped(p, d.ram.payload, op);
      var edited := d.(ram := d.ram.(payload := Effect(p, d.ram.payload, op)));
      var r := if op.UpdateCount? then Append(p, edited, op.index, op.count, e) else Commit(p, edited, e);
      if r.ok then r
      else Outcome(false, r.device.(ram := r.device.ram.(payload := Rollback(p, d.ram.payload, op))))
  }

  /** The flash operations of one store operation, in order. */
  function ExecOps(p: Platform, d: Device, op: StoreOp, e: Entropy): seq<FlashOp>
    requires Sane(p, d) && OpShaped(op)
  {
    if !Admissible(d.ram.payload, op) then []
    else
      EffectShaped(p, d.ram.payload, op);
      var edited := d.(ram := d.ram.(payload := Effect(p, d.ram.payload, op)));
      if op.UpdateCount? then AppendOps(p, edited, op.index, op.count, e)
      else if e.wrapOk then CommitOps(p, edited.ram, e.salt)
      else []
  }
}
