/** Signature counters over whole runs: they never repeat, compaction does not show, and exactly when an update
    behind an unbound journal survives a reboot. */
module SignCounts {
  import opened Bits
  import opened Words
  import opened NorFlash
  import opened StoreFormat
  import opened SignCountJournal
  import opened StoreSpec
  import opened CrashSafety
  import opened JournalSafety
  import opened StoreOperations
  import opened StoreRuns

  // ---- Counters never repeat ----

  function OpOf(event: Event): Option<StoreOp> {
    match event
    case Completed(op, _) => Some(op)
    case CutInside(op, _, _, _) => Some(op)
    case Reboot(_) => None
  }

  /** Counts are only ever written by assertions, which add one to the count they read; it does not wrap. */
  predicate CountsUp(d: Device, event: Event) {
    var op := OpOf(event);
    op.Some? && op.value.UpdateCount? && Admissible(d.ram.payload, op.value) ==>
      op.value.count == d.ram.payload.slots[op.value.index].signCount + 1
  }

  /** A successful assertion for slot `index`: the device answers with the count of the event. */
  predicate Answers(p: Platform, d: Device, event: Event, index: nat) {
    && Sane(p, d)
    && event.Completed? && event.op.UpdateCount? && event.op.index == index
    && Exec(p, d, event.op, event.e).ok
  }

  /** A credential is created in slot `index`, or its creation is cut. */
  predicate CreatesIn(d: Device, event: Event, index: nat) {
    var op := OpOf(event);
    op.Some? && op.value.Add? && FirstFree(d.ram.payload.slots, 0) == index
  }

  /** The slot is empty, or its credential has counted to `floor` at least. */
  predicate AtLeast(q: Payload, index: nat, floor: u32) {
    && index < |q.slots|
    && (SlotValid(q.slots[index]) ==> q.slots[index].signCount >= floor)
  }

  /** In RAM, in what a reboot recovers, and with a journal that the reboot replays. */
  predicate Floored(p: Platform, d: Device, index: nat, floor: u32) {
    && Sound(p, d) && !Stale(p, d)
    && AtLeast(d.ram.payload, index, floor) && AtLeast(Recover(p, d.flash), index, floor)
  }

  lemma EffectKeepsFloor(p: Platform, q: Payload, op: StoreOp, index: nat, floor: u32)
    requires AtLeast(q, index, floor) && Admissible(q, op)
    requires op.Add? ==> FirstFree(q.slots, 0) != index
    requires op.UpdateCount? ==> op.count > q.slots[op.index].signCount
    ensures AtLeast(Effect(p, q, op), index, floor) && AtLeast(Rollback(p, q, op), index, floor)
  {
    if op.UpdateCount? && op.index == index {
      SameValidity(q.slots[index], op.count);
    }
  }

  lemma CountKeepsFloor(q: Payload, at: nat, count: u32, index: nat, floor: u32)
    requires AtLeast(q, index, floor) && at < |q.slots| && count > q.slots[at].signCount
    ensures AtLeast(WithCount(q, at, count), index, floor)
  {
    SameValidity(q.slots[at], count);
  }

  /** Counts are raised in RAM, and what is stored has the same slots. */
  lemma ValidMeansStored(p: Platform, d: Device, index: nat)
    requires Sound(p, d) && !Stale(p, d)
    requires index < |d.ram.payload.slots| && SlotValid(d.ram.payload.slots[index])
    ensures Recover(p, d.flash).slots == d.ram.payload.slots
  {
    hide Holds, Good, BootRam, SlotValid;
    ValidSlotsAreStored(p, d, Recover(p, d.flash), index);
  }

  lemma CompletedKeepsFloor(p: Platform, d: Device, event: Event, d': Device, index: nat, floor: u32)
    requires Floored(p, d, index, floor) && Sane(p, d) && Sane(p, d')
    requires event.Completed? && ContentStep(p, d, event, d') && !Stale(p, d')
    requires CountsUp(d, event) && !CreatesIn(d, event, index)
    ensures AtLeast(d'.ram.payload, index, floor) && AtLeast(Recover(p, d'.flash), index, floor)
  {
    hide Sound, Stale, Exec, Effect, Rollback, Recover, SlotValid, SlotShaped, AtLeast, WithCount;
    var op := event.op;
    if Admissible(d.ram.payload, op) {
      EffectKeepsFloor(p, d.ram.payload, op, index, floor);
      if op.UpdateCount? {
        ValidMeansStored(p, d, op.index);
        CountKeepsFloor(Recover(p, d.flash), op.index, op.count, index, floor);
      }
    }
  }

  lemma CutKeepsFloor(p: Platform, d: Device, event: Event, d': Device, index: nat, floor: u32)
    requires Floored(p, d, index, floor) && Sane(p, d) && Sane(p, d')
    requires event.CutInside? && ContentStep(p, d, event, d')
    requires CountsUp(d, event) && !CreatesIn(d, event, index)
    ensures AtLeast(d'.ram.payload, index, floor) && AtLeast(Recover(p, d'.flash), index, floor)
  {
    hide Sound, Stale, Exec, Effect, Rollback, Recover, SlotValid, SlotShaped, AtLeast, WithCount;
    var op, r := event.op, Recover(p, d'.flash);
    if r != Recover(p, d.flash) {
      EffectKeepsFloor(p, d.ram.payload, op, index, floor);
      if op.UpdateCount? {
        ValidMeansStored(p, d, op.index);
        var q := if Folds(d) then d.ram.payload else Recover(p, d.flash);
        CountKeepsFloor(q, op.index, r.slots[op.index].signCount, index, floor);
      }
    }
  }

  lemma StepKeepsFloor(p: Platform, d: Device, event: Event, d': Device, index: nat, floor: u32)
    requires Step(p, d, event, d') && CountsUp(d, event) && !UpdatesUnready(d, event)
    requires Floored(p, d, index, floor) && !CreatesIn(d, event, index)
    ensures Floored(p, d', index, floor)
  {
    hide Sound, Stale, Step, ContentStep, Recover, CountsUp, CreatesIn, AtLeast, UpdatesUnready;
    StepRefines(p, d, event, d');
    SoundIsSane(p, d);
    match event {
      case Completed(_, _) => CompletedKeepsFloor(p, d, event, d', index, floor);
      case CutInside(_, _, _, _) => CutKeepsFloor(p, d, event, d', index, floor);
      case Reboot(_) => RebootShowsStored(p, d, event, d');
    }
  }

  lemma RebootShowsStored(p: Platform, d: Device, event: Event, d': Device)
    requires Sane(p, d) && Sane(p, d') && event.Reboot? && ContentStep(p, d, event, d')
    ensures d'.ram.payload == Recover(p, d.flash) == Recover(p, d'.flash)
  {
    hide Recover;
  }

  lemma {:induction false} RunKeepsFloor(
    p: Platform, ds: seq<Device>, events: seq<Event>, from: nat, last: nat, index: nat, floor: u32)
    requires IsRun(p, ds, events) && from <= last <= |events|
    requires forall i :: from <= i < last ==>
      CountsUp(ds[i], events[i]) && !UpdatesUnready(ds[i], events[i]) && !CreatesIn(ds[i], events[i], index)
    requires Floored(p, ds[from], index, floor)
    ensures Floored(p, ds[last], index, floor)
    decreases last
  {
    hide Step, Sound, CountsUp, CreatesIn, UpdatesUnready, Floored;
    if from < last {
      RunKeepsFloor(p, ds, events, from, last - 1, index, floor);
      StepKeepsFloor(p, ds[last - 1], events[last - 1], ds[last], index, floor);
    }
  }

  lemma {:induction false} RunStaysBound(p: Platform, ds: seq<Device>, events: seq<Event>, n: nat)
    requires IsRun(p, ds, events) && n <= |events| && !Stale(p, ds[0])
    requires forall i :: 0 <= i < n ==> !UpdatesUnready(ds[i], events[i])
    ensures FlashShaped(p, ds[n].flash) && !Stale(p, ds[n])
    decreases n
  {
    hide Step, Sound, Stale, UpdatesUnready, ContentStep;
    if n > 0 {
      RunStaysBound(p, ds, events, n - 1);
      RunRefines(p, ds, events, n - 1);
      StepRefines(p, ds[n - 1], events[n - 1], ds[n]);
    } else {
      SoundIsSane(p, ds[0]);
    }
  }

  /** Sign counts never repeat: of two successful assertions for one credential, in any run of operations that
      succeed, fail or are cut, and reboots, the later one carries the strictly greater count, as long as counts
      are only written behind a journal in use. */
  lemma CountsNeverRepeat(p: Platform, ds: seq<Device>, events: seq<Event>, first: nat, second: nat, index: nat)
    requires IsRun(p, ds, events) && Good(p, ds[0]) && first < second < |events|
    requires forall i :: 0 <= i < |events| ==> CountsUp(ds[i], events[i]) && !UpdatesUnready(ds[i], events[i])
    requires forall i :: first < i < second ==> !CreatesIn(ds[i], events[i], index)
    requires Answers(p, ds[first], events[first], index)
    requires Answers(p, ds[second], events[second], index)
    ensures events[first].op.count < events[second].op.count
  {
    hide Good, Exec, SlotValid, Sound, Stale, Step, UpdatesUnready, Holds;
    var count := events[first].op.count;
    GoodHolds(p, ds[0]);
    HoldsIsSound(p, ds[0], ds[0].ram.payload, false);
    RunStaysBound(p, ds, events, first);
    RunRefines(p, ds, events, first);
    AnswerShowsCount(p, ds[first], events[first], ds[first + 1], index);
    RunKeepsFloor(p, ds, events, first + 1, second, index, count);
    AnswerIsAdmissible(p, ds[second], events[second], index);
  }

  lemma AnswerIsAdmissible(p: Platform, d: Device, event: Event, index: nat)
    requires Answers(p, d, event, index)
    ensures Admissible(d.ram.payload, event.op)
  {
  }

  lemma AnswerShowsCount(p: Platform, d: Device, event: Event, d': Device, index: nat)
    requires Sound(p, d) && !Stale(p, d) && Step(p, d, event, d') && Answers(p, d, event, index)
    requires !UpdatesUnready(d, event)
    ensures Floored(p, d', index, event.op.count)
  {
    hide Holds, Exec, SlotValid, Recover, Stale, SlotShaped;
    StepRefines(p, d, event, d');
    SameSlotCount(p, d);
  }

  // ---- Compaction ----

  datatype Update = Update(index: nat, count: u32, e: Entropy)

  /** The device after a sequence of count updates, if all of them succeed. */
  predicate AllUpdate(p: Platform, d: Device, us: seq<Update>, d': Device)
    requires Sane(p, d)
    decreases |us|
  {
    if us == [] then d' == d
    else
      var r := Exec(p, d, UpdateCount(us[0].index, us[0].count), us[0].e);
      r.ok && Sane(p, r.device) && AllUpdate(p, r.device, us[1..], d')
  }

  /** The same updates as entries of an unbounded log. */
  function LogOf(p: Platform, us: seq<Update>): seq<Entry>
    requires forall i :: 0 <= i < |us| ==> us[i].index < p.maxCredentials
    decreases |us|
  {
    if us == [] then []
    else [NewEntry(us[0].index, us[0].count, 0)] + LogOf(p, us[1..])
  }

  /** Compaction is invisible: however often the finite journal is folded into a commit, the counts a reboot
      recovers are those of an unbounded append-only log. */
  lemma {:induction false} CompactionIsInvisible(p: Platform, d: Device, us: seq<Update>, d': Device)
    requires Good(p, d) && Sane(p, d) && d.ram.journal.ready && d.ram.generation + |us| <= 0xffff_ffff
    requires AllUpdate(p, d, us, d')
    requires forall i :: 0 <= i < |us| ==> us[i].index < p.maxCredentials
    ensures Good(p, d')
    ensures Recover(p, d'.flash) == d.ram.payload.(slots := ReplayLog(d.ram.payload.slots, LogOf(p, us)))
    decreases |us|
  {
    hide Good, Exec, SlotValid, Recover;
    if us == [] {
      RebootRecovers(p, d);
    } else {
      var u := us[0];
      var r := Exec(p, d, UpdateCount(u.index, u.count), u.e);
      UpdateIsAdmissible(p, d, u);
      UpdateCompletes(p, d, u.index, u.count, u.e);
      UpdateStaysReady(p, d, u);
      CompactionIsInvisible(p, r.device, us[1..], d');
      assert LogOf(p, us)[1..] == LogOf(p, us[1..]);
    }
  }

  lemma UpdateIsAdmissible(p: Platform, d: Device, u: Update)
    requires Sane(p, d) && Exec(p, d, UpdateCount(u.index, u.count), u.e).ok
    ensures u.index < |d.ram.payload.slots| && SlotValid(d.ram.payload.slots[u.index])
  {
  }

  lemma UpdateStaysReady(p: Platform, d: Device, u: Update)
    requires Sane(p, d) && d.ram.journal.ready && d.ram.generation < 0xffff_ffff
    requires u.index < |d.ram.payload.slots| && SlotValid(d.ram.payload.slots[u.index])
    requires Exec(p, d, UpdateCount(u.index, u.count), u.e).ok
    ensures var r := Exec(p, d, UpdateCount(u.index, u.count), u.e).device;
      r.ram.journal.ready && r.ram.generation <= d.ram.generation + 1
  {
    hide SlotValid, CommitOps, EntryBlank, EntryCells, ApplyAll, AppendFlashOp, PackSlot, SlotShaped;
  }

  /** In a good device the live entries are a contiguous prefix, the next index stands at its end, and
      everything behind the entry at the next index is blank. */
  lemma NextIndexEndsTheLog(p: Platform, d: Device)
    requires Good(p, d) && d.ram.journal.ready
    ensures d.ram.journal.nextIndex <= CAPACITY && |d.flash.journal| == JOURNAL_SIZE
    ensures forall i :: 0 <= i < d.ram.journal.nextIndex ==> EntryLive(d.flash.journal, i)
    ensures d.ram.journal.nextIndex < CAPACITY ==> !EntryLive(d.flash.journal, d.ram.journal.nextIndex)
    ensures forall i :: d.ram.journal.nextIndex < i < CAPACITY ==> EntryBlank(EntryCells(d.flash.journal, i))
  {
    hide Chooses, EntryLive, EntryBlank, EntryCells;
    LiveEntriesFormPrefix(d.flash.journal, 0);
  }

  /** Exactly when an update behind a ready journal succeeds. A torn entry at the next index blocks every
      update, without harm, until a commit renews the journal. */
  lemma UpdateSucceedsIff(p: Platform, d: Device, index: nat, count: u32, e: Entropy)
    requires Good(p, d) && Sane(p, d) && d.ram.journal.ready && d.ram.generation < 0xffff_ffff
    requires index < |d.ram.payload.slots| && SlotValid(d.ram.payload.slots[index])
    ensures var r := Exec(p, d, UpdateCount(index, count), e);
      && (r.ok <==> if d.ram.journal.nextIndex < CAPACITY then CanAppend(p, d) else e.wrapOk)
      && (!r.ok ==> r.device == d)
  {
    hide Chooses, Synced, SlotValid, Sanitize, SlotShaped, Exec, CommitOps, CanAppend, AppendFlashOp, ApplyAll,
      ImageCrc, BootRam;
    UpdateCases(p, d, index, count, e);
    if d.ram.journal.nextIndex == CAPACITY && e.wrapOk {
      RebootRecovers(p, d);
      EffectKeepsClean(p, d.ram.payload, UpdateCount(index, count));
      FoldedHasRoom(p, d.flash, Edited(d, index, count).ram, e);
    }
  }

  // ---- A torn entry ----

  /** No count can be appended: the next entry is neither blank nor live. */
  predicate Blocked(p: Platform, d: Device) {
    && Sound(p, d) && !Stale(p, d)
    && d.ram.journal.ready && d.ram.journal.nextIndex < CAPACITY && !CanAppend(p, d)
  }

  /** An entry of which only the first byte has been programmed. */
  function FirstByteOnly(e: Entry): (r: seq<byte>)
    ensures |r| == ENTRY_SIZE
  {
    Erased(ENTRY_SIZE)[0 := EntryBytes(e)[0]]
  }

  lemma FirstByteIsTorn(e: Entry)
    requires e.magic == ENTRY_MAGIC
    ensures !EntryBlank(FirstByteOnly(e)) && !EntryValid(ParseEntry(FirstByteOnly(e)))
  {
    var t := FirstByteOnly(e);
    assert EntryBytes(e)[0] == Le32(ENTRY_MAGIC)[0];
    assert t[0] != 255 && t[1] == 255 && t[2] == 255 && t[3] == 255;
  }

  lemma FirstByteIsInterrupted(b: seq<byte>, index: nat, e: Entry, i: nat)
    requires |b| == JOURNAL_SIZE && index < CAPACITY && EntryBlank(EntryCells(b, index)) && i < |b|
    ensures var t, after := WithEntry(b, index, FirstByteOnly(e)), CellsAfter(b, AppendOp(b, index, e));
      t[i] == b[i] || t[i] == after[i]
  {
    hide EntryBytes, CellsAfter, AppendOp;
    var lo := EntryOffset(index);
    if i == lo {
      AppendInside(b, index, e, 0);
    } else if lo < i < lo + 16 {
      assert EntryCells(b, index)[i - lo] == b[i];
    }
  }

  /** What is left if power is lost after the first byte of the next entry. */
  function AfterFirstByte(p: Platform, d: Device, index: u16, count: u32): Flash
    requires FlashShaped(p, d.flash) && d.ram.journal.nextIndex < CAPACITY
  {
    WithNextEntry(p, d, FirstByteOnly(NewEntry(index, count, d.ram.journal.nextSequence)))
  }

  lemma FirstByteIsPowerCut(p: Platform, d: Device, index: nat, count: u32, e: Entropy)
    requires Sane(p, d) && d.ram.journal.ready && d.ram.journal.nextIndex < CAPACITY && CanAppend(p, d)
    requires index < |d.ram.payload.slots| && SlotValid(d.ram.payload.slots[index])
    ensures PowerCut(p, d.flash, ExecOps(p, d, UpdateCount(index, count), e), AfterFirstByte(p, d, index, count))
  {
    hide SlotShaped, SlotValid, LoadSlot, EntryBlank, EntryCells, EntryBytes, FirstByteOnly, WithEntry, ExecOps,
      CommitOps, CellsBetween, BitsBetween, CellsAfter, PatchedPage;
    var b, n := d.flash.journal, d.ram.journal.nextIndex;
    var entry := NewEntry(index, count, d.ram.journal.nextSequence);
    var op, t := AppendFlashOp(p, d, index, count), AfterFirstByte(p, d, index, count);
    forall i | 0 <= i < |b|
      ensures t.journal[i] == b[i] || t.journal[i] == CellsAfter(b, op)[i]
    {
      FirstByteIsInterrupted(b, n, entry, i);
    }
    MixtureIsInterrupted(d.flash, op, t);
    UpdateOpsCases(p, d, index, count, e);
  }

  /** A blocked device is reachable from every one with room in its journal: power lost after the first byte of
      an entry boots into a good device that recovers the same content and can append nothing. */
  lemma BlockedIsReachable(p: Platform, d: Device, index: nat, count: u32, e: Entropy, boot: Entropy)
    requires Good(p, d) && Sane(p, d) && d.ram.journal.ready && d.ram.journal.nextIndex < CAPACITY && CanAppend(p, d)
    requires index < |d.ram.payload.slots| && SlotValid(d.ram.payload.slots[index])
    ensures var t := AfterFirstByte(p, d, index, count);
      && FlashShaped(p, t)
      && PowerCut(p, d.flash, ExecOps(p, d, UpdateCount(index, count), e), t)
      && Good(p, Boot(p, t, boot)) && Blocked(p, Boot(p, t, boot))
      && Boot(p, t, boot).ram.payload == d.ram.payload
  {
    hide Chooses, Synced, SlotShaped, SlotValid, LoadSlot, EntryBlank, EntryCells, EntryBytes, FirstByteOnly,
      WithEntry, PowerCut, ExecOps, BootRam, Clean, EntryValid, ParseEntry;
    var t, entry := AfterFirstByte(p, d, index, count), NewEntry(index, count, d.ram.journal.nextSequence);
    FirstByteIsPowerCut(p, d, index, count, e);
    FirstByteIsTorn(entry);
    InvalidEntryWritten(p, d, FirstByteOnly(entry));
    RebootRecovers(p, Device(t, d.ram));
    BootIsSound(p, t, boot);
    WithEntryReads(d.flash.journal, d.ram.journal.nextIndex, FirstByteOnly(entry));
  }

  /** Nothing is committed: counts are only appended, and other operations fail. */
  predicate NoCommit(event: Event) {
    var op := OpOf(event);
    op.None? || op.value.UpdateCount? || !event.e.wrapOk
  }

  lemma StepStaysBlocked(p: Platform, d: Device, event: Event, d': Device)
    requires Blocked(p, d) && Step(p, d, event, d') && NoCommit(event)
    ensures Blocked(p, d') && Sane(p, d)
    ensures event.Completed? && event.op.UpdateCount? ==> !Exec(p, d, event.op, event.e).ok
  {
    hide Holds, SlotShaped, SlotValid, EntryBlank, EntryCells, CommitOps, BootRam, Clean, Effect, Rollback;
    StepRefines(p, d, event, d');
    HoldsRecovers(p, d, Recover(p, d.flash), false);
    match event {
      case Completed(op, e) => CompletedStaysBlocked(p, d, op, e);
      case CutInside(op, e, t, boot) => BlockedOps(p, d, op, e);
      case Reboot(_) =>
    }
  }

  lemma CompletedStaysBlocked(p: Platform, d: Device, op: StoreOp, e: Entropy)
    requires Sane(p, d) && OpShaped(op) && d.ram.journal.ready && d.ram.journal.nextIndex < CAPACITY && !CanAppend(p, d)
    requires op.UpdateCount? || !e.wrapOk
    ensures var r := Exec(p, d, op, e);
      !r.ok && r.device.flash == d.flash && r.device.ram.journal == d.ram.journal
  {
    hide SlotShaped, SlotValid, EntryBlank, EntryCells, CommitOps, ApplyAll;
  }

  lemma BlockedOps(p: Platform, d: Device, op: StoreOp, e: Entropy)
    requires Sane(p, d) && OpShaped(op) && d.ram.journal.ready && d.ram.journal.nextIndex < CAPACITY && !CanAppend(p, d)
    requires op.UpdateCount? || !e.wrapOk
    ensures ExecOps(p, d, op, e) == []
  {
    hide SlotShaped, SlotValid, EntryBlank, EntryCells, CommitOps, ApplyAll;
  }

  /** A blocked device stays so, and answers no assertion, over every run of updates, failures, cuts and reboots
      in which nothing is committed. */
  lemma {:induction false} BlockedUntilCommit(p: Platform, ds: seq<Device>, events: seq<Event>, n: nat)
    requires IsRun(p, ds, events) && Blocked(p, ds[0]) && n <= |events|
    requires forall i :: 0 <= i < n ==> NoCommit(events[i])
    ensures Blocked(p, ds[n])
    ensures n < |events| ==> forall index :: NoCommit(events[n]) ==> !Answers(p, ds[n], events[n], index)
    decreases n
  {
    hide Blocked, Step, NoCommit, Exec, Sound;
    if n > 0 {
      BlockedUntilCommit(p, ds, events, n - 1);
      StepStaysBlocked(p, ds[n - 1], events[n - 1], ds[n]);
    }
    if n < |events| && NoCommit(events[n]) {
      StepStaysBlocked(p, ds[n], events[n], ds[n + 1]);
    }
  }

  /** Any successful commit ends it: the next count finds room. */
  lemma CommitUnblocks(p: Platform, d: Device, op: StoreOp, e: Entropy)
    requires Sound(p, d) && Sane(p, d) && OpClean(op) && Admissible(d.ram.payload, op) && !op.UpdateCount?
    requires e.wrapOk && d.ram.generation < 0xffff_ffff
    ensures OpShaped(op)
    ensures var r := Exec(p, d, op, e).device;
      Good(p, r) && r.ram.journal.ready && r.ram.journal.nextIndex < CAPACITY && CanAppend(p, r)
  {
    hide Good, SlotShaped, SlotValid, EntryBlank, EntryCells, CommitOps, BootRam, Clean, Effect, ApplyAll, ImageCrc;
    SoundIsSane(p, d);
    HoldsRecovers(p, d, Recover(p, d.flash), Stale(p, d));
    EffectKeepsClean(p, d.ram.payload, op);
    FoldedHasRoom(p, d.flash, d.ram.(payload := Effect(p, d.ram.payload, op)), e);
  }
}
