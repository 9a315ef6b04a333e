/** Appending to the sign-count journal: what a completed, a torn and a compacting append leave to be recovered. */
module JournalSafety {
  import opened Bits
  import opened NorFlash
  import opened StoreFormat
  import opened SignCountJournal
  import opened StoreSpec
  import opened CrashSafety

  function WithCount(q: Payload, index: nat, count: u32): Payload
    requires index < |q.slots|
  {
    q.(slots := q.slots[index := q.slots[index].(signCount := count)])
  }

  /** The journal with one more valid 16-byte entry written behind its log. */
  lemma LogExtended(b: seq<byte>, cells: seq<byte>)
    requires |b| == JOURNAL_SIZE && |cells| == ENTRY_SIZE && EntryValid(ParseEntry(cells))
    requires var n := |LiveEntries(b, 0)|; n < CAPACITY && BlankBehind(b, n)
    ensures var log := LiveEntries(b, 0);
      var r := WithEntry(b, |log|, cells);
      && ReadJournalHeader(r) == ReadJournalHeader(b)
      && LiveEntries(r, 0) == log + [ParseEntry(cells)]
      && BlankBehind(r, |log| + 1)
  {
    hide EntryBlank, EntryCells, WithEntry, EntryValid, ParseEntry, LiveEntries;
    var log := LiveEntries(b, 0);
    var n, longer := |log|, log + [ParseEntry(cells)];
    var r := WithEntry(b, n, cells);
    WithEntryReads(b, n, cells);
    LiveEntriesFormPrefix(b, 0);
    if EntryBlank(cells) {
      BlankEntryIsInvalid(cells);
    }
    if n + 1 < CAPACITY {
      assert EntryBlank(EntryCells(b, n + 1));
    }
    forall j | 0 <= j < n + 1
      ensures EntryLive(r, j) && longer[j] == EntryAt(r, j)
    {
      if j < n {
        assert EntryLive(b, j);
      }
    }
    LiveEntriesUnique(r, 0, longer);
  }

  /** The journal with an entry behind its log that fails the validity check. */
  lemma LogUnchanged(b: seq<byte>, cells: seq<byte>)
    requires |b| == JOURNAL_SIZE && |cells| == ENTRY_SIZE && !EntryValid(ParseEntry(cells))
    requires var n := |LiveEntries(b, 0)|; n < CAPACITY && BlankBehind(b, n)
    ensures var log := LiveEntries(b, 0);
      var r := WithEntry(b, |log|, cells);
      && ReadJournalHeader(r) == ReadJournalHeader(b)
      && LiveEntries(r, 0) == log
      && BlankBehind(r, |log|)
  {
    hide EntryBlank, EntryCells, WithEntry, EntryValid, ParseEntry, LiveEntries;
    var log := LiveEntries(b, 0);
    var r := WithEntry(b, |log|, cells);
    WithEntryReads(b, |log|, cells);
    LiveEntriesFormPrefix(b, 0);
    forall j | 0 <= j < |log|
      ensures EntryLive(r, j) && log[j] == EntryAt(r, j)
    {
      assert EntryLive(b, j);
    }
    LiveEntriesUnique(r, 0, log);
  }

  lemma CountReplayed(p: Platform, base: Payload, log: seq<Entry>, index: nat, e: Entry)
    requires index < |base.slots|
    requires e.slotIndex == index && SlotValid(ReplayLog(base.slots, log)[index])
    ensures base.(slots := ReplayLog(base.slots, log + [e]))
         == WithCount(base.(slots := ReplayLog(base.slots, log)), index, e.signCount)
  {
    hide SlotValid;
    ReplayLogAppend(base.slots, log, e);
  }

  /** The flash of a good device with 16 bytes written where its next journal entry goes. */
  function WithNextEntry(p: Platform, d: Device, cells: seq<byte>): Flash
    requires FlashShaped(p, d.flash) && d.ram.journal.nextIndex < CAPACITY && |cells| == ENTRY_SIZE
  {
    d.flash.(journal := WithEntry(d.flash.journal, d.ram.journal.nextIndex, cells))
  }

  /** Writing a valid entry for slot `index` sets exactly its count, in RAM and in what is recovered. */
  lemma ValidEntryWritten(p: Platform, d: Device, index: nat, cells: seq<byte>, sequence: u32)
    requires Good(p, d) && d.ram.journal.ready && d.ram.journal.nextIndex < CAPACITY
    requires |cells| == ENTRY_SIZE && EntryValid(ParseEntry(cells)) && ParseEntry(cells).slotIndex == index
    requires index < |d.ram.payload.slots| && SlotValid(d.ram.payload.slots[index])
    ensures Good(p, Device(WithNextEntry(p, d, cells),
                           d.ram.(payload := WithCount(d.ram.payload, index, ParseEntry(cells).signCount),
                                  journal := JournalState(true, sequence, d.ram.journal.nextIndex + 1))))
  {
    hide LoadSlot, Clean, EntryValid, ParseEntry, WithEntry, LiveEntries, EntryBlank, SlotValid, BlankBehind,
      ReplayLog;
    var (base, crc) := Base(p, d.flash, d.ram.active);
    LogExtended(d.flash.journal, cells);
    CountReplayed(p, base, LiveEntries(d.flash.journal, 0), index, ParseEntry(cells));
  }

  /** An entry that fails the validity check changes nothing that is recovered. */
  lemma InvalidEntryWritten(p: Platform, d: Device, cells: seq<byte>)
    requires Good(p, d) && d.ram.journal.ready && d.ram.journal.nextIndex < CAPACITY
    requires |cells| == ENTRY_SIZE && !EntryValid(ParseEntry(cells))
    ensures Good(p, Device(WithNextEntry(p, d, cells), d.ram))
  {
    hide LoadSlot, Clean, EntryValid, ParseEntry, WithEntry, LiveEntries, EntryBlank, SlotValid, BlankBehind,
      ReplayLog;
    LogUnchanged(d.flash.journal, cells);
  }

  // ---- A journal with room ----

  /** A successful append is durable: the entry is recovered by the next boot. */
  lemma AppendCompletes(p: Platform, d: Device, index: u16, count: u32)
    requires Good(p, d) && d.ram.journal.ready && d.ram.journal.nextIndex < CAPACITY && CanAppend(p, d)
    requires index < |d.ram.payload.slots| && SlotValid(d.ram.payload.slots[index])
    ensures var j := d.ram.journal;
      Good(p, Device(Apply(d.flash, AppendFlashOp(p, d, index, count)),
                     d.ram.(payload := WithCount(d.ram.payload, index, count),
                            journal := JournalState(true, Successor(j.nextSequence), j.nextIndex + 1))))
  {
    hide Chooses, Synced, EntryBlank, WithEntry, EntryValid, EntryBytes, CellsAfter, SlotValid, ParseEntry;
    var e := NewEntry(index, count, d.ram.journal.nextSequence);
    CompletedAppend(d.flash.journal, d.ram.journal.nextIndex, e);
    ParseEntryBytes(e);
    ValidEntryWritten(p, d, index, EntryBytes(e), Successor(d.ram.journal.nextSequence));
  }

  /** The slot's count is `least` or above, and nothing else differs. */
  predicate CountAtLeast(q: Payload, index: nat, least: u32, r: Payload)
    requires index < |q.slots|
  {
    && index < |r.slots|
    && r == WithCount(q, index, r.slots[index].signCount)
    && r.slots[index].signCount >= least
  }

  /** What is left of an interrupted append is the old journal with a torn entry behind its log. */
  lemma TornAppend(p: Platform, d: Device, index: u16, count: u32, t: Flash) returns (torn: seq<byte>)
    requires FlashShaped(p, d.flash) && d.ram.journal.nextIndex < CAPACITY && CanAppend(p, d)
    requires Interrupted(d.flash, AppendFlashOp(p, d, index, count), t)
    ensures |torn| == ENTRY_SIZE && t == WithNextEntry(p, d, torn)
    ensures EntryValid(ParseEntry(torn)) ==>
      ParseEntry(torn).slotIndex == index && ParseEntry(torn).signCount >= count
  {
    hide EntryBlank, WithEntry, CellsBetween, EntryValid, ParseEntry, EntryBytes, TornFrom, EntryCells, CellsAfter;
    var j := d.ram.journal;
    InterruptedAppend(d.flash.journal, j.nextIndex, NewEntry(index, count, j.nextSequence), t.journal);
    torn := EntryCells(t.journal, j.nextIndex);
    if EntryValid(ParseEntry(torn)) {
      TornEntryIsHarmless(torn, index, count, j.nextSequence);
    }
  }

  /** A power cut inside an append: the next boot recovers the old counts, or the slot's count at the intended
      value or above it. Every other slot, and everything else stored, is as before. */
  lemma AppendIsCrashSafe(p: Platform, d: Device, index: u16, count: u32, t: Flash)
    requires Good(p, d) && d.ram.journal.ready && d.ram.journal.nextIndex < CAPACITY && CanAppend(p, d)
    requires index < |d.ram.payload.slots| && SlotValid(d.ram.payload.slots[index])
    requires Interrupted(d.flash, AppendFlashOp(p, d, index, count), t)
    ensures FlashShaped(p, t) && !BootRam(p, t).changed && Good(p, Device(t, BootRam(p, t).ram))
    ensures Recover(p, t) == d.ram.payload || CountAtLeast(d.ram.payload, index, count, Recover(p, t))
  {
    hide Chooses, Synced, BootRam, EntryValid, ParseEntry, SlotValid, Interrupted, CanAppend, WithNextEntry;
    var torn := TornAppend(p, d, index, count, t);
    if EntryValid(ParseEntry(torn)) {
      ValidEntryWritten(p, d, index, torn, 1);
      var q := WithCount(d.ram.payload, index, ParseEntry(torn).signCount);
      var ram := d.ram.(payload := q, journal := JournalState(true, 1, d.ram.journal.nextIndex + 1));
      GoodEitherWay(p, t, ram, ram);
    } else {
      InvalidEntryWritten(p, d, torn);
      GoodEitherWay(p, t, d.ram, d.ram);
    }
  }
}
