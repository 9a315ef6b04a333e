/** The append-only sign-count journal: one header page bound to a store generation and payload checksum,
    then fixed 16-byte entries that are replayed at boot until the first blank or invalid one. */
module SignCountJournal {
  import opened Bits
  import opened Words
  import opened NorFlash
  import opened StoreFormat

  const JOURNAL_MAGIC: u32 := 0x4d4b_5343
  const JOURNAL_VERSION: u32 := 2
  const ENTRY_MAGIC: u32 := 0x5343_4e54
  const ENTRY_SIZE: nat := 16
  const JOURNAL_SIZE: nat := 8192

  /** (JOURNAL_SIZE - FLASH_PAGE_SIZE) / sizeof(entry) */
  const CAPACITY: nat := 496

  // ---- Header ----

  datatype JournalHeader = JournalHeader(
    magic: u32, version: u32, entrySize: u32, entryCapacity: u32, storeVersion: u32,
    storeGeneration: u32, storePayloadCrc: u32, reserved: u32)

  function JournalHeaderBytes(h: JournalHeader): (r: seq<byte>)
    ensures |r| == 32
  {
    Le32(h.magic) + Le32(h.version) + Le32(h.entrySize) + Le32(h.entryCapacity)
    + Le32(h.storeVersion) + Le32(h.storeGeneration) + Le32(h.storePayloadCrc) + Le32(h.reserved)
  }

  function ParseJournalHeader(b: seq<byte>): JournalHeader
    requires 32 <= |b|
  {
    JournalHeader(ReadLe32(b, 0), ReadLe32(b, 4), ReadLe32(b, 8), ReadLe32(b, 12),
                  ReadLe32(b, 16), ReadLe32(b, 20), ReadLe32(b, 24), ReadLe32(b, 28))
  }

  lemma ParseJournalHeaderBytes(h: JournalHeader, b: seq<byte>)
    requires 32 <= |b| && b[..32] == JournalHeaderBytes(h)
    ensures ParseJournalHeader(b) == h
  {
    var w := b[..32];
    assert b[0..4] == w[0..4] == Le32(h.magic);
    assert b[4..8] == w[4..8] == Le32(h.version);
    assert b[8..12] == w[8..12] == Le32(h.entrySize);
    assert b[12..16] == w[12..16] == Le32(h.entryCapacity);
    assert b[16..20] == w[16..20] == Le32(h.storeVersion);
    assert b[20..24] == w[20..24] == Le32(h.storeGeneration);
    assert b[24..28] == w[24..28] == Le32(h.storePayloadCrc);
    assert b[28..32] == w[28..32] == Le32(h.reserved);
    ReadLe32At(b, 0, h.magic);
    ReadLe32At(b, 4, h.version);
    ReadLe32At(b, 8, h.entrySize);
    ReadLe32At(b, 12, h.entryCapacity);
    ReadLe32At(b, 16, h.storeVersion);
    ReadLe32At(b, 20, h.storeGeneration);
    ReadLe32At(b, 24, h.storePayloadCrc);
    ReadLe32At(b, 28, h.reserved);
  }

  /** The header sign_count_journal_erase_and_initialize writes. */
  function NewJournalHeader(generation: u32, payloadCrc: u32): JournalHeader {
    JournalHeader(JOURNAL_MAGIC, JOURNAL_VERSION, ENTRY_SIZE, CAPACITY, STORE_VERSION, generation, payloadCrc, 0)
  }

  /** The first journal page: the header, then blank bytes. */
  function FirstPage(generation: u32, payloadCrc: u32): (r: seq<byte>)
    ensures |r| == 256
  {
    JournalHeaderBytes(NewJournalHeader(generation, payloadCrc)) + Erased(224)
  }

  /** sign_count_journal_header_basic_is_valid */
  predicate HeaderReadable(h: JournalHeader) {
    && h.magic == JOURNAL_MAGIC
    && h.version == JOURNAL_VERSION
    && h.entrySize == ENTRY_SIZE
    && h.entryCapacity == CAPACITY
    && h.storeVersion == STORE_VERSION
  }

  /** The journal's header, if it is readable at all. */
  function ReadJournalHeader(b: seq<byte>): Option<JournalHeader> {
    if |b| == JOURNAL_SIZE && HeaderReadable(ParseJournalHeader(b)) then Some(ParseJournalHeader(b)) else None
  }

  /** sign_count_journal_header_is_valid: the journal belongs to this generation and payload checksum. */
  predicate Bound(b: seq<byte>, generation: u32, payloadCrc: u32) {
    var h := ReadJournalHeader(b);
    h.Some? && h.value.storeGeneration == generation && h.value.storePayloadCrc == payloadCrc
  }

  /** The bytes that make a header readable, and those that bind the journal to an image; nothing else is looked at. */
  lemma BoundIff(b: seq<byte>, generation: u32, payloadCrc: u32)
    requires |b| == JOURNAL_SIZE
    ensures ReadJournalHeader(b).Some? <==>
      && ReadLe32(b, 0) == 0x4d4b_5343 && ReadLe32(b, 4) == 2 && ReadLe32(b, 8) == 16
      && ReadLe32(b, 12) == (JOURNAL_SIZE - 256) / 16 && ReadLe32(b, 16) == 6
    ensures Bound(b, generation, payloadCrc) <==>
      ReadJournalHeader(b).Some? && ReadLe32(b, 20) == generation && ReadLe32(b, 24) == payloadCrc
  {
  }

  /** The journal sign_count_journal_erase_and_initialize leaves: its header page and blank entries. */
  function FreshJournal(generation: u32, payloadCrc: u32): (r: seq<byte>)
    ensures |r| == JOURNAL_SIZE
  {
    FirstPage(generation, payloadCrc) + Erased(JOURNAL_SIZE - 256)
  }

  lemma FreshJournalReads(generation: u32, payloadCrc: u32)
    ensures ReadJournalHeader(FreshJournal(generation, payloadCrc)) == Some(NewJournalHeader(generation, payloadCrc))
    ensures Bound(FreshJournal(generation, payloadCrc), generation, payloadCrc)
    ensures forall i :: 0 <= i < CAPACITY ==> EntryBlank(EntryCells(FreshJournal(generation, payloadCrc), i))
  {
    var b := FreshJournal(generation, payloadCrc);
    var h := NewJournalHeader(generation, payloadCrc);
    assert b[..32] == JournalHeaderBytes(h);
    ParseJournalHeaderBytes(h, b);
  }

  lemma BlankHeaderUnreadable(b: seq<byte>)
    requires 4 <= |b| && b[0] == 255 && b[1] == 255 && b[2] == 255 && b[3] == 255
    ensures ReadJournalHeader(b) == None
  {
    if |b| == JOURNAL_SIZE {
      assert ReadLe32(b, 0) == 0xffff_ffff;
    }
  }

  // ---- Entries ----

  datatype Entry = Entry(magic: u32, slotIndex: u16, slotIndexCheck: u16, signCount: u32, sequence: u32)

  function EntryBytes(e: Entry): (r: seq<byte>)
    ensures |r| == ENTRY_SIZE
  {
    Le32(e.magic) + Le16(e.slotIndex) + Le16(e.slotIndexCheck) + Le32(e.signCount) + Le32(e.sequence)
  }

  function ParseEntry(b: seq<byte>): Entry
    requires |b| == ENTRY_SIZE
  {
    Entry(ReadLe32(b, 0), ReadLe16(b, 4), ReadLe16(b, 6), ReadLe32(b, 8), ReadLe32(b, 12))
  }

  lemma ParseEntryBytes(e: Entry)
    ensures ParseEntry(EntryBytes(e)) == e
  {
    var b := EntryBytes(e);
    assert b[0..4] == Le32(e.magic);
    assert b[4..6] == Le16(e.slotIndex);
    assert b[6..8] == Le16(e.slotIndexCheck);
    assert b[8..12] == Le32(e.signCount);
    assert b[12..16] == Le32(e.sequence);
    ReadLe32At(b, 0, e.magic);
    ReadLe16At(b, 4, e.slotIndex);
    ReadLe16At(b, 6, e.slotIndexCheck);
    ReadLe32At(b, 8, e.signCount);
    ReadLe32At(b, 12, e.sequence);
  }

  /** The entry sign_count_journal_append builds; the check word is the 16-bit complement of the index. */
  function NewEntry(slotIndex: u16, signCount: u32, sequence: u32): (e: Entry)
    ensures EntryValid(e)
  {
    Entry(ENTRY_MAGIC, slotIndex, 0xffff - slotIndex, signCount, sequence)
  }

  predicate EntryBlank(b: seq<byte>) {
    forall i :: 0 <= i < |b| ==> b[i] == 255
  }

  /** sign_count_journal_entry_is_valid */
  predicate EntryValid(e: Entry) {
    e.magic == ENTRY_MAGIC && e.slotIndexCheck == 0xffff - e.slotIndex
  }

  function EntryOffset(index: nat): nat {
    256 + 16 * index
  }

  /** The raw bytes of entry `index`. */
  function EntryCells(b: seq<byte>, index: nat): (r: seq<byte>)
    requires |b| == JOURNAL_SIZE && index < CAPACITY
    ensures |r| == ENTRY_SIZE
  {
    b[EntryOffset(index)..EntryOffset(index) + 16]
  }

  function EntryAt(b: seq<byte>, index: nat): Entry
    requires |b| == JOURNAL_SIZE && index < CAPACITY
  {
    ParseEntry(EntryCells(b, index))
  }

  /** Replay stops at the first entry that is blank or invalid. */
  predicate EntryLive(b: seq<byte>, index: nat)
    requires |b| == JOURNAL_SIZE && index < CAPACITY
  {
    !EntryBlank(EntryCells(b, index)) && EntryValid(EntryAt(b, index))
  }

  lemma BlankEntryIsInvalid(b: seq<byte>)
    requires |b| == ENTRY_SIZE && EntryBlank(b)
    ensures !EntryValid(ParseEntry(b))
  {
    assert b[0] == 255 && b[1] == 255 && b[2] == 255 && b[3] == 255;
  }

  /** The bytes that make an entry live: the magic, and a slot number with its complement. A blank one has neither. */
  lemma LiveIff(b: seq<byte>, index: nat)
    requires |b| == JOURNAL_SIZE && index < CAPACITY
    ensures EntryLive(b, index) <==>
      ReadLe32(EntryCells(b, index), 0) == 0x5343_4e54
      && ReadLe16(EntryCells(b, index), 4) + ReadLe16(EntryCells(b, index), 6) == 0xffff
  {
    var cells := EntryCells(b, index);
    if EntryBlank(cells) {
      BlankEntryIsInvalid(cells);
      assert ReadLe32(cells, 0) != 0x5343_4e54;
    }
  }

  // ---- Replay ----

  datatype JournalState = JournalState(ready: bool, nextSequence: u32, nextIndex: nat)

  const RESET_STATE := JournalState(false, 1, 0)

  /** The entries the boot-time scan replays, from entry `index` on. */
  function LiveEntries(b: seq<byte>, index: nat): (log: seq<Entry>)
    requires |b| == JOURNAL_SIZE && index <= CAPACITY
    ensures index + |log| <= CAPACITY
    decreases CAPACITY - index
  {
    if index == CAPACITY || !EntryLive(b, index) then []
    else [EntryAt(b, index)] + LiveEntries(b, index + 1)
  }

  /** One replayed entry: only a valid slot takes the journalled count. */
  function ReplayEntry(slots: seq<Slot>, e: Entry): (r: seq<Slot>)
    ensures |r| == |slots|
  {
    if e.slotIndex < |slots| && SlotValid(slots[e.slotIndex])
    then slots[e.slotIndex := slots[e.slotIndex].(signCount := e.signCount)]
    else slots
  }

  /** An unbounded append-only log of counts, replayed from the front. */
  function ReplayLog(slots: seq<Slot>, log: seq<Entry>): (r: seq<Slot>)
    ensures |r| == |slots|
    decreases |log|
  {
    if log == [] then slots else ReplayLog(ReplayEntry(slots, log[0]), log[1..])
  }

  lemma {:induction false} ReplayLogAppend(slots: seq<Slot>, log: seq<Entry>, e: Entry)
    ensures ReplayLog(slots, log + [e]) == ReplayEntry(ReplayLog(slots, log), e)
    decreases |log|
  {
    if log == [] {
      assert ReplayLog(slots, [e]) == ReplayLog(ReplayEntry(slots, e), []);
    } else {
      var whole := log + [e];
      assert whole[1..] == log[1..] + [e];
      ReplayLogAppend(ReplayEntry(slots, log[0]), log[1..], e);
    }
  }

  function NextSequence(current: u32, e: Entry): u32 {
    if e.sequence >= current then (e.sequence + 1) % 0x1_0000_0000 else current
  }

  function SequenceAfter(current: u32, log: seq<Entry>): u32
    decreases |log|
  {
    if log == [] then current else SequenceAfter(NextSequence(current, log[0]), log[1..])
  }

  /** `log` is what the entries from `index` on read as: live ones, up to the first dead one. */
  predicate IsLivePrefix(b: seq<byte>, index: nat, log: seq<Entry>)
    requires |b| == JOURNAL_SIZE && index + |log| <= CAPACITY
  {
    && (forall j {:trigger EntryLive(b, j)} :: index <= j < index + |log| ==>
         EntryLive(b, j) && log[j - index] == EntryAt(b, j))
    && (index + |log| < CAPACITY ==> !EntryLive(b, index + |log|))
  }

  lemma LivePrefixCons(b: seq<byte>, index: nat, rest: seq<Entry>)
    requires |b| == JOURNAL_SIZE && index + 1 + |rest| <= CAPACITY
    requires EntryLive(b, index) && IsLivePrefix(b, index + 1, rest)
    ensures IsLivePrefix(b, index, [EntryAt(b, index)] + rest)
  {
    var log := [EntryAt(b, index)] + rest;
    forall j | index <= j < index + |log|
      ensures EntryLive(b, j) && log[j - index] == EntryAt(b, j)
    {
      if j > index {
        assert log[j - index] == rest[j - (index + 1)];
      }
    }
  }

  /** The live entries form a contiguous prefix: every one of them is live, and the next is not. */
  lemma {:induction false} LiveEntriesFormPrefix(b: seq<byte>, index: nat)
    requires |b| == JOURNAL_SIZE && index <= CAPACITY
    ensures IsLivePrefix(b, index, LiveEntries(b, index))
    decreases CAPACITY - index
  {
    if index < CAPACITY && EntryLive(b, index) {
      LiveEntriesFormPrefix(b, index + 1);
      LivePrefixCons(b, index, LiveEntries(b, index + 1));
    }
  }

  /** The scan is determined by the entries up to the one where it stops. */
  lemma {:induction false} LiveEntriesUnique(b: seq<byte>, index: nat, log: seq<Entry>)
    requires |b| == JOURNAL_SIZE && index + |log| <= CAPACITY
    requires IsLivePrefix(b, index, log)
    ensures LiveEntries(b, index) == log
    decreases |log|
  {
    hide EntryLive, EntryAt;
    if log != [] {
      var rest := log[1..];
      assert EntryLive(b, index);
      forall j | index + 1 <= j < index + 1 + |rest|
        ensures EntryLive(b, j) && rest[j - (index + 1)] == EntryAt(b, j)
      {
        assert EntryLive(b, j) && rest[j - (index + 1)] == log[j - index];
      }
      LiveEntriesUnique(b, index + 1, rest);
      assert log == [log[0]] + rest;
    }
  }

  // ---- Appending one entry ----

  /** The start of the page that holds entry `index`. */
  function PageStart(index: nat): (page: nat)
    requires index < CAPACITY
    ensures page <= EntryOffset(index) && EntryOffset(index) + 16 <= page + 256 <= JOURNAL_SIZE
  {
    EntryOffset(index) / 256 * 256
  }

  /** The page program that sign_count_journal_append issues: the page re-read, with the entry patched in. */
  function AppendOp(b: seq<byte>, index: nat, e: Entry): FlashOp
    requires |b| == JOURNAL_SIZE && index < CAPACITY
  {
    var page := PageStart(index);
    Program(Journal, page, PatchedPage(b, page, EntryOffset(index) - page, EntryBytes(e)))
  }

  function PatchedPage(b: seq<byte>, page: nat, at: nat, data: seq<byte>): (r: seq<byte>)
    requires page + 256 <= |b| && at + |data| <= 256
    ensures |r| == 256
  {
    var buffer := b[page..page + 256];
    buffer[..at] + data + buffer[at + |data|..]
  }

  /** The journal with entry `index` overwritten. */
  function WithEntry(b: seq<byte>, index: nat, cells: seq<byte>): (r: seq<byte>)
    requires |b| == JOURNAL_SIZE && index < CAPACITY && |cells| == ENTRY_SIZE
    ensures |r| == JOURNAL_SIZE
  {
    b[..EntryOffset(index)] + cells + b[EntryOffset(index) + 16..]
  }

  lemma WithEntryReads(b: seq<byte>, index: nat, cells: seq<byte>)
    requires |b| == JOURNAL_SIZE && index < CAPACITY && |cells| == ENTRY_SIZE
    ensures var r := WithEntry(b, index, cells);
      && EntryCells(r, index) == cells
      && (forall i :: 0 <= i < CAPACITY && i != index ==> EntryCells(r, i) == EntryCells(b, i))
      && r[..256] == b[..256]
      && ReadJournalHeader(r) == ReadJournalHeader(b)
  {
    var r := WithEntry(b, index, cells);
    forall i | 0 <= i < CAPACITY && i != index
      ensures EntryCells(r, i) == EntryCells(b, i)
    {
    }
    assert forall k :: 0 <= k < 256 ==> r[k] == b[k];
  }

  /** `t` is `cells` programmed over a blank entry and cut: no bit the entry needs set has been cleared. */
  predicate TornFrom(t: seq<byte>, cells: seq<byte>) {
    |t| == |cells| && forall i :: 0 <= i < |t| ==> Submask(cells[i], t[i])
  }

  /** Re-programming a page with one blank entry patched disturbs only that entry, whenever power is lost. */
  lemma InterruptedAppend(b: seq<byte>, index: nat, e: Entry, t: seq<byte>)
    requires |b| == JOURNAL_SIZE && index < CAPACITY
    requires EntryBlank(EntryCells(b, index))
    requires CellsBetween(b, CellsAfter(b, AppendOp(b, index, e)), t)
    ensures |t| == JOURNAL_SIZE
    ensures t == WithEntry(b, index, EntryCells(t, index))
    ensures TornFrom(EntryCells(t, index), EntryBytes(e))
  {
    var lo := EntryOffset(index);
    var after := CellsAfter(b, AppendOp(b, index, e));
    var torn, cells := EntryCells(t, index), EntryBytes(e);
    forall i | 0 <= i < |b| && !(lo <= i < lo + 16)
      ensures t[i] == b[i]
    {
      AppendOutside(b, index, e, i);
      assert BitsBetween(b[i], after[i], t[i]);
      SubmaskAntisymmetric(b[i], t[i]);
    }
    assert t == WithEntry(b, index, torn);
    forall k | 0 <= k < 16
      ensures Submask(cells[k], torn[k])
    {
      AppendInside(b, index, e, k);
      TornByte(cells[k], b[lo + k], t[lo + k], EntryCells(b, index)[k], after[lo + k]);
    }
  }

  lemma TornByte(intended: byte, before: byte, torn: byte, blank: byte, after: byte)
    requires BitsBetween(before, after, torn)
    requires before == blank == 255 && after == intended
    ensures Submask(intended, torn)
  {
    if Submask(before, torn) {
      SubmaskOfOnes(torn);
      ErasedAbove(intended);
    }
  }

  lemma AppendOutside(b: seq<byte>, index: nat, e: Entry, i: nat)
    requires |b| == JOURNAL_SIZE && index < CAPACITY && i < |b|
    requires !(EntryOffset(index) <= i < EntryOffset(index) + 16)
    ensures CellsAfter(b, AppendOp(b, index, e))[i] == b[i]
  {
    hide EntryBytes, PatchedPage, PageStart;
    var page := PageStart(index);
    var at := EntryOffset(index) - page;
    if page <= i < page + 256 {
      PatchedAt(b, page, at, EntryBytes(e), i - page);
      AndIdempotent(b[i]);
    }
  }

  lemma PatchedAt(b: seq<byte>, page: nat, at: nat, data: seq<byte>, k: nat)
    requires page + 256 <= |b| && at + |data| <= 256 && k < 256
    ensures PatchedPage(b, page, at, data)[k] == if at <= k < at + |data| then data[k - at] else b[page + k]
  {
    var buffer := b[page..page + 256];
    assert buffer[k] == b[page + k];
  }

  lemma AppendInside(b: seq<byte>, index: nat, e: Entry, k: nat)
    requires |b| == JOURNAL_SIZE && index < CAPACITY && k < 16
    requires EntryBlank(EntryCells(b, index))
    ensures CellsAfter(b, AppendOp(b, index, e))[EntryOffset(index) + k] == EntryBytes(e)[k]
  {
    hide EntryBytes, PatchedPage, PageStart;
    var i := EntryOffset(index) + k;
    var page := PageStart(index);
    PatchedAt(b, page, EntryOffset(index) - page, EntryBytes(e), i - page);
    assert EntryCells(b, index)[k] == b[i];
    AndErased(EntryBytes(e)[k]);
  }

  /** A completed append writes exactly the entry. */
  lemma CompletedAppend(b: seq<byte>, index: nat, e: Entry)
    requires |b| == JOURNAL_SIZE && index < CAPACITY
    requires EntryBlank(EntryCells(b, index))
    ensures CellsAfter(b, AppendOp(b, index, e)) == WithEntry(b, index, EntryBytes(e))
  {
    var after := CellsAfter(b, AppendOp(b, index, e));
    var expected := WithEntry(b, index, EntryBytes(e));
    forall i | 0 <= i < |b|
      ensures after[i] == expected[i]
    {
      if EntryOffset(index) <= i < EntryOffset(index) + 16 {
        AppendInside(b, index, e, i - EntryOffset(index));
      } else {
        AppendOutside(b, index, e, i);
      }
    }
  }

  /** The one-way bits of NOR flash make torn entries harmless: a torn entry that still passes the validity
      check names exactly the intended slot, and its count is at least the intended one. */
  lemma TornEntryIsHarmless(t: seq<byte>, slotIndex: u16, signCount: u32, sequence: u32)
    requires TornFrom(t, EntryBytes(NewEntry(slotIndex, signCount, sequence)))
    requires EntryValid(ParseEntry(t))
    ensures ParseEntry(t).slotIndex == slotIndex
    ensures ParseEntry(t).signCount >= signCount
  {
    var e := NewEntry(slotIndex, signCount, sequence);
    var cells := EntryBytes(e);
    assert forall i :: 0 <= i < 16 ==> cells[i] <= t[i] by {
      forall i | 0 <= i < 16
        ensures cells[i] <= t[i]
      {
        assert Submask(cells[i], t[i]);
      }
    }
    ParseEntryBytes(e);
    assert ReadLe16(cells, 4) <= ReadLe16(t, 4) && ReadLe16(cells, 6) <= ReadLe16(t, 6);
    assert ReadLe32(cells, 8) <= ReadLe32(t, 8);
  }

  /** After a replay the next sequence number is one above every number replayed, and no higher than it must be. */
  lemma {:induction false} SequencesGrow(current: u32, log: seq<Entry>)
    requires forall i :: 0 <= i < |log| ==> log[i].sequence < 0xffff_ffff
    ensures SequenceAfter(current, log) >= current
    ensures forall i :: 0 <= i < |log| ==> SequenceAfter(current, log) > log[i].sequence
    ensures SequenceAfter(current, log) == current
         || exists i :: 0 <= i < |log| && SequenceAfter(current, log) == log[i].sequence + 1
    decreases |log|
  {
    if log != [] {
      var next, rest := NextSequence(current, log[0]), log[1..];
      SequencesGrow(next, rest);
      forall i | 0 <= i < |log|
        ensures SequenceAfter(current, log) > log[i].sequence
      {
        if i > 0 {
          assert log[i] == rest[i - 1];
        }
      }
      if i :| 0 <= i < |rest| && SequenceAfter(next, rest) == rest[i].sequence + 1 {
        assert log[i + 1] == rest[i];
      }
    }
  }
}
