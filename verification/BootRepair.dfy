/** What the boot makes of an image that needs repair: which slot it takes, what it keeps, what it replaces, and why
    the repair can be written back, power cuts included. */
module BootRepair {
  import opened Bits
  import opened NorFlash
  import opened StoreFormat
  import opened SignCountJournal
  import opened StoreSpec
  import opened CrashSafety

  // ---- Which slot ----

  /** Boot takes the newest slot that loads, the first one of equals, and none only if none loads. */
  lemma NewestSlotIsTaken(p: Platform, f: Flash)
    ensures var a, b, chosen := LoadSlot(p, f.slot0), LoadSlot(p, f.slot1), SelectSlot(p, f);
      && (chosen == None <==> a == None && b == None)
      && (chosen.Some? && chosen.value.index == 0 ==>
           a == Some(chosen.value.loaded) && (b.Some? ==> b.value.generation <= a.value.generation))
      && (chosen.Some? && chosen.value.index != 0 ==>
           chosen.value.index == 1 && b == Some(chosen.value.loaded)
           && (a.Some? ==> a.value.generation < b.value.generation))
  {
    hide LoadSlot;
  }

  // ---- What is kept and what is replaced ----

  /** The slots that hold a credential. */
  function Credentials(slots: seq<Slot>): set<nat> {
    set i: nat | i < |slots| && SlotValid(slots[i])
  }

  /** The configuration was stored by a build that may: any debug build accepts it, and the production build only
      one that was stored by a production build. */
  predicate Trusted(p: Platform, q: Payload) {
    p.debugHid || (q.provenanceMagic == 0xa5 && q.provenanceFlags >= 0x80 && q.provenanceFlags % 2 == 0)
  }

  predicate UnusedIsZero(q: Payload) {
    forall i :: 0 <= i < |q.slots| && q.slots[i].inUse == 0 ==> q.slots[i] == EmptySlot()
  }

  /** `r` is `q` repaired, field by field. */
  predicate Repaired(p: Platform, q: Payload, r: Payload) {
    && r.pinHash == q.pinHash && r.pinConfigured == q.pinConfigured && r.tail == q.tail
    && r.pinRetries == (if q.pinConfigured == 0 && q.pinRetries == 0 then 8 else q.pinRetries)
    && |r.slots| == |q.slots|
    && (forall i :: 0 <= i < |q.slots| ==>
         r.slots[i] == if SlotValid(q.slots[i]) || q.slots[i].inUse == 0 then q.slots[i] else EmptySlot())
    && r.credentialCount == |Credentials(r.slots)|
    && (if UpConfigValid(q.userPresence) && Trusted(p, q) then
          && r.userPresence == q.userPresence
          && r.provenanceMagic == q.provenanceMagic && r.provenanceFlags == q.provenanceFlags
        else
          && r.userPresence == p.defaultUp
          && r.provenanceMagic == 0xa5 && r.provenanceFlags == if p.debugHid then 0x81 else 0x80)
  }

  lemma {:induction false} CountIsCredentials(slots: seq<Slot>)
    ensures ValidCount(slots) == |Credentials(slots)|
    decreases |slots|
  {
    hide SlotValid;
    if slots == [] {
      assert Credentials(slots) == {};
    } else {
      var last := |slots| - 1;
      CountIsCredentials(slots[..last]);
      if SlotValid(slots[last]) {
        assert Credentials(slots) == Credentials(slots[..last]) + {last};
      } else {
        assert Credentials(slots) == Credentials(slots[..last]);
      }
    }
  }

  lemma SanitizeRepairs(p: Platform, q: Payload)
    requires Shaped(p, q)
    ensures Repaired(p, q, Sanitize(p, q))
  {
    hide SlotValid, UpConfigValid, ValidCount, Credentials;
    CountIsCredentials(Sanitize(p, q).slots);
  }

  /** The repair is determined: there is one payload it can be. */
  lemma RepairedIsUnique(p: Platform, q: Payload, r: Payload, s: Payload)
    requires Repaired(p, q, r) && Repaired(p, q, s)
    ensures r == s
  {
    assert r.slots == s.slots;
  }

  lemma ReplayEntryCounts(slots: seq<Slot>, e: Entry, i: nat)
    requires i < |slots|
    ensures var s, r := slots[i], ReplayEntry(slots, e)[i];
      r == s.(signCount := r.signCount) && (!SlotValid(s) ==> r == s) && SlotValid(r) == SlotValid(s)
  {
  }

  /** Replaying the journal changes counts of credentials and nothing else. */
  lemma {:induction false} ReplayOnlyCounts(slots: seq<Slot>, log: seq<Entry>, i: nat)
    requires i < |slots|
    ensures var s, r := slots[i], ReplayLog(slots, log)[i];
      r == s.(signCount := r.signCount) && (!SlotValid(s) ==> r == s) && SlotValid(r) == SlotValid(s)
    decreases |log|
  {
    hide ReplayEntry, SlotValid;
    if log != [] {
      ReplayEntryCounts(slots, log[0], i);
      ReplayOnlyCounts(ReplayEntry(slots, log[0]), log[1..], i);
    }
  }

  /** What a boot loads: the image of the slot it takes. */
  function LoadedPayload(p: Platform, f: Flash): Payload
    requires SelectSlot(p, f).Some?
  {
    SelectSlot(p, f).value.loaded.payload
  }

  /** Whatever image loads, boot recovers it repaired, with the counts of a bound journal, and writes it back exactly
      if that changed it or it was not wrapped. */
  lemma BootRepairs(p: Platform, f: Flash) returns (base: Payload)
    requires FlashShaped(p, f) && SelectSlot(p, f).Some?
    ensures Repaired(p, LoadedPayload(p, f), base)
    ensures var chosen, b := SelectSlot(p, f).value, BootRam(p, f);
      && b.ram.payload == base.(slots := b.ram.payload.slots)
      && b.changed == (!chosen.loaded.wrapped || base != LoadedPayload(p, f))
      && b.ram.generation == chosen.loaded.generation && b.ram.active == chosen.index
    ensures var chosen, ram := SelectSlot(p, f).value, BootRam(p, f).ram;
      var bound := Bound(f.journal, chosen.loaded.generation, chosen.loaded.payloadCrc);
      var log := if bound then LiveEntries(f.journal, 0) else [];
      && ram.payload.slots == ReplayLog(base.slots, log)
      && ram.journal == JournalState(bound, SequenceAfter(1, log), |log|)
  {
    hide LoadSlot, Sanitize, Repaired, ReplayLog, LiveEntries, Bound;
    base := Sanitize(p, LoadedPayload(p, f));
    SanitizeRepairs(p, LoadedPayload(p, f));
  }

  /** The same, of what matters to the user: the PIN survives every boot, and so does every credential, with only its
      count brought up to date; the retries are restored only where there is no PIN. */
  lemma BootKeepsPinAndCredentials(p: Platform, f: Flash)
    requires FlashShaped(p, f) && SelectSlot(p, f).Some?
    ensures var q, r := LoadedPayload(p, f), Recover(p, f);
      && r.pinHash == q.pinHash && r.pinConfigured == q.pinConfigured
      && (q.pinConfigured != 0 || q.pinRetries != 0 ==> r.pinRetries == q.pinRetries)
      && |r.slots| == |q.slots| && Credentials(r.slots) == Credentials(q.slots)
      && r.credentialCount == |Credentials(q.slots)|
      && forall i :: i in Credentials(q.slots) ==> r.slots[i] == q.slots[i].(signCount := r.slots[i].signCount)
  {
    hide LoadSlot, BootRam, SlotValid, ReplayLog, LiveEntries, Bound, UpConfigValid;
    var q, r := LoadedPayload(p, f), Recover(p, f);
    var base := BootRepairs(p, f);
    var log := if Bound(f.journal, SelectSlot(p, f).value.loaded.generation, SelectSlot(p, f).value.loaded.payloadCrc)
               then LiveEntries(f.journal, 0) else [];
    forall i | 0 <= i < |q.slots|
      ensures SlotValid(base.slots[i]) == SlotValid(q.slots[i])
      ensures SlotValid(r.slots[i]) == SlotValid(q.slots[i])
      ensures SlotValid(q.slots[i]) ==> r.slots[i] == q.slots[i].(signCount := r.slots[i].signCount)
    {
      ReplayOnlyCounts(base.slots, log, i);
    }
    assert Credentials(base.slots) == Credentials(q.slots);
    assert Credentials(r.slots) == Credentials(q.slots);
  }

  // ---- Writing the repair back ----

  lemma RepairedIsClean(p: Platform, q: Payload, r: Payload)
    requires Shaped(p, q) && UnusedIsZero(q) && Repaired(p, q, r) && Shaped(p, r)
    ensures Clean(p, r)
  {
    hide SlotValid, Sanitize, ValidCount, Credentials;
    CountIsCredentials(r.slots);
    CleanIff(p, r);
  }

  lemma RecoveredIsClean(p: Platform, f: Flash)
    requires FlashShaped(p, f) && SelectSlot(p, f).Some? && UnusedIsZero(LoadedPayload(p, f))
    ensures Clean(p, Recover(p, f))
  {
    hide LoadSlot, Clean, ReplayLog, LiveEntries, Bound, UnusedIsZero, Repaired;
    var q := LoadedPayload(p, f);
    SanitizeRepairs(p, q);
    RepairedIsClean(p, q, Sanitize(p, q));
    var chosen := SelectSlot(p, f).value;
    var log := if Bound(f.journal, chosen.loaded.generation, chosen.loaded.payloadCrc)
               then LiveEntries(f.journal, 0) else [];
    ReplayKeepsClean(p, Sanitize(p, q), log);
  }

  /** Which slot boot took is the one its commit leaves alone. */
  lemma TakenIsKept(p: Platform, f: Flash)
    requires FlashShaped(p, f) && SelectSlot(p, f).Some?
    ensures var ram := BootRam(p, f).ram; KeptIsOlder(p, f, ram.active, ram.generation) && 0 <= ram.active <= 1
  {
    hide LoadSlot, Sanitize, ReplayLog, LiveEntries, Bound, Pack;
  }

  /** A boot that repairs and whose commit succeeds leaves a good device: the repaired content is in RAM, in flash,
      and what the next boot recovers without another repair. */
  lemma RepairSettles(p: Platform, f: Flash, e: Entropy)
    requires FlashShaped(p, f) && SelectSlot(p, f).Some? && UnusedIsZero(LoadedPayload(p, f))
    requires BootRam(p, f).changed && e.wrapOk && SelectSlot(p, f).value.loaded.generation < 0xffff_ffff
    ensures var d := Boot(p, f, e);
      && Good(p, d) && d.ram.payload == Recover(p, f)
      && FlashShaped(p, d.flash) && Recover(p, d.flash) == Recover(p, f) && !BootRam(p, d.flash).changed
  {
    hide LoadSlot, Clean, Good, CommitOps, ApplyAll, SelectSlot, UnusedIsZero, KeptIsOlder, ReplayLog;
    var _ := BootRepairs(p, f);
    RecoveredIsClean(p, f);
    TakenIsKept(p, f);
    CommitIsGood(p, f, BootRam(p, f).ram, e);
    RebootRecovers(p, Boot(p, f, e));
  }

  lemma NewSlotRecovered(p: Platform, t: Flash, ram: Ram, salt: Bytes16)
    requires FlashShaped(p, t) && Clean(p, ram.payload) && ram.generation < 0xffff_ffff
    requires KeptIsOlder(p, t, ram.active, ram.generation) && JournalNotAhead(t, Successor(ram.generation))
    requires LoadSlot(p, t.Read(SlotRegion(TargetSlot(ram.active))))
          == LoadSlot(p, PrepareImage(p, ram.payload, Successor(ram.generation), salt))
    requires Bound(t.journal, Successor(ram.generation), ImageCrc(p, ram.payload, salt)) ==> AllBlank(t.journal)
    ensures Recover(p, t) == ram.payload && !BootRam(p, t).changed && Good(p, Device(t, BootRam(p, t).ram))
  {
    hide LoadSlot, Sanitize, PrepareImage, ImageCrc, Chooses, Base, EntryBlank, EntryCells, BootRam, KeptIsOlder, Bound;
    var next := CommittedRam(p, ram, salt);
    var after := Replayless(next, Bound(t.journal, next.generation, next.payloadCrc));
    NewSlotWins(p, t, ram, salt);
    SyncedWithoutLog(p, t, after);
    GoodEitherWay(p, t, after, after);
  }

  /** The target slot not yet replaced, boot takes the same slot again and repairs it again. */
  lemma SameSlotTaken(p: Platform, f: Flash, t: Flash)
    requires FlashShaped(p, f) && SelectSlot(p, f).Some? && FlashShaped(p, t) && t.journal == f.journal
    requires var active := BootRam(p, f).ram.active;
      var target := SlotRegion(TargetSlot(active));
      && t == f.With(target, t.Read(target))
      && (LoadSlot(p, t.Read(target)) == None || LoadSlot(p, t.Read(target)) == LoadSlot(p, f.Read(target)))
    ensures SelectSlot(p, t) == SelectSlot(p, f) && BootRam(p, t) == BootRam(p, f)
  {
    hide LoadSlot, Sanitize, ReplayLog, LiveEntries, Bound, Pack;
    TakenIsKept(p, f);
  }

  lemma KeptStaysOlder(p: Platform, f: Flash, t: Flash, active: int, generation: u32)
    requires KeptIsOlder(p, f, active, generation)
    requires t.Read(SlotRegion(TargetSlot(TargetSlot(active)))) == f.Read(SlotRegion(TargetSlot(TargetSlot(active))))
    ensures KeptIsOlder(p, t, active, generation)
  {
  }

  lemma RepairCutInSlot(p: Platform, f: Flash, salt: Bytes16, t: Flash)
    requires FlashShaped(p, f) && SelectSlot(p, f).Some? && UnusedIsZero(LoadedPayload(p, f))
    requires var ram := BootRam(p, f).ram;
      && ram.generation < 0xffff_ffff && JournalNotAhead(f, ram.generation)
      && PowerCut(p, f, SlotOps(p, SlotRegion(TargetSlot(ram.active)),
                                PrepareImage(p, ram.payload, Successor(ram.generation), salt)), t)
    ensures FlashShaped(p, t) && Recover(p, t) == Recover(p, f)
  {
    hide LoadSlot, Clean, PrepareImage, PowerCut, SlotOps, BootRam, UnusedIsZero, SelectSlot, LoadedPayload, EntryBlank,
      EntryCells, KeptIsOlder, ImageCrc;
    var ram := BootRam(p, f).ram;
    var target := SlotRegion(TargetSlot(ram.active));
    var image := PrepareImage(p, ram.payload, Successor(ram.generation), salt);
    RecoveredIsClean(p, f);
    TakenIsKept(p, f);
    SlotOpsCut(p, f, target, image, t);
    if LoadSlot(p, t.Read(target)) == LoadSlot(p, image) {
      KeptStaysOlder(p, f, t, ram.active, ram.generation);
      NewSlotRecovered(p, t, ram, salt);
    } else {
      SameSlotTaken(p, f, t);
    }
  }

  lemma RepairCutInJournal(p: Platform, f: Flash, salt: Bytes16, t: Flash)
    requires FlashShaped(p, f) && SelectSlot(p, f).Some? && UnusedIsZero(LoadedPayload(p, f))
    requires var ram := BootRam(p, f).ram;
      var g, target := Successor(ram.generation), SlotRegion(TargetSlot(ram.active));
      && ram.generation < 0xffff_ffff
      && PowerCut(p, f.With(target, PrepareImage(p, ram.payload, g, salt)),
                  JournalOps(g, ImageCrc(p, ram.payload, salt)), t)
    ensures FlashShaped(p, t) && Recover(p, t) == Recover(p, f)
  {
    hide LoadSlot, Sanitize, PrepareImage, PowerCut, JournalOps, BootRam, UnusedIsZero, SelectSlot, LoadedPayload,
      EntryBlank, EntryCells, KeptIsOlder, ImageCrc, Chooses, Base;
    var ram := BootRam(p, f).ram;
    var g, target := Successor(ram.generation), SlotRegion(TargetSlot(ram.active));
    var f1 := f.With(target, PrepareImage(p, ram.payload, g, salt));
    RecoveredIsClean(p, f);
    TakenIsKept(p, f);
    JournalOpsCut(p, f1, g, ImageCrc(p, ram.payload, salt), t);
    KeptStaysOlder(p, f, f1, ram.active, ram.generation);
    KeptStaysOlder(p, f, t, ram.active, ram.generation);
    NewSlotWins(p, f1, ram, salt);
    ChosenSlot(p, f1, TargetSlot(ram.active), g);
    NewSlotRecovered(p, t, ram, salt);
  }

  /** Power lost anywhere inside the repair: the next boot recovers the same content, repaired again or already
      stored. */
  lemma RepairIsCrashSafe(p: Platform, f: Flash, salt: Bytes16, t: Flash)
    requires FlashShaped(p, f) && SelectSlot(p, f).Some? && UnusedIsZero(LoadedPayload(p, f))
    requires BootRam(p, f).ram.generation < 0xffff_ffff && JournalNotAhead(f, BootRam(p, f).ram.generation)
    requires PowerCut(p, f, CommitOps(p, BootRam(p, f).ram, salt), t)
    ensures FlashShaped(p, t) && Recover(p, t) == Recover(p, f)
  {
    hide LoadSlot, Clean, PrepareImage, PowerCut, SlotOps, JournalOps, BootRam, UnusedIsZero, SelectSlot, LoadedPayload,
      ImageCrc, Recover, EntryBlank, EntryCells, ApplyAll;
    var ram := BootRam(p, f).ram;
    var g, target := Successor(ram.generation), SlotRegion(TargetSlot(ram.active));
    var image := PrepareImage(p, ram.payload, g, salt);
    PowerCutOfConcat(p, f, SlotOps(p, target, image), JournalOps(g, ImageCrc(p, ram.payload, salt)), t);
    SlotOpsWrite(p, f, target, image);
    if PowerCut(p, f, SlotOps(p, target, image), t) {
      RepairCutInSlot(p, f, salt, t);
    } else {
      RepairCutInJournal(p, f, salt, t);
    }
  }
}
