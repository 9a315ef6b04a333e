/** The PIN protocol on the store: every call, and everything else that happens to the store, whether it succeeds,
    fails or is cut, is a step of ClientPin.dfy, so what is proved there holds of what is really in flash. */
module PinStorage {
  import opened Bits
  import opened NorFlash
  import opened StoreFormat
  import opened StoreSpec
  import opened CrashSafety
  import opened JournalSafety
  import opened StoreOperations
  import opened StoreRuns
  import opened TimedGrants
  import Pin = ClientPin

  /** meowkey_store_get_pin_state */
  function PinOf(q: Payload): Pin.PinState
    requires |q.pinHash| == 16
  {
    Pin.PinState(q.pinConfigured != 0, q.pinRetries, q.pinHash)
  }

  function Writing(s: Pin.PinState): StoreOp {
    SetPin(s.configured, s.retries, s.hash)
  }

  /** The authenticator: its store, and the runtime token. */
  datatype Keeper = Keeper(store: Device, token: Option<Held<Bytes32>>)

  /** What ClientPin.dfy knows of it. */
  function PinsOf(p: Platform, u: Keeper): Pin.Pins
    requires Sane(p, u.store)
  {
    Pin.Pins(PinOf(u.store.ram.payload), PinOf(Recover(p, u.store.flash)), u.token)
  }

  // ---- What a call writes ----

  predicate IsRequest(call: Pin.Call) {
    call.Setting? || call.Changing? || call.Getting? || call.Verifying?
  }

  /** The call as it runs when the store answers its write with `ok`. */
  predicate AnsweredBy(call: Pin.Call, ok: bool) {
    match call
    case Setting(_, committed) => committed == ok
    case Changing(_, spent, committed) => spent == committed == ok
    case Getting(_, committed, _, _) => committed == ok
    case _ => true
  }

  /** The PIN state a call writes, if it writes one: it never writes twice. */
  function Written(c: Pin.Crypto, s: Pin.Pins, call: Pin.Call): Option<Pin.PinState> {
    match call
    case Setting(r, _) =>
      var a := Pin.SetPin(c, s, r, true);
      if a.status == Pin.OK then Some(a.pins.live) else None
    case Changing(r, _, _) =>
      var a := Pin.ChangePin(c, s, r, true, true);
      if a.status == Pin.OK || Pin.WrongPin(c, s, r, true) then Some(a.pins.live) else None
    case Getting(r, _, drawn, now) =>
      if Pin.RightPin(c, s, r, false) || Pin.WrongPin(c, s, r, false)
      then Some(Pin.GetPinToken(c, s, r, true, drawn, now).pins.live) else None
    case _ => None
  }

  /** A call is its write: nothing else about it reaches the PIN state, in RAM or stored. */
  lemma CallWrites(c: Pin.Crypto, s: Pin.Pins, call: Pin.Call, ok: bool)
    requires IsRequest(call) && AnsweredBy(call, ok)
    ensures var after, w := Pin.Do(c, s, call).pins, Written(c, s, call);
      && (w.Some? ==> after == Pin.SetState(s, w.value, ok).(token := after.token) && w.value.configured)
      && (w.None? ==> after == s.(token := after.token))
  {
    hide Pin.Authentic, Pin.PinLength;
  }

  // ---- Everything that happens ----

  datatype Action =
    | Asked(call: Pin.Call, e: Entropy)
    | CutAsked(call: Pin.Call, e: Entropy, t: Flash, boot: Entropy)
    | Elsewhere(event: Event)

  /** One action: a call whose write succeeds or fails with the store, a call cut inside its write, or any other
      operation, cut or reboot of the store. */
  predicate Acts(p: Platform, c: Pin.Crypto, u: Keeper, a: Action, u': Keeper) {
    && Sane(p, u.store)
    && match a
       case Asked(call, e) =>
         && IsRequest(call) && AnsweredBy(call, e.wrapOk)
         && u'.token == Pin.Do(c, PinsOf(p, u), call).pins.token
         && (match Written(c, PinsOf(p, u), call)
             case None => u'.store == u.store
             case Some(next) => Step(p, u.store, Completed(Writing(next), e), u'.store))
       case CutAsked(call, e, t, boot) =>
         && IsRequest(call) && AnsweredBy(call, e.wrapOk) && u'.token == None
         && (match Written(c, PinsOf(p, u), call)
             case None => Step(p, u.store, Reboot(boot), u'.store)
             case Some(next) => Step(p, u.store, CutInside(Writing(next), e, t, boot), u'.store))
       case Elsewhere(event) =>
         && (!event.Reboot? ==> !event.op.SetPin?)
         && Step(p, u.store, event, u'.store)
         && u'.token == if event.Completed? then u.token else None
  }

  /** A call that looks at nothing. */
  const NOTHING := Pin.Verifying([], 0, None, 0)

  lemma NothingChanges(c: Pin.Crypto, s: Pin.Pins)
    ensures Pin.Do(c, s, NOTHING).pins == s
  {
  }

  lemma CleanPinBoots(p: Platform, q: Payload)
    requires Clean(p, q)
    ensures Pin.Booted(PinOf(q)) == PinOf(q)
  {
    CleanIff(p, q);
  }

  lemma OtherEffectsKeepPin(p: Platform, q: Payload, op: StoreOp)
    requires Shaped(p, q) && Admissible(q, op) && !op.SetPin?
    ensures |Effect(p, q, op).pinHash| == 16 && |Rollback(p, q, op).pinHash| == 16
    ensures PinOf(Effect(p, q, op)) == PinOf(Rollback(p, q, op)) == PinOf(q)
  {
  }

  lemma PinWritten(p: Platform, q: Payload, next: Pin.PinState)
    requires Shaped(p, q)
    ensures Effect(p, q, Writing(next)) == Rollback(p, q, Writing(next))
    ensures PinOf(Effect(p, q, Writing(next))) == next
  {
  }

  lemma WriteSucceedsIff(p: Platform, d: Device, next: Pin.PinState, e: Entropy)
    requires Sane(p, d)
    ensures Exec(p, d, Writing(next), e).ok == e.wrapOk
  {
    hide CommitOps, ApplyAll, SlotShaped;
  }

  lemma StepIsSound(p: Platform, d: Device, event: Event, d': Device)
    requires Sound(p, d) && Step(p, d, event, d')
    ensures Sound(p, d') && Sane(p, d') && ContentStep(p, d, event, d')
    ensures Clean(p, Recover(p, d.flash)) && Clean(p, Recover(p, d'.flash))
  {
    hide Step, ContentStep, Holds, BootRam;
    StepRefines(p, d, event, d');
    HoldsRecovers(p, d, Recover(p, d.flash), Stale(p, d));
    HoldsRecovers(p, d', Recover(p, d'.flash), Stale(p, d'));
  }

  lemma AskedIsCall(p: Platform, c: Pin.Crypto, u: Keeper, a: Action, u': Keeper)
    requires Sound(p, u.store) && Acts(p, c, u, a, u') && a.Asked?
    ensures Sound(p, u'.store) && Sane(p, u'.store)
    ensures PinsOf(p, u') == Pin.Do(c, PinsOf(p, u), a.call).pins
  {
    hide Sound, Exec, Recover, Written, Pin.Do, Effect, SlotShaped;
    var w := Written(c, PinsOf(p, u), a.call);
    CallWrites(c, PinsOf(p, u), a.call, a.e.wrapOk);
    if w.Some? {
      StepIsSound(p, u.store, Completed(Writing(w.value), a.e), u'.store);
      PinWritten(p, u.store.ram.payload, w.value);
      WriteSucceedsIff(p, u.store, w.value, a.e);
    }
  }

  lemma CutAskedIsCall(p: Platform, c: Pin.Crypto, u: Keeper, a: Action, u': Keeper) returns (call: Pin.Call)
    requires Sound(p, u.store) && Acts(p, c, u, a, u') && a.CutAsked?
    ensures Sound(p, u'.store) && Sane(p, u'.store)
    ensures PinsOf(p, u') == Pin.Do(c, PinsOf(p, u), call).pins
  {
    hide Sound, Exec, ExecOps, PowerCut, Recover, Written, Pin.VerifyHash, Pin.Unlock, Pin.SetPin, Effect, SlotShaped,
      Clean, Boot;
    var s, w := Recover(p, u.store.flash), Written(c, PinsOf(p, u), a.call);
    CallWrites(c, PinsOf(p, u), a.call, a.e.wrapOk);
    var event := if w.Some? then CutInside(Writing(w.value), a.e, a.t, a.boot) else Reboot(a.boot);
    StepIsSound(p, u.store, event, u'.store);
    CleanPinBoots(p, s);
    call := Pin.Reboot;
    if w.Some? && Recover(p, u'.store.flash) != s {
      PinWritten(p, u.store.ram.payload, w.value);
      CleanPinBoots(p, Recover(p, u'.store.flash));
      call := Pin.CutInside(a.call, true);
    }
  }

  lemma ElsewhereIsCall(p: Platform, c: Pin.Crypto, u: Keeper, a: Action, u': Keeper) returns (call: Pin.Call)
    requires Sound(p, u.store) && Acts(p, c, u, a, u') && a.Elsewhere?
    ensures Sound(p, u'.store) && Sane(p, u'.store)
    ensures PinsOf(p, u') == Pin.Do(c, PinsOf(p, u), call).pins
  {
    hide Sound, Exec, ExecOps, PowerCut, Recover, Pin.VerifyHash, Pin.Unlock, Pin.SetPin, Effect, Rollback,
      SlotShaped, Clean, Boot, Stale;
    var q, s, event := u.store.ram.payload, Recover(p, u.store.flash), a.event;
    StepIsSound(p, u.store, event, u'.store);
    CleanPinBoots(p, s);
    SameSlotCount(p, u.store);
    if !event.Reboot? && Admissible(q, event.op) {
      OtherEffectsKeepPin(p, q, event.op);
    }
    call := Pin.Reboot;
    if event.Completed? {
      NothingChanges(c, PinsOf(p, u));
      var commits := Exec(p, u.store, event.op, event.e).ok && (!event.op.UpdateCount? || Folds(u.store));
      call := if commits then Pin.OtherCommit else NOTHING;
    } else if event.CutInside? && Recover(p, u'.store.flash) != s && (!event.op.UpdateCount? || Folds(u.store)) {
      CleanPinBoots(p, Recover(p, u'.store.flash));
      call := Pin.CutInside(Pin.OtherCommit, true);
    }
  }

  /** Every action is a call of ClientPin.dfy, on what RAM holds and on what a reboot would recover. */
  lemma ActionIsCall(p: Platform, c: Pin.Crypto, u: Keeper, a: Action, u': Keeper) returns (call: Pin.Call)
    requires Sound(p, u.store) && Acts(p, c, u, a, u')
    ensures Sound(p, u'.store) && Sane(p, u'.store)
    ensures PinsOf(p, u') == Pin.Do(c, PinsOf(p, u), call).pins && (a.Asked? ==> call == a.call)
  {
    hide Sound, Acts, Pin.Do, PinsOf;
    match a {
      case Asked(asked, _) =>
        AskedIsCall(p, c, u, a, u');
        call := asked;
      case CutAsked(_, _, _, _) => call := CutAskedIsCall(p, c, u, a, u');
      case Elsewhere(_) => call := ElsewhereIsCall(p, c, u, a, u');
    }
  }

  // ---- Runs ----

  predicate IsPinRun(p: Platform, c: Pin.Crypto, us: seq<Keeper>, actions: seq<Action>) {
    && |us| == |actions| + 1
    && Sound(p, us[0].store)
    && forall i :: 0 <= i < |actions| ==> Acts(p, c, us[i], actions[i], us[i + 1])
  }

  /** Over every run on the store, the PIN state in RAM and the one a reboot recovers are those of a run of
      ClientPin.dfy, call for call. */
  lemma {:induction false} RunIsPinRun(p: Platform, c: Pin.Crypto, us: seq<Keeper>, actions: seq<Action>, n: nat)
    returns (calls: seq<Pin.Call>)
    requires IsPinRun(p, c, us, actions) && n <= |actions|
    ensures Sound(p, us[n].store) && Sane(p, us[n].store) && Sane(p, us[0].store) && |calls| == n
    ensures PinsOf(p, us[n]) == Pin.DoAll(c, PinsOf(p, us[0]), calls)
    ensures forall i :: 0 <= i < n && actions[i].Asked? ==> calls[i] == actions[i].call
    decreases n
  {
    hide Sound, Acts, Pin.Do, PinsOf;
    SoundIsSane(p, us[0].store);
    calls := [];
    if n > 0 {
      var before := RunIsPinRun(p, c, us, actions, n - 1);
      var call := ActionIsCall(p, c, us[n - 1], actions[n - 1], us[n]);
      calls := before + [call];
      assert calls[..n - 1] == before;
    }
  }

  /** Every call for the PIN is answered with PIN_BLOCKED. */
  ghost predicate Blocks(p: Platform, c: Pin.Crypto, u: Keeper) {
    Sane(p, u.store) && forall call :: Pin.AsksForPin(call) ==> Pin.Do(c, PinsOf(p, u), call).status == Pin.PIN_BLOCKED
  }

  ghost predicate BlocksForever(p: Platform, c: Pin.Crypto, u: Keeper) {
    forall us, actions :: IsPinRun(p, c, us, actions) && us[0] == u ==> Blocks(p, c, us[|actions|])
  }

  /** A device whose PIN is blocked in RAM blocks it in every continuation of its store exactly if the flash holds
      the exhausted counter. */
  lemma BlockedOnStoreIff(p: Platform, c: Pin.Crypto, u: Keeper)
    requires Sound(p, u.store) && Sane(p, u.store) && u.store.ram.generation < 0xffff_ffff
    requires Pin.Exhausted(PinsOf(p, u).live)
    ensures BlocksForever(p, c, u) <==> Pin.Exhausted(PinsOf(p, u).stored)
  {
    hide Sound, Acts, Pin.Do, PinsOf, Blocks;
    if Pin.Exhausted(PinsOf(p, u).stored) {
      forall us, actions | IsPinRun(p, c, us, actions) && us[0] == u
        ensures Blocks(p, c, us[|actions|])
      {
        ExhaustedBlocks(p, c, us, actions);
      }
    } else {
      RebootUnblocks(p, c, u);
    }
  }

  lemma ExhaustedBlocks(p: Platform, c: Pin.Crypto, us: seq<Keeper>, actions: seq<Action>)
    requires IsPinRun(p, c, us, actions) && Sane(p, us[0].store)
    requires Pin.Exhausted(PinsOf(p, us[0]).live) && Pin.Exhausted(PinsOf(p, us[0]).stored)
    ensures Blocks(p, c, us[|actions|])
  {
    hide Sound, Acts, Pin.Do, PinsOf, Sane;
    var calls := RunIsPinRun(p, c, us, actions, |actions|);
    Pin.ExhaustedStays(c, PinsOf(p, us[0]), calls);
    forall call | Pin.AsksForPin(call)
      ensures Pin.Do(c, PinsOf(p, us[|actions|]), call).status == Pin.PIN_BLOCKED
    {
      Pin.DoKeepsExhausted(c, PinsOf(p, us[|actions|]), call);
    }
  }

  const ANY_ENTROPY := Entropy(Zeros(16), true)

  lemma RebootUnblocks(p: Platform, c: Pin.Crypto, u: Keeper)
    requires Sound(p, u.store) && Sane(p, u.store) && u.store.ram.generation < 0xffff_ffff
    requires !Pin.Exhausted(PinsOf(p, u).stored)
    ensures !BlocksForever(p, c, u)
  {
    hide Sound, Boot, Recover;
    var event := Reboot(ANY_ENTROPY);
    var u' := Keeper(Boot(p, u.store.flash, ANY_ENTROPY), None);
    var us, actions := [u, u'], [Elsewhere(event)];
    assert Acts(p, c, u, actions[0], u');
    assert IsPinRun(p, c, us, actions);
    StepIsSound(p, u.store, event, u'.store);
    var call := Pin.Getting(Pin.Request(None, None, None, None), true, Zeros(32), 0);
    assert PinsOf(p, u').live == PinsOf(p, u).stored;
    assert Pin.AsksForPin(call) && Pin.Do(c, PinsOf(p, u'), call).status != Pin.PIN_BLOCKED;
    assert us[|actions|] == u';
  }

  /** The gap is real: the last wrong PIN with a failing write blocks the PIN in RAM and leaves the retry stored. */
  lemma LastRetryNotStored(p: Platform, c: Pin.Crypto, u: Keeper, call: Pin.Call, e: Entropy, u': Keeper)
    requires Sound(p, u.store) && Acts(p, c, u, Asked(call, e), u') && !e.wrapOk && call.Getting?
    requires PinsOf(p, u).live.retries == 1 && !Pin.Exhausted(PinsOf(p, u).stored)
    requires Pin.WrongPin(c, PinsOf(p, u), call.r, false)
    ensures Sane(p, u'.store) && Pin.Do(c, PinsOf(p, u), call).status == Pin.PIN_BLOCKED
    ensures Pin.Exhausted(PinsOf(p, u').live) && !BlocksForever(p, c, u')
  {
    hide Sound, Exec, Recover, Written, Acts, PinsOf, Pin.Do, BlocksForever;
    SoundIsSane(p, u.store);
    GenerationStays(p, c, u, call, e, u');
    AskedIsCall(p, c, u, Asked(call, e), u');
    LastRetry(c, PinsOf(p, u), call);
    BlockedOnStoreIff(p, c, u');
  }

  lemma LastRetry(c: Pin.Crypto, s: Pin.Pins, call: Pin.Call)
    requires call.Getting? && !call.committed && s.live.retries == 1 && Pin.WrongPin(c, s, call.r, false)
    ensures var a := Pin.Do(c, s, call);
      a.status == Pin.PIN_BLOCKED && Pin.Exhausted(a.pins.live) && a.pins.stored == s.stored
  {
    hide Pin.Authentic;
  }

  lemma GenerationStays(p: Platform, c: Pin.Crypto, u: Keeper, call: Pin.Call, e: Entropy, u': Keeper)
    requires Acts(p, c, u, Asked(call, e), u') && !e.wrapOk && call.Getting?
    requires Pin.WrongPin(c, PinsOf(p, u), call.r, false)
    ensures AnsweredBy(call, false) && u'.store.ram.generation < 0xffff_ffff
  {
    hide CommitOps, ApplyAll, SlotShaped, Recover, Pin.WrongPin, Pin.RightPin;
  }
}
