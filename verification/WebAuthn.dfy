/** The authenticator's command handlers as the firmware runs them, over the store object; each is proved to take
    exactly the step that Assertions.dfy describes. */
module WebAuthn {
  import opened Bits
  import opened NorFlash
  import opened StoreFormat
  import opened StoreSpec
  import opened SecretWrapping
  import opened TimedGrants
  import opened Assertions
  import Store = CredentialStore

  /** What respond_with_assertion does to the store, and its answer, whatever is remembered. */
  datatype Responded = Responded(device: Device, status: byte, answered: Option<(nat, u32)>)

  function RespondOutcome(b: Board, d: Device, slot: nat, env: Env): (r: Responded)
    requires Sane(b.p, d)
  {
    hide SlotShaped, RecordOfSlot, SlotValid, Exec;
    var step := Carry(b, d, Respond(b, d.ram.payload, slot, env, CLEARED, CLEARED, false));
    Responded(step.state.device, step.reply.status, step.reply.answered)
  }

  /** What is remembered depends on the answer alone. */
  lemma RespondRemembers(b: Board, d: Device, slot: nat, env: Env, done: Volatile, failed: Volatile, confirmed: bool)
    requires Sane(b.p, d)
    ensures var plan := Respond(b, d.ram.payload, slot, env, done, failed, confirmed);
      var r := RespondOutcome(b, d, slot, env);
      && (plan.Ask? ==> OpShaped(plan.op))
      && Carry(b, d, plan)
           == Step(State(r.device, if r.status == OK then done else failed), Reply(r.status, r.answered, confirmed))
  {
    hide SlotShaped, RecordOfSlot, SlotValid, Exec;
  }

  class Authenticator {
    const b: Board
    const store: Store.CredentialStore

    var pendingActive: bool
    var pendingRequest: Request
    var pendingSlots: seq<nat>
    var pendingNext: nat
    var pendingLastUsedMs: nat
    var recentActive: bool
    var recentKey: Key
    var recentGrantedMs: nat

    ghost predicate Valid()
      reads this, store
    {
      store.Valid() && store.loaded && store.p == b.p && store.se == b.se && store.Sound()
    }

    ghost function Remembered(): Volatile
      reads this
    {
      Volatile(if pendingActive then Pending(pendingRequest, pendingSlots, pendingNext, pendingLastUsedMs)
               else NoPending,
               if recentActive then Some(Held(recentKey, recentGrantedMs)) else None)
    }

    ghost function ToState(): State
      reads this, store
    {
      State(store.ToDevice(), Remembered())
    }

    /** After power-up: the store is loaded, nothing is remembered. */
    constructor (b: Board, store: Store.CredentialStore)
      requires store.Valid() && store.loaded && store.p == b.p && store.se == b.se && store.Sound()
      ensures Valid() && this.b == b && this.store == store && ToState() == State(store.ToDevice(), CLEARED)
    {
      this.b, this.store := b, store;
      pendingActive, pendingRequest, pendingSlots, pendingNext, pendingLastUsedMs :=
        false, Request([], None, []), [], 0, 0;
      recentActive, recentKey, recentGrantedMs := false, [], 0;
    }

    method ClearPending()
      modifies this
      ensures Remembered() == old(Remembered()).(pending := NoPending)
    {
      pendingActive, pendingRequest, pendingSlots, pendingNext, pendingLastUsedMs :=
        false, Request([], None, []), [], 0, 0;
    }

    method ClearRecent()
      modifies this
      ensures Remembered() == old(Remembered()).(recent := None)
    {
      recentActive, recentKey, recentGrantedMs := false, [], 0;
    }

    /** consume_recent_assertion_up_if_matching */
    method ConsumeRecent(key: Key, now: nat) returns (reused: bool)
      modifies this
      ensures var current := Next(old(Remembered()).recent, UP_REUSE_WINDOW_MS, Checked(now));
        && reused == (current.Some? && current.value.grant == key)
        && Remembered() == old(Remembered()).(recent := if reused then None else current)
    {
      if !recentActive {
        return false;
      }
      if now - recentGrantedMs > UP_REUSE_WINDOW_MS {
        ClearRecent();
        return false;
      }
      if recentKey != key {
        return false;
      }
      ClearRecent();
      reused := true;
    }

    /** Presence for one getAssertion: a reuse, or the wait for the user. */
    method AskUser(key: Key, env: Env) returns (presence: Presence)
      modifies this
      ensures (presence, Remembered().recent) == Present(old(Remembered()).recent, key, env)
      ensures Remembered().pending == old(Remembered()).pending
    {
      var reused := ConsumeRecent(key, env.startMs);
      if reused {
        return Reused;
      }
      presence := if env.presence == OK then Confirmed else Denied(env.presence);
    }

    method Arm(key: Key, now: nat)
      modifies this
      ensures Remembered() == old(Remembered()).(recent := Some(Held(key, now)))
    {
      recentActive, recentKey, recentGrantedMs := true, key, now;
    }

    /** collect_matching_slots */
    method CollectMatchingSlots(rpId: seq<byte>) returns (r: seq<nat>)
      requires Valid()
      ensures r == Matching(b.se, store.store.slots, rpId, 0, PENDING_MAX)
    {
      hide Matches, SlotShaped;
      r := [];
      var index := 0;
      while index < b.p.maxCredentials && |r| < PENDING_MAX
        invariant index <= b.p.maxCredentials && |r| <= PENDING_MAX
        invariant Matching(b.se, store.store.slots, rpId, 0, PENDING_MAX)
               == r + Matching(b.se, store.store.slots, rpId, index, PENDING_MAX - |r|)
      {
        ghost var rest := Matching(b.se, store.store.slots, rpId, index + 1, PENDING_MAX - |r| - 1);
        if Matches(b.se, store.store.slots[index], rpId) {
          assert r + ([index] + rest) == (r + [index]) + rest;
          r := r + [index];
        }
        index := index + 1;
      }
    }

    /** meowkey_store_find_by_credential_id, as getAssertion uses it */
    method FindCredential(id: seq<byte>, env: Env) returns (slot: nat)
      requires Valid()
      modifies store
      ensures Valid() && store.ToDevice() == old(store.ToDevice()) && slot == FindId(store.store.slots, id, 0)
    {
      hide SlotShaped, SlotValid, HoldsId, Store.CredentialStore.Sound;
      var found, index, _ := store.FindByCredentialId(id, env.e);
      slot := if found then index else b.p.maxCredentials;
      LowestHoldsId(store.store.slots, id, 0, slot);
    }

    /** respond_with_assertion: the counter is stored before anything is answered. */
    method RespondWithAssertion(slot: nat, env: Env) returns (status: byte, answered: Option<(nat, u32)>)
      requires Valid()
      modifies store
      ensures Valid() && Responded(store.ToDevice(), status, answered)
        == RespondOutcome(b, old(store.ToDevice()), slot, env)
    {
      hide SlotShaped, SlotValid, Exec, RecordOfSlot, Store.CredentialStore.Sound;
      answered := None;
      if slot >= b.p.maxCredentials || !SlotValid(store.store.slots[slot]) {
        return INVALID_CREDENTIAL, None;
      }
      ValidHasId(store.store.slots[slot]);
      var record := RecordOfSlot(b.se, store.store.slots[slot]);
      var count := Successor(record.signCount);
      if env.crypto != OK {
        return env.crypto, None;
      }
      if record.privateKeyLength == 0 {
        return INVALID_CREDENTIAL, None;
      }
      var updated := store.UpdateSignCount(slot, count, env.e, env.e);
      if !updated {
        return INVALID_CREDENTIAL, None;
      }
      status := env.built;
      answered := if status == OK then Some((slot, count)) else None;
    }

    /** meowkey_webauthn_make_credential */
    method MakeCredential(parseStatus: byte, generated: byte, record: Record, env: Env) returns (reply: Reply)
      requires Valid() && RecordShaped(record)
      modifies this, store
      ensures Valid()
      ensures Step(ToState(), reply)
        == Do(b, old(ToState()), Command.MakeCredential(parseStatus, generated, record, env))
    {
      hide SlotShaped, SlotValid, Exec, SlotOfRecord, Store.CredentialStore.Sound;
      PlanShaped(b, ToState(), Command.MakeCredential(parseStatus, generated, record, env));
      if parseStatus != OK {
        return Reply(parseStatus, None, false);
      }
      ClearPending();
      ClearRecent();
      if env.presence != OK {
        return Reply(env.presence, None, false);
      }
      if generated != OK {
        return Reply(generated, None, true);
      }
      var added, _ := store.AddCredential(record, env.e, env.e);
      if !added {
        return Reply(KEY_STORE_FULL, None, true);
      }
      reply := Reply(env.built, None, true);
    }

    /** Presence, assertion and arming, for either kind of getAssertion. */
    method AssertWithPresence(key: Key, slot: nat, env: Env) returns (reply: Reply)
      requires Valid() && !pendingActive
      modifies this, store
      ensures Valid()
      ensures var step := AssertStep(b, old(store.ToDevice()), old(Remembered()).recent, key, slot, env, NoPending);
        Step(ToState(), reply) == step
    {
      hide SlotShaped, SlotValid, Exec, Respond, RespondOutcome, Store.CredentialStore.Sound;
      ghost var device, recent := store.ToDevice(), Remembered().recent;
      var presence := AskUser(key, env);
      if presence.Denied? {
        return Reply(presence.status, None, false);
      }
      ghost var left := Remembered().recent;
      RespondRemembers(b, device, slot, env, Volatile(NoPending, None), Volatile(NoPending, None), false);
      RespondRemembers(b, device, slot, env, Volatile(NoPending, Some(Held(key, env.laterMs))),
                       Volatile(NoPending, left), true);
      var status, answered := RespondWithAssertion(slot, env);
      if status == OK && presence.Confirmed? {
        Arm(key, env.laterMs);
      }
      reply := Reply(status, answered, presence.Confirmed?);
    }

    /** meowkey_webauthn_get_assertion */
    method GetAssertion(parsed: Parsed, env: Env) returns (reply: Reply)
      requires Valid()
      modifies this, store
      ensures Valid()
      ensures Step(ToState(), reply) == Do(b, old(ToState()), Command.GetAssertion(parsed, env))
    {
      hide SlotShaped, SlotValid, Exec, AssertOne, Carry, Matching, FindId, RecordOfSlot, Store.CredentialStore.Sound;
      ghost var device, before := store.ToDevice(), Remembered();
      PlanShaped(b, ToState(), Command.GetAssertion(parsed, env));
      SayingCarries(b, device, before.(pending := NoPending));
      ClearPending();
      if parsed.Rejected? {
        return Reply(parsed.status, None, false);
      }
      var request := parsed.request;
      var key := b.matchKey(request);
      if key.None? {
        return Reply(INVALID_CBOR, None, false);
      }
      if request.allow.Some? {
        var slot := FindCredential(request.allow.value, env);
        if slot == b.p.maxCredentials || !IsRp(RecordOfHeld(b, store.store, slot), request.rpId) {
          return Reply(INVALID_CREDENTIAL, None, false);
        }
        reply := AssertWithPresence(key.value, slot, env);
        return;
      }
      var matching := CollectMatchingSlots(request.rpId);
      if matching == [] {
        return Reply(NO_CREDENTIALS, None, false);
      }
      ghost var later := if |matching| > 1 then Pending(request, matching, 1, env.laterMs) else NoPending;
      PendingIsSetLast(b, device, before.recent, key.value, matching[0], env, later);
      reply := AssertWithPresence(key.value, matching[0], env);
      if reply.status == OK && reply.answered.Some? && |matching| > 1 {
        pendingActive, pendingRequest, pendingSlots, pendingNext, pendingLastUsedMs :=
          true, request, matching, 1, env.laterMs;
      }
    }

    /** meowkey_webauthn_get_next_assertion */
    method GetNextAssertion(empty: bool, env: Env) returns (reply: Reply)
      requires Valid()
      modifies this, store
      ensures Valid()
      ensures Step(ToState(), reply) == Do(b, old(ToState()), GetNext(empty, env))
    {
      hide SlotShaped, SlotValid, Exec, Respond, RespondOutcome, Store.CredentialStore.Sound;
      ghost var device, v := store.ToDevice(), Remembered();
      PlanShaped(b, ToState(), GetNext(empty, env));
      if !empty {
        return Reply(INVALID_CBOR, None, false);
      }
      if !pendingActive || env.startMs - pendingLastUsedMs > PENDING_TIMEOUT_MS || pendingNext >= |pendingSlots| {
        ClearPending();
        return Reply(NOT_ALLOWED, None, false);
      }
      ghost var advanced := if pendingNext + 1 >= |pendingSlots| then NoPending
                            else v.pending.(next := pendingNext + 1, lastUsedMs := env.laterMs);
      RespondRemembers(b, device, pendingSlots[pendingNext], env, v.(pending := advanced), v.(pending := NoPending),
                       false);
      var status, answered := RespondWithAssertion(pendingSlots[pendingNext], env);
      if status != OK {
        ClearPending();
        return Reply(status, answered, false);
      }
      pendingNext := pendingNext + 1;
      pendingLastUsedMs := env.laterMs;
      if pendingNext >= |pendingSlots| {
        ClearPending();
      }
      reply := Reply(status, answered, false);
    }
  }

  lemma {:induction false} LowestHoldsId(slots: seq<Slot>, id: seq<byte>, from: nat, slot: nat)
    requires forall i :: 0 <= i < |slots| ==> SlotShaped(slots[i])
    requires from <= slot <= |slots| && (slot < |slots| ==> HoldsId(slots[slot], id))
    requires forall i :: from <= i < slot ==> !HoldsId(slots[i], id)
    ensures FindId(slots, id, from) == slot
    decreases slot - from
  {
    if from < slot {
      LowestHoldsId(slots, id, from + 1, slot);
    }
  }

  /** One getAssertion from the question to the user on. */
  function AssertStep(b: Board, d: Device, recent: Option<Held<Key>>, key: Key, slot: nat, env: Env,
                      pending: Pending): Step
    requires Sane(b.p, d)
  {
    AssertShaped(b, d, recent, key, slot, env, pending);
    Carry(b, d, AssertOne(b, d.ram.payload, recent, key, slot, env, pending))
  }

  lemma AssertShaped(b: Board, d: Device, recent: Option<Held<Key>>, key: Key, slot: nat, env: Env, pending: Pending)
    requires Sane(b.p, d)
    ensures var plan := AssertOne(b, d.ram.payload, recent, key, slot, env, pending); plan.Ask? ==> OpShaped(plan.op)
  {
    hide SlotShaped, RecordOfSlot, SlotValid;
  }

  lemma ValidHasId(s: Slot)
    requires SlotValid(s)
    ensures s.credentialIdLength <= 32
  {
  }

  lemma SayingCarries(b: Board, d: Device, v: Volatile)
    requires Sane(b.p, d)
    ensures forall reply :: Carry(b, d, Say(v, reply)) == Step(State(d, v), reply)
  {
  }

  /** Remembering the other slots only after the assertion has been answered comes to the same. */
  lemma PendingIsSetLast(b: Board, d: Device, recent: Option<Held<Key>>, key: Key, slot: nat, env: Env,
                         pending: Pending)
    requires Sane(b.p, d)
    ensures var first := AssertStep(b, d, recent, key, slot, env, NoPending);
      first.state.volatile.pending == NoPending
      && AssertStep(b, d, recent, key, slot, env, pending)
           == if first.reply.status == OK && first.reply.answered.Some?
              then first.(state := first.state.(volatile := first.state.volatile.(pending := pending))) else first
  {
    hide Respond, RespondOutcome, SlotShaped, Carry;
    var (presence, left) := Present(recent, key, env);
    if presence.Denied? {
      SayingCarries(b, d, Volatile(NoPending, left));
    } else if presence.Reused? {
      RespondRemembers(b, d, slot, env, Volatile(NoPending, None), Volatile(NoPending, None), false);
      RespondRemembers(b, d, slot, env, Volatile(pending, None), Volatile(NoPending, None), false);
    } else {
      var armed := Some(Held(key, env.laterMs));
      RespondRemembers(b, d, slot, env, Volatile(NoPending, armed), Volatile(NoPending, left), true);
      RespondRemembers(b, d, slot, env, Volatile(pending, armed), Volatile(NoPending, left), true);
    }
    AnsweredIffOk(b, d, slot, env);
  }

  lemma AnsweredIffOk(b: Board, d: Device, slot: nat, env: Env)
    requires Sane(b.p, d)
    ensures var r := RespondOutcome(b, d, slot, env); r.status == OK <==> r.answered.Some?
  {
    hide SlotShaped, RecordOfSlot, SlotValid, Exec;
  }
}
