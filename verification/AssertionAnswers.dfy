/** What an answer of makeCredential, getAssertion and getNextAssertion means, in terms of the slot bytes, of the user
    and of the store; and what a refusal leaves. */
module AssertionAnswers {
  import opened Bits
  import opened NorFlash
  import opened StoreFormat
  import opened StoreSpec
  import opened SecretWrapping
  import opened TimedGrants
  import opened Assertions
  import opened BootRepair
  import Runs = AssertionRuns

  /** A credential whose id is exactly `id`. */
  predicate Holds(s: Slot, id: seq<byte>)
    requires SlotShaped(s)
  {
    SlotValid(s) && s.credentialIdLength == |id| && s.credentialId[..s.credentialIdLength] == id
  }

  /** A credential of exactly the relying party `rpId`. */
  predicate Serves(s: Slot, rpId: seq<byte>)
    requires SlotShaped(s)
  {
    SlotValid(s) && s.rpIdLength == |rpId| && s.rpId[..s.rpIdLength] == rpId
  }

  /** The relying party's id is never masked: the record names it as the slot does. */
  lemma RecordServes(se: SecureElement, s: Slot, rpId: seq<byte>)
    requires SlotShaped(s) && SlotValid(s) && RecordOfSlot(se, s).privateKeyLength != 0
    ensures IsRp(RecordOfSlot(se, s), rpId) <==> Serves(s, rpId)
  {
    hide SecretMask, Xored;
  }

  // ---- Answers ----

  /** What an answer carries: the store has just counted this credential up by one, and everything else about the
      command succeeded. */
  predicate Counted(b: Board, d: Device, env: Env, slot: nat, count: u32, d': Device)
    requires Sane(b.p, d)
  {
    && slot < |d.ram.payload.slots| && SlotValid(d.ram.payload.slots[slot])
    && count == (d.ram.payload.slots[slot].signCount + 1) % 0x1_0000_0000
    && env.crypto == OK && env.built == OK
    && Exec(b.p, d, UpdateCount(slot, count), env.e).ok && d' == Exec(b.p, d, UpdateCount(slot, count), env.e).device
    && d'.ram.payload == d.ram.payload.(slots :=
         d.ram.payload.slots[slot := d.ram.payload.slots[slot].(signCount := count)])
  }

  function RecordOfKept(b: Board, slots: seq<Slot>, slot: nat): Record
    requires slot < |slots| && SlotShaped(slots[slot])
  {
    if SlotValid(slots[slot]) then RecordOfSlot(b.se, slots[slot]) else EMPTY_RECORD
  }

  /** Nothing but the user can still refuse an assertion with this slot. */
  predicate Answerable(b: Board, d: Device, env: Env, slot: nat)
    requires Sane(b.p, d)
  {
    && slot < |d.ram.payload.slots| && SlotValid(d.ram.payload.slots[slot])
    && RecordOfSlot(b.se, d.ram.payload.slots[slot]).privateKeyLength != 0
    && env.crypto == OK && env.built == OK
    && Exec(b.p, d, UpdateCount(slot, (d.ram.payload.slots[slot].signCount + 1) % 0x1_0000_0000), env.e).ok
  }

  /** The status once the user has agreed: no credential, no signature, no private key to sign with, a counter that
      could not be stored, or whatever building the response ends with. */
  function StatusOf(b: Board, d: Device, env: Env, slot: nat): byte
    requires Sane(b.p, d)
  {
    if slot >= |d.ram.payload.slots| || !SlotValid(d.ram.payload.slots[slot]) then 0x22
    else if env.crypto != OK then env.crypto
    else if RecordOfSlot(b.se, d.ram.payload.slots[slot]).privateKeyLength == 0 then 0x22
    else
      var count := (d.ram.payload.slots[slot].signCount + 1) % 0x1_0000_0000;
      if Exec(b.p, d, UpdateCount(slot, count), env.e).ok then env.built else 0x22
  }

  /** Answered exactly with status OK, and then counted; without a signature the store is not touched. */
  predicate AnswersOrNot(b: Board, s: State, env: Env, slot: nat, step: Step)
    requires Sane(b.p, s.device)
  {
    && (step.reply.status == OK <==> step.reply.answered.Some?)
    && (step.reply.answered.Some? ==>
         step.reply.answered.value.0 == slot
         && Counted(b, s.device, env, slot, step.reply.answered.value.1, step.state.device))
    && (env.crypto != OK ==> step.state.device == s.device)
  }

  lemma RespondAnswers(b: Board, s: State, slot: nat, env: Env, done: Volatile, failed: Volatile, confirmed: bool)
    requires Sane(b.p, s.device)
    ensures var plan := Respond(b, s.device.ram.payload, slot, env, done, failed, confirmed);
      && (plan.Ask? ==> OpShaped(plan.op))
      && AnswersOrNot(b, s, env, slot, Carry(b, s.device, plan))
      && Carry(b, s.device, plan).reply.status == StatusOf(b, s.device, env, slot)
      && (Carry(b, s.device, plan).reply.answered.Some? <==> Answerable(b, s.device, env, slot))
      && (Carry(b, s.device, plan).reply.answered.Some? ==> Carry(b, s.device, plan).state.volatile == done)
      && (Carry(b, s.device, plan).reply.answered.None? ==> Carry(b, s.device, plan).state.volatile == failed)
  {
    hide Exec, SlotShaped, SecretMask, Xored;
    var q := s.device.ram.payload;
    if slot < |q.slots| && SlotValid(q.slots[slot]) {
      Runs.TransformKeepsCount(b.se, q.slots[slot]);
      var count := Successor(RecordOfSlot(b.se, q.slots[slot]).signCount);
      ExecContent(b.p, s.device, UpdateCount(slot, count), env.e);
    }
  }

  /** The user is behind the command: an earlier confirmation is reused, or this wait ends well. */
  predicate UserAgrees(recent: Option<Held<Key>>, key: Key, env: Env) {
    || (recent.Some? && recent.value.grant == key && env.startMs - recent.value.since <= 1200)
    || env.presence == OK
  }

  lemma AssertOneAnswers(b: Board, s: State, key: Key, slot: nat, env: Env, pending: Pending)
    requires Sane(b.p, s.device)
    ensures var recent := s.volatile.recent;
      var plan := AssertOne(b, s.device.ram.payload, recent, key, slot, env, pending);
      && (plan.Ask? ==> OpShaped(plan.op))
      && var step := Carry(b, s.device, plan);
         && AnswersOrNot(b, s, env, slot, step)
         && (step.reply.answered.Some? <==> UserAgrees(recent, key, env) && Answerable(b, s.device, env, slot))
         && (UserAgrees(recent, key, env) ==> step.reply.status == StatusOf(b, s.device, env, slot))
         && (step.reply.answered.Some? ==> step.state.volatile.pending == pending)
         && (step.reply.answered.None? ==> step.state.volatile.pending == NoPending)
         && (!UserAgrees(recent, key, env) ==>
              step.reply == Reply(env.presence, None, false) && step.state.device == s.device)
  {
    hide Exec, SlotShaped, Respond, Carry, Counted, Answerable, StatusOf;
    var q, recent := s.device.ram.payload, s.volatile.recent;
    var (presence, left) := Present(recent, key, env);
    match presence {
      case Denied(status) => SayingCarries(b, s.device, Volatile(NoPending, left), Reply(status, None, false));
      case Reused => RespondAnswers(b, s, slot, env, Volatile(pending, None), Volatile(NoPending, None), false);
      case Confirmed =>
        RespondAnswers(b, s, slot, env, Volatile(pending, Some(Held(key, env.laterMs))), Volatile(NoPending, left),
                       true);
    }
  }

  lemma SayingCarries(b: Board, d: Device, v: Volatile, reply: Reply)
    requires Sane(b.p, d)
    ensures Carry(b, d, Say(v, reply)) == Step(State(d, v), reply)
  {
  }

  // ---- getAssertion with an allow list ----

  lemma {:induction false} LookedUp(slots: seq<Slot>, id: seq<byte>, from: nat)
    requires from <= |slots| && forall i :: 0 <= i < |slots| ==> SlotShaped(slots[i])
    ensures var r := FindId(slots, id, from);
      && from <= r <= |slots|
      && (r < |slots| ==> Holds(slots[r], id))
      && forall i :: from <= i < r ==> !Holds(slots[i], id)
    decreases |slots| - from
  {
    hide SlotShaped, SlotValid;
    if from < |slots| && !HoldsId(slots[from], id) {
      LookedUp(slots, id, from + 1);
    }
  }

  /** The lowest credential with the listed id, if it is one of the relying party asked for. */
  predicate Named(slots: seq<Slot>, request: Request, slot: nat)
    requires forall i :: 0 <= i < |slots| ==> SlotShaped(slots[i])
  {
    && request.allow.Some? && slot < |slots|
    && Holds(slots[slot], request.allow.value) && Serves(slots[slot], request.rpId)
    && forall i :: 0 <= i < slot ==> !Holds(slots[i], request.allow.value)
  }

  /** A getAssertion with an allow list is answered exactly if the lowest credential with the listed id is one of the
      relying party, the user agrees, and nothing else fails; it answers with that credential, whose counter has been
      counted up in the store, and leaves nothing pending. */
  lemma AllowListAnswer(b: Board, s: State, request: Request, env: Env)
    requires Sane(b.p, s.device) && request.allow.Some?
    ensures var step := Do(b, s, GetAssertion(Parsed(request), env));
      var slots := s.device.ram.payload.slots;
      && step.state.volatile.pending == NoPending
      && (step.reply.status == OK <==> step.reply.answered.Some?)
      && (step.reply.answered.Some? ==>
           Named(slots, request, step.reply.answered.value.0)
           && Counted(b, s.device, env, step.reply.answered.value.0, step.reply.answered.value.1, step.state.device))
      && (step.reply.answered.Some? <==>
           b.matchKey(request).Some? && UserAgrees(s.volatile.recent, b.matchKey(request).value, env)
           && exists slot :: Named(slots, request, slot) && Answerable(b, s.device, env, slot))
  {
    hide Exec, SlotShaped, AssertOne, Counted, Answerable, FindId, RecordOfSlot, SlotValid, Carry, UserAgrees;
    var q, key := s.device.ram.payload, b.matchKey(request);
    var slot := FindId(q.slots, request.allow.value, 0);
    PlanShaped(b, s, GetAssertion(Parsed(request), env));
    LookedUp(q.slots, request.allow.value, 0);
    SayingCarries(b, s.device, s.volatile.(pending := NoPending), Reply(INVALID_CBOR, None, false));
    SayingCarries(b, s.device, s.volatile.(pending := NoPending), Reply(INVALID_CREDENTIAL, None, false));
    if key.Some? {
      AssertOneAnswers(b, s, key.value, slot, env, NoPending);
    }
    NamedIsLookedUp(b, s, request, env);
  }

  /** The one slot that can be named is the one looked up. */
  lemma NamedIsLookedUp(b: Board, s: State, request: Request, env: Env)
    requires Sane(b.p, s.device) && request.allow.Some?
    ensures var q, slot := s.device.ram.payload, FindId(s.device.ram.payload.slots, request.allow.value, 0);
      && (forall other :: Named(q.slots, request, other) ==> other == slot)
      && (slot < |q.slots| && Answerable(b, s.device, env, slot) ==>
            (Named(q.slots, request, slot) <==> IsRp(RecordOfHeld(b, q, slot), request.rpId)))
  {
    hide Exec, SlotShaped, FindId, RecordOfSlot, SlotValid, IsRp;
    var q, slot := s.device.ram.payload, FindId(s.device.ram.payload.slots, request.allow.value, 0);
    LookedUp(q.slots, request.allow.value, 0);
    if slot < |q.slots| {
      ServesWhenAnswered(b, s, slot, request.rpId);
    }
  }

  lemma ServesWhenAnswered(b: Board, s: State, slot: nat, rpId: seq<byte>)
    requires Sane(b.p, s.device) && slot < |s.device.ram.payload.slots|
    ensures var q := s.device.ram.payload;
      RecordOfHeld(b, q, slot) == RecordOfKept(b, q.slots, slot)
      && (RecordOfKept(b, q.slots, slot).privateKeyLength != 0 ==>
            (IsRp(RecordOfHeld(b, q, slot), rpId) <==> Serves(q.slots[slot], rpId)))
  {
    hide SecretMask, Xored, SlotShaped, RecordOfSlot, IsRp;
    if SlotValid(s.device.ram.payload.slots[slot])
      && RecordOfSlot(b.se, s.device.ram.payload.slots[slot]).privateKeyLength != 0 {
      RecordServes(b.se, s.device.ram.payload.slots[slot], rpId);
    }
  }

  // ---- getAssertion without an allow list ----

  /** The secrets of the slot can be unmasked. */
  predicate Readable(se: SecureElement, s: Slot)
    requires SlotShaped(s) && s.credentialIdLength <= 32
  {
    s.reserved[0] % 2 == 0 || TransformSecrets(se, s).ok
  }

  /** A discoverable credential of the relying party, that can be read. */
  predicate Discoverable(se: SecureElement, s: Slot, rpId: seq<byte>)
    requires SlotShaped(s)
  {
    Serves(s, rpId) && s.discoverable != 0 && Readable(se, s)
  }

  lemma MatchesIff(se: SecureElement, s: Slot, rpId: seq<byte>)
    requires SlotShaped(s)
    ensures Matches(se, s, rpId) <==> Discoverable(se, s, rpId)
  {
    hide SecretMask, Xored;
  }

  /** The lowest of them. */
  predicate First(b: Board, slots: seq<Slot>, rpId: seq<byte>, slot: nat)
    requires forall i :: 0 <= i < |slots| ==> SlotShaped(slots[i])
  {
    && slot < |slots| && Discoverable(b.se, slots[slot], rpId)
    && forall i :: 0 <= i < slot ==> !Discoverable(b.se, slots[i], rpId)
  }

  lemma {:induction false} MatchingStartsLowest(b: Board, slots: seq<Slot>, rpId: seq<byte>, from: nat, room: nat)
    requires from <= |slots| && room > 0 && forall i :: 0 <= i < |slots| ==> SlotShaped(slots[i])
    ensures var m := Matching(b.se, slots, rpId, from, room);
      && (m == [] ==> forall i :: from <= i < |slots| ==> !Discoverable(b.se, slots[i], rpId))
      && (m != [] ==> from <= m[0] < |slots| && Discoverable(b.se, slots[m[0]], rpId)
                      && forall i :: from <= i < m[0] ==> !Discoverable(b.se, slots[i], rpId))
    decreases |slots| - from
  {
    hide Matches, Discoverable;
    if from < |slots| {
      MatchesIff(b.se, slots[from], rpId);
      if !Matches(b.se, slots[from], rpId) {
        MatchingStartsLowest(b, slots, rpId, from + 1, room);
      }
    }
  }

  /** A getAssertion without an allow list is answered exactly if there is a discoverable credential of the relying
      party, the user agrees, and nothing else fails; it answers with the lowest one. What it leaves for
      getNextAssertion starts behind that one, and its 30 s start with the answer. */
  lemma OpenAnswer(b: Board, s: State, request: Request, env: Env)
    requires Sane(b.p, s.device) && request.allow == None
    ensures var step := Do(b, s, GetAssertion(Parsed(request), env));
      var slots := s.device.ram.payload.slots;
      && (step.reply.status == OK <==> step.reply.answered.Some?)
      && (step.reply.answered.None? ==> step.state.volatile.pending == NoPending)
      && (step.state.volatile.pending.Pending? ==>
           && step.state.volatile.pending.request == request
           && step.state.volatile.pending.next == 1 && step.state.volatile.pending.lastUsedMs == env.laterMs)
      && (step.reply.answered.Some? ==>
           First(b, slots, request.rpId, step.reply.answered.value.0)
           && Counted(b, s.device, env, step.reply.answered.value.0, step.reply.answered.value.1, step.state.device))
      && (step.reply.answered.Some? <==>
           b.matchKey(request).Some? && UserAgrees(s.volatile.recent, b.matchKey(request).value, env)
           && exists slot :: First(b, slots, request.rpId, slot) && Answerable(b, s.device, env, slot))
  {
    hide Exec, SlotShaped, AssertOne, Counted, Answerable, Matching, Discoverable, RecordOfSlot, SlotValid, Carry,
      UserAgrees;
    var q, key := s.device.ram.payload, b.matchKey(request);
    var matching := Matching(b.se, q.slots, request.rpId, 0, PENDING_MAX);
    PlanShaped(b, s, GetAssertion(Parsed(request), env));
    MatchingStartsLowest(b, q.slots, request.rpId, 0, PENDING_MAX);
    SayingCarries(b, s.device, s.volatile.(pending := NoPending), Reply(INVALID_CBOR, None, false));
    SayingCarries(b, s.device, s.volatile.(pending := NoPending), Reply(NO_CREDENTIALS, None, false));
    if key.Some? && matching != [] {
      AssertOneAnswers(b, s, key.value, matching[0], env,
                       if |matching| > 1 then Pending(request, matching, 1, env.laterMs) else NoPending);
      assert First(b, q.slots, request.rpId, matching[0]);
    }
  }

  // ---- Refusals ----

  lemma AssertOneRefuses(b: Board, s: State, key: Key, slot: nat, env: Env, pending: Pending)
    requires Sane(b.p, s.device) && slot < |s.device.ram.payload.slots|
    requires SlotValid(s.device.ram.payload.slots[slot]) && Readable(b.se, s.device.ram.payload.slots[slot])
    ensures var plan := AssertOne(b, s.device.ram.payload, s.volatile.recent, key, slot, env, pending);
      && (plan.Ask? ==> OpShaped(plan.op))
      && var step := Carry(b, s.device, plan);
         && (!UserAgrees(s.volatile.recent, key, env) ==>
              step.reply == Reply(env.presence, None, false) && step.state.device == s.device)
         && (UserAgrees(s.volatile.recent, key, env) ==> step.reply.status == StatusOf(b, s.device, env, slot))
         && (UserAgrees(s.volatile.recent, key, env) && env.crypto != OK ==>
              step.reply.status == env.crypto && step.state.device == s.device)
  {
    hide Exec, SlotShaped, SecretMask, Xored, Counted;
    AssertOneAnswers(b, s, key, slot, env, pending);
  }

  /** What a getAssertion with an allow list says when it is not answered, and that it has then written nothing: no
      such credential, a user who does not agree, a signature that cannot be made. */
  lemma RefusedAllowList(b: Board, s: State, request: Request, env: Env)
    requires Sane(b.p, s.device) && |request.rpId| > 0 && b.matchKey(request).Some? && request.allow.Some?
    ensures var step := Do(b, s, GetAssertion(Parsed(request), env));
      var slots, agrees := s.device.ram.payload.slots, UserAgrees(s.volatile.recent, b.matchKey(request).value, env);
      && ((forall slot :: !Named(slots, request, slot)) ==>
           step.reply == Reply(INVALID_CREDENTIAL, None, false) && step.state.device == s.device)
      && forall slot :: Named(slots, request, slot) && ReadableAt(b, slots, slot) ==>
           && (!agrees ==> step.reply == Reply(env.presence, None, false) && step.state.device == s.device)
           && (agrees ==> step.reply.status == StatusOf(b, s.device, env, slot))
           && (agrees && env.crypto != OK ==> step.reply.status == env.crypto && step.state.device == s.device)
  {
    hide Exec, SlotShaped, AssertOne, FindId, RecordOfSlot, SlotValid, Carry, UserAgrees, Readable, IsRp, StatusOf;
    var q, key := s.device.ram.payload, b.matchKey(request).value;
    var slot := FindId(q.slots, request.allow.value, 0);
    PlanShaped(b, s, GetAssertion(Parsed(request), env));
    SayingCarries(b, s.device, s.volatile.(pending := NoPending), Reply(INVALID_CREDENTIAL, None, false));
    LookedUp(q.slots, request.allow.value, 0);
    if slot < |q.slots| {
      HeldServes(b, q, slot, request.rpId);
      assert Named(q.slots, request, slot) <==> Serves(q.slots[slot], request.rpId);
      if ReadableAt(b, q.slots, slot) {
        AssertOneRefuses(b, s, key, slot, env, NoPending);
      }
    }
  }

  predicate ReadableAt(b: Board, slots: seq<Slot>, slot: nat) {
    slot < |slots| && SlotShaped(slots[slot]) && slots[slot].credentialIdLength <= 32 && Readable(b.se, slots[slot])
  }

  /** The same without an allow list. */
  lemma RefusedOpen(b: Board, s: State, request: Request, env: Env)
    requires Sane(b.p, s.device) && b.matchKey(request).Some? && request.allow == None
    ensures var step := Do(b, s, GetAssertion(Parsed(request), env));
      var slots, agrees := s.device.ram.payload.slots, UserAgrees(s.volatile.recent, b.matchKey(request).value, env);
      && ((forall slot :: !First(b, slots, request.rpId, slot)) ==>
           step.reply == Reply(NO_CREDENTIALS, None, false) && step.state.device == s.device)
      && forall slot :: First(b, slots, request.rpId, slot) ==>
           && (!agrees ==> step.reply == Reply(env.presence, None, false) && step.state.device == s.device)
           && (agrees ==> step.reply.status == StatusOf(b, s.device, env, slot))
           && (agrees && env.crypto != OK ==> step.reply.status == env.crypto && step.state.device == s.device)
  {
    hide Exec, SlotShaped, AssertOne, Matching, RecordOfSlot, SlotValid, Carry, UserAgrees, Readable, StatusOf;
    var q, key := s.device.ram.payload, b.matchKey(request).value;
    var matching := Matching(b.se, q.slots, request.rpId, 0, PENDING_MAX);
    PlanShaped(b, s, GetAssertion(Parsed(request), env));
    SayingCarries(b, s.device, s.volatile.(pending := NoPending), Reply(NO_CREDENTIALS, None, false));
    MatchingStartsLowest(b, q.slots, request.rpId, 0, PENDING_MAX);
    if matching != [] {
      assert First(b, q.slots, request.rpId, matching[0]);
      AssertOneRefuses(b, s, key, matching[0], env,
                       if |matching| > 1 then Pending(request, matching, 1, env.laterMs) else NoPending);
    }
  }

  lemma HeldServes(b: Board, q: Payload, slot: nat, rpId: seq<byte>)
    requires Shaped(b.p, q) && slot < |q.slots| && |rpId| > 0
    ensures IsRp(RecordOfHeld(b, q, slot), rpId)
       <==> Serves(q.slots[slot], rpId) && ReadableAt(b, q.slots, slot)
  {
    hide SecretMask, Xored;
  }

  /** A getAssertion that does not parse answers its own status, one whose key cannot be computed INVALID_CBOR; both
      forget what was pending and touch nothing else. */
  lemma UnparsedAssertion(b: Board, s: State, status: byte, request: Request, env: Env)
    requires Sane(b.p, s.device) && b.matchKey(request) == None
    ensures var forgetful := State(s.device, s.volatile.(pending := NoPending));
      && Do(b, s, GetAssertion(Rejected(status), env)) == Step(forgetful, Reply(status, None, false))
      && Do(b, s, GetAssertion(Parsed(request), env)) == Step(forgetful, Reply(0x12, None, false))
  {
    hide SlotShaped;
  }

  // ---- getNextAssertion ----

  /** Something is left to be answered, and it was last used at most 30 s ago. */
  predicate Timely(pending: Pending, now: nat) {
    pending.Pending? && pending.next < |pending.slots| && now - pending.lastUsedMs <= 30000
  }

  /** getNextAssertion answers exactly while something is left and at most 30 s have passed since the last answer; it
      answers with the next slot, starts the 30 s again, and forgets everything when it fails or nothing is left. */
  lemma NextAnswer(b: Board, s: State, env: Env)
    requires Sane(b.p, s.device)
    ensures var step, pending := Do(b, s, GetNext(true, env)), s.volatile.pending;
      if !Timely(pending, env.startMs) then
        step == Step(State(s.device, s.volatile.(pending := NoPending)), Reply(0x30, None, false))
      else
        && (step.reply.status == OK <==> step.reply.answered.Some?) && !step.reply.confirmed
        && step.reply.status == StatusOf(b, s.device, env, pending.slots[pending.next])
        && (step.reply.answered.Some? <==> Answerable(b, s.device, env, pending.slots[pending.next]))
        && (step.reply.answered.Some? ==>
             step.reply.answered.value.0 == pending.slots[pending.next]
             && Counted(b, s.device, env, pending.slots[pending.next], step.reply.answered.value.1, step.state.device))
        && step.state.volatile == s.volatile.(pending :=
             if step.reply.answered.None? || pending.next + 1 >= |pending.slots| then NoPending
             else pending.(next := pending.next + 1, lastUsedMs := env.laterMs))
  {
    hide Exec, SlotShaped, Respond, Carry, Counted, Answerable, StatusOf;
    var pending := s.volatile.pending;
    var cleared := s.volatile.(pending := NoPending);
    PlanShaped(b, s, GetNext(true, env));
    SayingCarries(b, s.device, cleared, Reply(NOT_ALLOWED, None, false));
    if Timely(pending, env.startMs) {
      var advanced := if pending.next + 1 >= |pending.slots| then NoPending
                      else pending.(next := pending.next + 1, lastUsedMs := env.laterMs);
      RespondAnswers(b, s, pending.slots[pending.next], env, s.volatile.(pending := advanced), cleared, false);
      RespondNeverConfirms(b, s, pending.slots[pending.next], env, s.volatile.(pending := advanced), cleared);
    }
  }

  lemma RespondNeverConfirms(b: Board, s: State, slot: nat, env: Env, done: Volatile, failed: Volatile)
    requires Sane(b.p, s.device)
    ensures var plan := Respond(b, s.device.ram.payload, slot, env, done, failed, false);
      (plan.Ask? ==> OpShaped(plan.op)) && !Carry(b, s.device, plan).reply.confirmed
  {
    hide Exec, SlotShaped, SlotValid, RecordOfSlot;
  }

  /** A getNextAssertion with parameters is refused and changes nothing. */
  lemma NextWithParameters(b: Board, s: State, env: Env)
    requires Sane(b.p, s.device)
    ensures Do(b, s, GetNext(false, env)) == Step(s, Reply(0x12, None, false))
  {
    hide SlotShaped;
  }

  // ---- makeCredential ----

  /** The lowest slot without a credential. */
  predicate LowestFree(slots: seq<Slot>, free: nat) {
    free < |slots| && !SlotValid(slots[free]) && forall i :: 0 <= i < free ==> SlotValid(slots[i])
  }

  /** The slot, and nothing else, has gone into the lowest free place. */
  ghost predicate PutLowest(q: Payload, s: Slot, q': Payload) {
    exists free: nat :: LowestFree(q.slots, free)
      && q' == q.(slots := q.slots[free := s], credentialCount := (q.credentialCount + 1) % 0x1_0000_0000)
  }

  predicate SomethingFree(slots: seq<Slot>) {
    exists i :: 0 <= i < |slots| && !SlotValid(slots[i])
  }

  lemma AddPutsLowest(p: Platform, q: Payload, s: Slot)
    ensures Admissible(q, Add(s)) <==> SomethingFree(q.slots)
    ensures SomethingFree(q.slots) ==> PutLowest(q, s, Effect(p, q, Add(s)))
  {
    hide SlotValid;
    var free := FirstFree(q.slots, 0);
    assert free < |q.slots| ==> LowestFree(q.slots, free);
  }

  /** A new credential: exactly the record has been stored, in the lowest free slot. */
  ghost predicate Created(b: Board, d: Device, record: Record, e: Entropy, d': Device)
    requires Sane(b.p, d) && RecordShaped(record)
  {
    && Exec(b.p, d, Add(SlotOfRecord(b.se, record)), e) == Outcome(true, d')
    && PutLowest(d.ram.payload, SlotOfRecord(b.se, record), d'.ram.payload)
  }

  /** makeCredential stores a credential only for a request that parsed, a user who agreed and keys that could be
      made, and then exactly that record, in the lowest free slot; it can store it exactly if a slot is free and the
      commit succeeds. A refusal answers its own status and leaves the store as it was. */
  lemma CreationNeedsUser(b: Board, s: State, parsed: byte, generated: byte, record: Record, env: Env)
    requires Sane(b.p, s.device) && RecordShaped(record)
    ensures var step := Do(b, s, Command.MakeCredential(parsed, generated, record, env));
      && step.reply.answered == None && (step.reply.confirmed <==> parsed == OK && env.presence == OK)
      && (if parsed != OK then step.state == s && step.reply.status == parsed
          else
            && step.state.volatile == CLEARED
            && (if env.presence != OK || generated != OK then
                  && step.state.device == s.device
                  && step.reply.status == if env.presence != OK then env.presence else generated
                else if SomethingFree(s.device.ram.payload.slots) && env.e.wrapOk then
                  Created(b, s.device, record, env.e, step.state.device) && step.reply.status == env.built
                else
                  step.reply.status == 0x28
                  && Exec(b.p, s.device, Add(SlotOfRecord(b.se, record)), env.e) == Outcome(false, step.state.device)))
  {
    hide SlotShaped, SlotOfRecord, Exec, SlotValid, PutLowest, Admissible, Effect, SomethingFree;
    var q, stored := s.device.ram.payload, SlotOfRecord(b.se, record);
    PlanShaped(b, s, Command.MakeCredential(parsed, generated, record, env));
    ExecContent(b.p, s.device, Add(stored), env.e);
    AddPutsLowest(b.p, q, stored);
    AddSucceeds(b.p, s.device, stored, env.e);
  }

  lemma AddSucceeds(p: Platform, d: Device, s: Slot, e: Entropy)
    requires Sane(p, d) && SlotShaped(s)
    ensures Exec(p, d, Add(s), e).ok <==> Admissible(d.ram.payload, Add(s)) && e.wrapOk
  {
    hide SlotShaped, CommitOps, ApplyAll, SlotValid;
  }

  /** So the store changes, or makeCredential reports success, only with the user's consent to this request. */
  lemma NoCredentialWithoutUser(b: Board, s: State, parsed: byte, generated: byte, record: Record, env: Env)
    requires Sane(b.p, s.device) && RecordShaped(record)
    ensures var step := Do(b, s, Command.MakeCredential(parsed, generated, record, env));
      step.state.device != s.device || step.reply.status == OK ==>
        parsed == OK && env.presence == OK && generated == OK && step.reply.confirmed
  {
    hide Do, Created, SlotShaped, SlotOfRecord;
    CreationNeedsUser(b, s, parsed, generated, record, env);
  }

  // ---- Runs: who is answered ----

  /** Getting no assertion: nothing is answered, and what was pending is kept or forgotten. */
  lemma OthersDoNotAnswer(b: Board, s: State, cmd: Command)
    requires Runs.Ready(b, s, cmd) && !cmd.GetAssertion? && !cmd.GetNext?
    ensures var step := Do(b, s, cmd);
      && step.reply.answered == None
      && (step.state.volatile.pending == NoPending || step.state.volatile.pending == s.volatile.pending)
      && (step.state.volatile.pending.Pending? ==> cmd.Write? || (cmd.MakeCredential? && cmd.parseStatus != OK))
  {
    hide Exec, Boot, SlotShaped, SlotOfRecord;
    PlanShaped(b, s, cmd);
  }

  /** The pending assertion of state `n` was started by command `i`, and nothing has replaced it since. */
  predicate Started(b: Board, ss: seq<State>, cmds: seq<Command>, i: nat, n: nat)
    requires n <= |cmds| < |ss|
  {
    && i < n && Runs.Answered(b, ss[i], cmds[i])
    && ss[n].volatile.pending.Pending? && cmds[i].parsed == Parsed(ss[n].volatile.pending.request)
    && cmds[i].parsed.request.allow == None
    && forall j :: i < j < n ==>
         cmds[j].GetNext? || cmds[j].Write? || (cmds[j].MakeCredential? && cmds[j].parseStatus != OK)
  }

  /** Whatever is pending was started by the latest getAssertion, one without an allow list that was answered. */
  lemma {:induction false} PendingWasStarted(b: Board, ss: seq<State>, cmds: seq<Command>, n: nat) returns (i: nat)
    requires Runs.IsRun(b, ss, cmds) && n <= |cmds| && ss[0].volatile.pending == NoPending
    ensures ss[n].volatile.pending.Pending? ==> Started(b, ss, cmds, i, n)
    decreases n
  {
    hide Do, Safe, Runs.Ready, Runs.IsStep, Counted, Answerable, First, UserAgrees;
    i := 0;
    if n > 0 && ss[n].volatile.pending.Pending? {
      var s, cmd := ss[n - 1], cmds[n - 1];
      Runs.StepAt(b, ss, cmds, n - 1);
      ReadyIsSane(b, s, cmd);
      if cmd.GetAssertion? {
        AssertionStarts(b, s, cmd);
        i := n - 1;
      } else {
        i := PendingWasStarted(b, ss, cmds, n - 1);
        if cmd.GetNext? {
          NextAnswer(b, s, cmd.env);
          NextWithParameters(b, s, cmd.env);
        } else {
          OthersDoNotAnswer(b, s, cmd);
        }
      }
    }
  }

  lemma ReadyIsSane(b: Board, s: State, cmd: Command)
    requires Runs.Ready(b, s, cmd)
    ensures Sane(b.p, s.device) && CommandShaped(cmd) && (cmd.Cut? ==> FlashShaped(b.p, cmd.t))
  {
  }

  lemma AssertionStarts(b: Board, s: State, cmd: Command)
    requires Runs.Ready(b, s, cmd) && cmd.GetAssertion?
    ensures var pending := Do(b, s, cmd).state.volatile.pending;
      pending.Pending? ==>
        Runs.Answered(b, s, cmd) && cmd.parsed == Parsed(pending.request) && pending.request.allow == None
  {
    hide Do, Sane, Counted, Answerable, First, Named, UserAgrees;
    ReadyIsSane(b, s, cmd);
    match cmd.parsed {
      case Rejected(status) => RejectedForgets(b, s, status, cmd.env);
      case Parsed(request) =>
        if request.allow.Some? {
          AllowListAnswer(b, s, request, cmd.env);
        } else {
          OpenAnswer(b, s, request, cmd.env);
        }
    }
  }

  lemma RejectedForgets(b: Board, s: State, status: byte, env: Env)
    requires Sane(b.p, s.device)
    ensures Do(b, s, GetAssertion(Rejected(status), env))
         == Step(State(s.device, s.volatile.(pending := NoPending)), Reply(status, None, false))
  {
    hide SlotShaped;
  }

  /** The relying party a command asks for: the request's own, or that of the getAssertion that started what is
      pending. */
  ghost predicate Asks(b: Board, ss: seq<State>, cmds: seq<Command>, n: nat, rpId: seq<byte>)
    requires n < |cmds| < |ss|
  {
    || (cmds[n].GetAssertion? && cmds[n].parsed.Parsed? && cmds[n].parsed.request.rpId == rpId)
    || (cmds[n].GetNext? && exists i: nat :: Started(b, ss, cmds, i, n) && cmds[i].parsed.request.rpId == rpId)
  }

  /** Over every run, whatever slot is answered holds a credential of exactly the relying party that was asked for. */
  lemma AnswersServe(b: Board, ss: seq<State>, cmds: seq<Command>, n: nat)
    requires Runs.IsRun(b, ss, cmds) && n < |cmds| && ss[0].volatile.pending == NoPending
    requires Runs.Ready(b, ss[n], cmds[n]) && Do(b, ss[n], cmds[n]).reply.answered.Some?
    ensures var slot := Do(b, ss[n], cmds[n]).reply.answered.value.0;
      slot < |ss[n].device.ram.payload.slots| && SlotShaped(ss[n].device.ram.payload.slots[slot])
      && exists rpId :: Asks(b, ss, cmds, n, rpId) && Serves(ss[n].device.ram.payload.slots[slot], rpId)
  {
    hide Do, Safe, Runs.IsRun, Counted, Answerable, UserAgrees, Discoverable, SlotShaped, SlotValid, Serves, Holds;
    Runs.RunLength(b, ss, cmds);
    var s, cmd := ss[n], cmds[n];
    ReadyIsSane(b, s, cmd);
    if cmd.GetAssertion? {
      AssertionServes(b, s, cmd);
      assert Asks(b, ss, cmds, n, cmd.parsed.request.rpId);
    } else if cmd.GetNext? {
      Runs.RunIsSafe(b, ss, cmds, n);
      NextServes(b, s, cmd);
      var i := PendingWasStarted(b, ss, cmds, n);
      assert Started(b, ss, cmds, i, n);
      assert Asks(b, ss, cmds, n, s.volatile.pending.request.rpId);
    } else {
      OthersDoNotAnswer(b, s, cmd);
    }
  }

  lemma AssertionServes(b: Board, s: State, cmd: Command)
    requires Runs.Ready(b, s, cmd) && cmd.GetAssertion? && Do(b, s, cmd).reply.answered.Some?
    ensures cmd.parsed.Parsed?
    ensures var slots, slot := s.device.ram.payload.slots, Do(b, s, cmd).reply.answered.value.0;
      slot < |slots| && SlotShaped(slots[slot]) && Serves(slots[slot], cmd.parsed.request.rpId)
  {
    hide Do, Counted, Answerable, UserAgrees, SlotShaped, SlotValid, Holds, Serves;
    match cmd.parsed {
      case Rejected(status) => RejectedForgets(b, s, status, cmd.env);
      case Parsed(request) =>
        if request.allow.Some? {
          AllowListAnswer(b, s, request, cmd.env);
        } else {
          OpenAnswer(b, s, request, cmd.env);
        }
    }
  }

  lemma NextServes(b: Board, s: State, cmd: Command)
    requires Runs.Ready(b, s, cmd) && Safe(b, s) && cmd.GetNext? && Do(b, s, cmd).reply.answered.Some?
    ensures s.volatile.pending.Pending?
    ensures var slots, slot := s.device.ram.payload.slots, Do(b, s, cmd).reply.answered.value.0;
      slot < |slots| && SlotShaped(slots[slot]) && Serves(slots[slot], s.volatile.pending.request.rpId)
  {
    hide Do, Counted, SlotShaped, SlotValid, Serves, Discoverable, Matches, Exec;
    NextAnswer(b, s, cmd.env);
    NextWithParameters(b, s, cmd.env);
    var pending := s.volatile.pending;
    var slot := pending.slots[pending.next];
    assert Remembered(b, s.device.ram.payload, slot, pending.request.rpId);
    MatchesIff(b.se, s.device.ram.payload.slots[slot], pending.request.rpId);
    DiscoverableServes(b.se, s.device.ram.payload.slots[slot], pending.request.rpId);
  }

  lemma DiscoverableServes(se: SecureElement, s: Slot, rpId: seq<byte>)
    requires SlotShaped(s) && Discoverable(se, s, rpId)
    ensures Serves(s, rpId)
  {
  }

  // ---- Runs: what is created ----

  /** A makeCredential that parsed and that the user agreed to. */
  predicate Consented(cmd: Command) {
    cmd.MakeCredential? && cmd.parseStatus == OK && cmd.env.presence == OK
  }

  /** The slots that hold a credential only after the command. */
  function Fresh(s: State, s': State): set<nat> {
    Credentials(s'.device.ram.payload.slots) - Credentials(s.device.ram.payload.slots)
  }

  lemma OperationsCreate(p: Platform, q: Payload, op: StoreOp)
    requires Admissible(q, op)
    ensures Credentials(Rollback(p, q, op).slots) <= Credentials(q.slots)
    ensures Credentials(Effect(p, q, op).slots)
         <= Credentials(q.slots) + if op.Add? then {FirstFree(q.slots, 0)} else {}
  {
    hide SlotShaped;
  }

  lemma ExecCreates(p: Platform, d: Device, op: StoreOp, e: Entropy)
    requires Sane(p, d) && OpShaped(op)
    ensures |Credentials(Exec(p, d, op, e).device.ram.payload.slots) - Credentials(d.ram.payload.slots)|
         <= if op.Add? then 1 else 0
  {
    hide Exec, Effect, Rollback, Admissible, SlotValid, SlotShaped, Credentials;
    ExecContent(p, d, op, e);
    var before, after := Credentials(d.ram.payload.slots), Credentials(Exec(p, d, op, e).device.ram.payload.slots);
    if Admissible(d.ram.payload, op) {
      OperationsCreate(p, d.ram.payload, op);
    }
    if op.Add? {
      var free := FirstFree(d.ram.payload.slots, 0);
      assert after - before <= {free};
      SubsetIsSmaller(after - before, {free});
    } else {
      assert after - before == {};
    }
  }

  lemma {:induction false} SubsetIsSmaller(a: set<nat>, b: set<nat>)
    requires a <= b
    ensures |a| <= |b|
  {
    if a != {} {
      var x :| x in a;
      SubsetIsSmaller(a - {x}, b - {x});
    }
  }

  /** Only a consented makeCredential creates a credential, and it creates one at most. */
  lemma CommandsCreate(b: Board, s: State, cmd: Command)
    requires Runs.Ready(b, s, cmd) && !cmd.Restart? && !cmd.Cut?
    ensures |Fresh(s, Do(b, s, cmd).state)| <= if Consented(cmd) then 1 else 0
  {
    hide Exec, SlotShaped, SlotOfRecord, AssertOne, Respond, Matching, FindId, RecordOfSlot, SlotValid, Credentials;
    PlanShaped(b, s, cmd);
    Runs.PlanCountsUp(b, s, cmd);
    if cmd.MakeCredential? {
      CreationNeedsUser(b, s, cmd.parseStatus, cmd.generated, cmd.record, cmd.env);
    }
    if cmd.GetAssertion? || cmd.GetNext? {
      Runs.AssertionsOnlyCount(b, s, cmd);
    }
    var plan := PlanOf(b, s, cmd);
    if plan.Ask? {
      ExecCreates(b.p, s.device, plan.op, plan.e);
    }
  }

  function Creations(ss: seq<State>, cmds: seq<Command>, n: nat): nat
    requires n <= |cmds| < |ss|
    decreases n
  {
    if n == 0 then 0
    else Creations(ss, cmds, n - 1)
         + if cmds[n - 1].Restart? || cmds[n - 1].Cut? then 0 else |Fresh(ss[n - 1], ss[n])|
  }

  function Consents(cmds: seq<Command>, n: nat): nat
    requires n <= |cmds|
    decreases n
  {
    if n == 0 then 0 else Consents(cmds, n - 1) + if Consented(cmds[n - 1]) then 1 else 0
  }

  /** Over every run, the credentials that commands create are at most the makeCredentials the user agreed to. */
  lemma {:induction false} CreationsAreConsented(b: Board, ss: seq<State>, cmds: seq<Command>, n: nat)
    requires Runs.IsRun(b, ss, cmds) && n <= |cmds|
    ensures Creations(ss, cmds, n) <= Consents(cmds, n)
    decreases n
  {
    hide Do, Safe, Runs.Ready, Runs.IsStep, Fresh;
    if n > 0 {
      CreationsAreConsented(b, ss, cmds, n - 1);
      Runs.StepAt(b, ss, cmds, n - 1);
      if !cmds[n - 1].Restart? && !cmds[n - 1].Cut? {
        CommandsCreate(b, ss[n - 1], cmds[n - 1]);
      }
    }
  }

  /** Power lost during a makeCredential that is refused finds nothing being written. */
  lemma RefusedCreationWritesNothing(b: Board, s: State, inner: Command, t: Flash, boot: Entropy)
    requires Runs.Ready(b, s, Cut(inner, t, boot)) && Runs.Lawful(b, s, Cut(inner, t, boot))
    requires inner.MakeCredential? && (!Consented(inner) || inner.generated != OK)
    ensures t == s.device.flash
  {
    hide SlotShaped, SlotValid, SlotOfRecord;
    assert PlanOf(b, s, inner).Say?;
    Runs.AbsentIsNothing(b.p, s.device);
  }
}
