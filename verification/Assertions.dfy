/** makeCredential, getAssertion and getNextAssertion over the credential store: the pending assertion, the
    one-shot reuse of a user-presence confirmation, and the signature counters the answers carry. */
module Assertions {
  import opened Bits
  import opened NorFlash
  import opened StoreFormat
  import opened StoreSpec
  import opened SecretWrapping
  import opened TimedGrants

  const OK: byte := 0x00
  const INVALID_CBOR: byte := 0x12
  const INVALID_CREDENTIAL: byte := 0x22
  const KEY_STORE_FULL: byte := 0x28
  const NO_CREDENTIALS: byte := 0x2e
  const NOT_ALLOWED: byte := 0x30
  const PENDING_MAX: nat := 128
  const PENDING_TIMEOUT_MS: nat := 30000
  const UP_REUSE_WINDOW_MS: nat := 1200

  /** The parsed request: relying party, allow-list credential if any, and every other field of it. */
  datatype Request = Request(rpId: seq<byte>, allow: Option<seq<byte>>, rest: seq<byte>)

  type Key = seq<byte>

  /** The board: its flash layout, its simulated secure element, and SHA-256 over a parsed request. */
  datatype Board = Board(p: Platform, se: SecureElement, matchKey: Request -> Option<Key>)

  datatype Pending = NoPending | Pending(request: Request, slots: seq<nat>, next: nat, lastUsedMs: nat)

  /** s_pending_assertion and s_recent_assertion_up */
  datatype Volatile = Volatile(pending: Pending, recent: Option<Held<Key>>)

  const CLEARED := Volatile(NoPending, None)

  datatype State = State(device: Device, volatile: Volatile)

  /** What the surroundings do during one command: how the wait for the user ends, the status of the extension,
      authenticator-data and signing steps before the counter is written, that of building the response after it,
      the commit's entropy, and the clock when the command starts and after the user has been waited for. */
  datatype Env = Env(presence: byte, crypto: byte, built: byte, e: Entropy, startMs: nat, laterMs: nat)

  /** The answer, the slot and count it carries if it is an assertion, and whether the user confirmed it. */
  datatype Reply = Reply(status: byte, answered: Option<(nat, u32)>, confirmed: bool)

  // ---- Looking up credentials ----

  /** A discoverable credential of the relying party. */
  predicate Matches(se: SecureElement, s: Slot, rpId: seq<byte>)
    requires SlotShaped(s)
  {
    SlotValid(s) &&
    var r := RecordOfSlot(se, s);
    r.discoverable && IsRp(r, rpId)
  }

  predicate IsRp(r: Record, rpId: seq<byte>) {
    r.rpIdLength == |rpId| && |rpId| <= |r.rpId| && r.rpId[..|rpId|] == rpId
  }

  /** collect_matching_slots: in ascending order, up to the capacity. */
  function Matching(se: SecureElement, slots: seq<Slot>, rpId: seq<byte>, from: nat, room: nat): (r: seq<nat>)
    requires forall i :: 0 <= i < |slots| ==> SlotShaped(slots[i])
    ensures |r| <= room
    decreases |slots| - from
  {
    if from >= |slots| || room == 0 then []
    else if Matches(se, slots[from], rpId) then [from] + Matching(se, slots, rpId, from + 1, room - 1)
    else Matching(se, slots, rpId, from + 1, room)
  }

  /** The first valid slot holding the id, from `from` on; |slots| if there is none. */
  function FindId(slots: seq<Slot>, id: seq<byte>, from: nat): (r: nat)
    requires from <= |slots| && forall i :: 0 <= i < |slots| ==> SlotShaped(slots[i])
    ensures r <= |slots|
    decreases |slots| - from
  {
    if from == |slots| || HoldsId(slots[from], id) then from else FindId(slots, id, from + 1)
  }

  // ---- Commands ----

  datatype Parsed = Rejected(status: byte) | Parsed(request: Request)

  datatype Command =
    | GetAssertion(parsed: Parsed, env: Env)
    | GetNext(empty: bool, env: Env)
    | MakeCredential(parseStatus: byte, generated: byte, record: Record, env: Env)
    | Write(op: StoreOp, e: Entropy)
    | Restart(boot: Entropy)
    | Cut(command: Command, t: Flash, boot: Entropy)

  /** What a command does: at most one store operation, and what it answers and remembers if that succeeds or
      fails. */
  datatype Plan =
    | Say(volatile: Volatile, reply: Reply)
    | Ask(op: StoreOp, e: Entropy, done: Volatile, reply: Reply, failed: Volatile, excuse: Reply)

  /** consume_recent_assertion_up_if_matching, then the wait for the user when there is nothing to reuse. */
  datatype Presence = Reused | Confirmed | Denied(status: byte)

  function Present(recent: Option<Held<Key>>, key: Key, env: Env): (Presence, Option<Held<Key>>) {
    var current := Next(recent, UP_REUSE_WINDOW_MS, Checked(env.startMs));
    if current.Some? && current.value.grant == key then (Reused, None)
    else if env.presence == OK then (Confirmed, current)
    else (Denied(env.presence), current)
  }

  /** respond_with_assertion. A record whose secrets could not be unwrapped has no private key to sign with. */
  function Respond(b: Board, q: Payload, slot: nat, env: Env, done: Volatile, failed: Volatile, confirmed: bool): Plan
    requires Shaped(b.p, q)
  {
    if slot >= |q.slots| || !SlotValid(q.slots[slot]) then Say(failed, Reply(INVALID_CREDENTIAL, None, confirmed))
    else
      var record := RecordOfSlot(b.se, q.slots[slot]);
      var count := Successor(record.signCount);
      if env.crypto != OK then Say(failed, Reply(env.crypto, None, confirmed))
      else if record.privateKeyLength == 0 then Say(failed, Reply(INVALID_CREDENTIAL, None, confirmed))
      else
        Ask(UpdateCount(slot, count), env.e, if env.built == OK then done else failed,
            Reply(env.built, if env.built == OK then Some((slot, count)) else None, confirmed),
            failed, Reply(INVALID_CREDENTIAL, None, confirmed))
  }

  /** Presence, then the assertion; a confirmation that was not a reuse is armed when the assertion succeeds. */
  function AssertOne(b: Board, q: Payload, recent: Option<Held<Key>>, key: Key, slot: nat, env: Env,
                     pending: Pending): Plan
    requires Shaped(b.p, q)
  {
    var (presence, left) := Present(recent, key, env);
    match presence
    case Denied(status) => Say(Volatile(NoPending, left), Reply(status, None, false))
    case Reused =>
      Respond(b, q, slot, env, Volatile(pending, None), Volatile(NoPending, None), false)
    case Confirmed =>
      Respond(b, q, slot, env, Volatile(pending, Some(Held(key, env.laterMs))), Volatile(NoPending, left), true)
  }

  /** meowkey_webauthn_get_assertion */
  function PlanAssertion(b: Board, q: Payload, v: Volatile, parsed: Parsed, env: Env): Plan
    requires Shaped(b.p, q)
  {
    var cleared := v.(pending := NoPending);
    if parsed.Rejected? then Say(cleared, Reply(parsed.status, None, false))
    else
      var request := parsed.request;
      var key := b.matchKey(request);
      if key.None? then Say(cleared, Reply(INVALID_CBOR, None, false))
      else if request.allow.Some? then
        var slot := FindId(q.slots, request.allow.value, 0);
        if slot == |q.slots| || !IsRp(RecordOfHeld(b, q, slot), request.rpId) then
          Say(cleared, Reply(INVALID_CREDENTIAL, None, false))
        else AssertOne(b, q, v.recent, key.value, slot, env, NoPending)
      else
        var matching := Matching(b.se, q.slots, request.rpId, 0, PENDING_MAX);
        if matching == [] then Say(cleared, Reply(NO_CREDENTIALS, None, false))
        else
          AssertOne(b, q, v.recent, key.value, matching[0], env,
                    if |matching| > 1 then Pending(request, matching, 1, env.laterMs) else NoPending)
  }

  function RecordOfHeld(b: Board, q: Payload, slot: nat): Record
    requires Shaped(b.p, q) && slot < |q.slots|
  {
    if SlotValid(q.slots[slot]) then RecordOfSlot(b.se, q.slots[slot]) else EMPTY_RECORD
  }

  predicate PendingIsCurrent(pending: Pending, now: nat) {
    pending.Pending? && now - pending.lastUsedMs <= PENDING_TIMEOUT_MS && pending.next < |pending.slots|
  }

  /** meowkey_webauthn_get_next_assertion */
  function PlanNext(b: Board, q: Payload, v: Volatile, empty: bool, env: Env): Plan
    requires Shaped(b.p, q)
  {
    var cleared := v.(pending := NoPending);
    if !empty then Say(v, Reply(INVALID_CBOR, None, false))
    else if !PendingIsCurrent(v.pending, env.startMs) then Say(cleared, Reply(NOT_ALLOWED, None, false))
    else
      var next := v.pending.next + 1;
      var advanced := if next >= |v.pending.slots| then NoPending
        else v.pending.(next := next, lastUsedMs := env.laterMs);
      Respond(b, q, v.pending.slots[v.pending.next], env, v.(pending := advanced), cleared, false)
  }

  /** meowkey_webauthn_make_credential: a request that parses clears both, whatever comes of it. */
  function PlanCreation(b: Board, v: Volatile, parsed: byte, generated: byte, record: Record, env: Env): Plan
    requires RecordShaped(record)
  {
    if parsed != OK then Say(v, Reply(parsed, None, false))
    else if env.presence != OK then Say(CLEARED, Reply(env.presence, None, false))
    else if generated != OK then Say(CLEARED, Reply(generated, None, true))
    else
      Ask(Add(SlotOfRecord(b.se, record)), env.e, CLEARED, Reply(env.built, None, true),
          CLEARED, Reply(KEY_STORE_FULL, None, true))
  }

  predicate CommandShaped(command: Command)
    decreases command
  {
    match command
    case MakeCredential(_, _, record, _) => RecordShaped(record)
    case Write(op, _) => !op.Add? && !op.UpdateCount?
    case Cut(inner, _, _) => CommandShaped(inner)
    case _ => true
  }

  function PlanOf(b: Board, s: State, command: Command): Plan
    requires Sane(b.p, s.device) && CommandShaped(command)
  {
    var q, v := s.device.ram.payload, s.volatile;
    match command
    case GetAssertion(parsed, env) => PlanAssertion(b, q, v, parsed, env)
    case GetNext(empty, env) => PlanNext(b, q, v, empty, env)
    case MakeCredential(parsed, generated, record, env) => PlanCreation(b, v, parsed, generated, record, env)
    case Write(op, e) => Ask(op, e, v, Reply(OK, None, false), v, Reply(OK, None, false))
    case Restart(_) => Say(CLEARED, Reply(OK, None, false))
    case Cut(_, _, _) => Say(CLEARED, Reply(OK, None, false))
  }

  lemma PlanShaped(b: Board, s: State, command: Command)
    requires Sane(b.p, s.device) && CommandShaped(command)
    ensures var plan := PlanOf(b, s, command); plan.Ask? ==> OpShaped(plan.op)
  {
    hide Matching, FindId, RecordOfSlot, SlotOfRecord, Shaped;
  }

  datatype Step = Step(state: State, reply: Reply)

  function Carry(b: Board, device: Device, plan: Plan): Step
    requires Sane(b.p, device) && (plan.Ask? ==> OpShaped(plan.op))
  {
    match plan
    case Say(v, reply) => Step(State(device, v), reply)
    case Ask(op, e, done, reply, failed, excuse) =>
      var r := Exec(b.p, device, op, e);
      if r.ok then Step(State(r.device, done), reply) else Step(State(r.device, failed), excuse)
  }

  /** One command, one write by another module, one restart, or one power cut inside a command. */
  function Do(b: Board, s: State, command: Command): Step
    requires Sane(b.p, s.device) && CommandShaped(command)
    requires command.Cut? ==> FlashShaped(b.p, command.t)
  {
    match command
    case Restart(boot) => Step(State(Boot(b.p, s.device.flash, boot), CLEARED), Reply(OK, None, false))
    case Cut(_, t, boot) => Step(State(Boot(b.p, t, boot), CLEARED), Reply(OK, None, false))
    case _ =>
      PlanShaped(b, s, command);
      Carry(b, s.device, PlanOf(b, s, command))
  }

  // ---- Which slots match ----

  /** The remembered slots are the matching ones, in ascending order, and all of them as long as they fit. */
  lemma {:induction false} MatchingIff(se: SecureElement, slots: seq<Slot>, rpId: seq<byte>, from: nat, room: nat)
    requires from <= |slots| && forall i :: 0 <= i < |slots| ==> SlotShaped(slots[i])
    ensures var m := Matching(se, slots, rpId, from, room);
      && (forall k :: 0 <= k < |m| ==> from <= m[k] < |slots| && Matches(se, slots[m[k]], rpId))
      && (forall j, k :: 0 <= j < k < |m| ==> m[j] < m[k])
      && (|m| < room ==> forall i :: from <= i < |slots| && Matches(se, slots[i], rpId) ==> i in m)
    decreases |slots| - from
  {
    hide Matches;
    if from < |slots| && room > 0 {
      if Matches(se, slots[from], rpId) {
        MatchingIff(se, slots, rpId, from + 1, room - 1);
        var rest := Matching(se, slots, rpId, from + 1, room - 1);
        var m := [from] + rest;
        assert Matching(se, slots, rpId, from, room) == m;
        forall k | 0 <= k < |m|
          ensures from <= m[k] < |slots| && Matches(se, slots[m[k]], rpId)
        {
          if k > 0 { assert m[k] == rest[k - 1]; }
        }
      } else {
        MatchingIff(se, slots, rpId, from + 1, room);
      }
    }
  }

  // ---- Pending-assertion safety ----

  /** Empty, or a discoverable credential of the relying party the request named. */
  predicate Remembered(b: Board, q: Payload, slot: nat, rpId: seq<byte>)
    requires Shaped(b.p, q)
  {
    slot < |q.slots| && (!SlotValid(q.slots[slot]) || Matches(b.se, q.slots[slot], rpId))
  }

  predicate PendingSafe(b: Board, q: Payload, pending: Pending)
    requires Shaped(b.p, q)
  {
    pending.Pending? ==>
      && 1 <= pending.next < |pending.slots| <= PENDING_MAX
      && (forall j, k :: 0 <= j < k < |pending.slots| ==> pending.slots[j] < pending.slots[k])
      && forall k :: 0 <= k < |pending.slots| ==> Remembered(b, q, pending.slots[k], pending.request.rpId)
  }

  predicate Safe(b: Board, s: State) {
    Sane(b.p, s.device) && PendingSafe(b, s.device.ram.payload, s.volatile.pending)
  }

  /** What a store operation can do to the content, whether or not it succeeds, on any sane device. */
  lemma ExecContent(p: Platform, d: Device, op: StoreOp, e: Entropy)
    requires Sane(p, d) && OpShaped(op)
    ensures var r := Exec(p, d, op, e);
      && Sane(p, r.device)
      && (r.ok ==> Admissible(d.ram.payload, op) && r.device.ram.payload == Effect(p, d.ram.payload, op))
      && (!r.ok && Admissible(d.ram.payload, op) ==> r.device.ram.payload == Rollback(p, d.ram.payload, op))
      && (!r.ok && !Admissible(d.ram.payload, op) ==> r.device == d)
  {
    hide ApplyAll, CommitOps, PrepareImage, ImageCrc, SlotShaped, SlotValid, CanAppend, AppendFlashOp, Effect,
      Rollback;
    if Admissible(d.ram.payload, op) {
      EffectShaped(p, d.ram.payload, op);
    }
  }

  /** An operation other than adding only empties remembered slots or changes their counts. */
  lemma ContentKeepsRemembered(b: Board, q: Payload, op: StoreOp, slot: nat, rpId: seq<byte>)
    requires Shaped(b.p, q) && Remembered(b, q, slot, rpId) && Admissible(q, op) && !op.Add?
    ensures Shaped(b.p, Effect(b.p, q, op)) && Remembered(b, Effect(b.p, q, op), slot, rpId)
    ensures Shaped(b.p, Rollback(b.p, q, op)) && Remembered(b, Rollback(b.p, q, op), slot, rpId)
  {
    hide SlotShaped, TransformSecrets;
    EffectShaped(b.p, q, op);
    if op.UpdateCount? {
      CountDoesNotMatter(b.se, q.slots[op.index], op.count, rpId);
    }
  }

  lemma CountDoesNotMatter(se: SecureElement, s: Slot, count: u32, rpId: seq<byte>)
    requires SlotShaped(s) && SlotValid(s)
    ensures SlotShaped(s.(signCount := count)) && SlotValid(s.(signCount := count))
    ensures Matches(se, s.(signCount := count), rpId) <==> Matches(se, s, rpId)
  {
    var t := s.(signCount := count);
    forall tag: string
      ensures SecretMask(se, t, tag) == SecretMask(se, s, tag)
    {
    }
  }

  lemma WriteKeepsSafe(b: Board, d: Device, pending: Pending, op: StoreOp, e: Entropy)
    requires Sane(b.p, d) && PendingSafe(b, d.ram.payload, pending) && OpShaped(op) && !op.Add?
    ensures var r := Exec(b.p, d, op, e).device;
      Sane(b.p, r) && PendingSafe(b, r.ram.payload, pending)
  {
    hide Exec, Remembered, Effect, Rollback, Admissible, Shaped;
    ExecContent(b.p, d, op, e);
    if pending.Pending? && Admissible(d.ram.payload, op) {
      forall k | 0 <= k < |pending.slots|
        ensures Remembered(b, Exec(b.p, d, op, e).device.ram.payload, pending.slots[k], pending.request.rpId)
      {
        ContentKeepsRemembered(b, d.ram.payload, op, pending.slots[k], pending.request.rpId);
      }
    }
  }

  /** Whatever a command plans to remember is safe for the content it found, and it adds a credential only when
      it has forgotten what was remembered. */
  predicate PlanSafe(b: Board, q: Payload, plan: Plan)
    requires Shaped(b.p, q)
  {
    match plan
    case Say(v, _) => PendingSafe(b, q, v.pending)
    case Ask(op, _, done, _, failed, _) =>
      && PendingSafe(b, q, done.pending) && PendingSafe(b, q, failed.pending)
      && (op.Add? ==> done.pending == NoPending && failed.pending == NoPending)
  }

  lemma RespondSafe(b: Board, q: Payload, slot: nat, env: Env, done: Volatile, failed: Volatile, confirmed: bool)
    requires Shaped(b.p, q) && PendingSafe(b, q, done.pending) && PendingSafe(b, q, failed.pending)
    ensures PlanSafe(b, q, Respond(b, q, slot, env, done, failed, confirmed))
  {
    hide PendingSafe, RecordOfSlot, SlotShaped, SlotValid;
  }

  lemma AssertOneSafe(b: Board, q: Payload, recent: Option<Held<Key>>, key: Key, slot: nat, env: Env, pending: Pending)
    requires Shaped(b.p, q) && PendingSafe(b, q, pending)
    ensures PlanSafe(b, q, AssertOne(b, q, recent, key, slot, env, pending))
  {
    hide PendingSafe, Respond, SlotShaped;
    assert PendingSafe(b, q, NoPending) by { NothingPendingSafe(b, q); }
    var (presence, left) := Present(recent, key, env);
    match presence {
      case Denied(_) =>
      case Reused => RespondSafe(b, q, slot, env, Volatile(pending, None), Volatile(NoPending, None), false);
      case Confirmed =>
        RespondSafe(b, q, slot, env, Volatile(pending, Some(Held(key, env.laterMs))), Volatile(NoPending, left), true);
    }
  }

  lemma NothingPendingSafe(b: Board, q: Payload)
    requires Shaped(b.p, q)
    ensures PendingSafe(b, q, NoPending)
  {
  }

  lemma MatchedIsSafe(b: Board, q: Payload, request: Request, stamp: nat)
    requires Shaped(b.p, q)
    ensures var matching := Matching(b.se, q.slots, request.rpId, 0, PENDING_MAX);
      |matching| > 1 ==> PendingSafe(b, q, Pending(request, matching, 1, stamp))
  {
    hide Matches, Matching, SlotShaped;
    MatchingIff(b.se, q.slots, request.rpId, 0, PENDING_MAX);
  }

  lemma PlanIsSafe(b: Board, s: State, command: Command)
    requires Safe(b, s) && CommandShaped(command)
    ensures PlanSafe(b, s.device.ram.payload, PlanOf(b, s, command))
  {
    hide PendingSafe, AssertOne, Respond, SlotShaped, Matching, FindId, SlotOfRecord, RecordOfSlot;
    var q, v := s.device.ram.payload, s.volatile;
    NothingPendingSafe(b, q);
    match command {
      case GetAssertion(parsed, env) =>
        if parsed.Parsed? && b.matchKey(parsed.request).Some? {
          var request, key := parsed.request, b.matchKey(parsed.request).value;
          if request.allow.Some? {
            var slot := FindId(q.slots, request.allow.value, 0);
            AssertOneSafe(b, q, v.recent, key, slot, env, NoPending);
          } else {
            var matching := Matching(b.se, q.slots, request.rpId, 0, PENDING_MAX);
            if matching != [] {
              MatchedIsSafe(b, q, request, env.laterMs);
              AssertOneSafe(b, q, v.recent, key, matching[0], env,
                            if |matching| > 1 then Pending(request, matching, 1, env.laterMs) else NoPending);
            }
          }
        }
      case GetNext(empty, env) =>
        if empty && PendingIsCurrent(v.pending, env.startMs) {
          var pending := v.pending;
          AdvancedIsSafe(b, q, pending, env.laterMs);
          var advanced := if pending.next + 1 >= |pending.slots| then NoPending
                          else pending.(next := pending.next + 1, lastUsedMs := env.laterMs);
          RespondSafe(b, q, pending.slots[pending.next], env, v.(pending := advanced), v.(pending := NoPending), false);
        }
      case _ =>
    }
  }

  lemma AdvancedIsSafe(b: Board, q: Payload, pending: Pending, stamp: nat)
    requires Shaped(b.p, q) && PendingSafe(b, q, pending) && pending.Pending?
    ensures pending.next + 1 < |pending.slots| ==>
      PendingSafe(b, q, pending.(next := pending.next + 1, lastUsedMs := stamp))
  {
    hide Remembered, SlotShaped;
  }

  /** Pending-assertion safety: whatever happens, every slot a pending assertion remembers is empty or holds a
      discoverable credential of the relying party that was asked for. */
  lemma DoKeepsSafe(b: Board, s: State, command: Command)
    requires Safe(b, s) && CommandShaped(command) && (command.Cut? ==> FlashShaped(b.p, command.t))
    ensures Safe(b, Do(b, s, command).state)
  {
    hide PendingSafe, PlanOf, Exec, Boot, SlotShaped;
    PlanShaped(b, s, command);
    if command.Restart? || command.Cut? {
      var flash := if command.Cut? then command.t else s.device.flash;
      BootIsSane(b.p, flash, command.boot);
      NothingPendingSafe(b, Boot(b.p, flash, command.boot).ram.payload);
    } else {
      PlanIsSafe(b, s, command);
      var plan := PlanOf(b, s, command);
      if plan.Ask? {
        if plan.op.Add? {
          ExecContent(b.p, s.device, plan.op, plan.e);
          NothingPendingSafe(b, Exec(b.p, s.device, plan.op, plan.e).device.ram.payload);
        } else {
          WriteKeepsSafe(b, s.device, plan.done.pending, plan.op, plan.e);
          WriteKeepsSafe(b, s.device, plan.failed.pending, plan.op, plan.e);
        }
      }
    }
  }

  // ---- Getting the next assertions ----

  /** The state after a sequence of getNextAssertion commands that were all answered with an assertion, and the
      slots they answered with. */
  predicate AllNext(b: Board, s: State, envs: seq<Env>, s': State, slots: seq<nat>)
    requires Sane(b.p, s.device)
    decreases |envs|
  {
    if envs == [] then s' == s && slots == []
    else
      && slots != []
      && var step := Do(b, s, GetNext(true, envs[0]));
         && step.reply.status == OK && step.reply.answered.Some? && step.reply.answered.value.0 == slots[0]
         && Sane(b.p, step.state.device)
         && AllNext(b, step.state, envs[1..], s', slots[1..])
  }

  /** The slots still to be answered. */
  function Remaining(pending: Pending): seq<nat> {
    if pending.Pending? && pending.next <= |pending.slots| then pending.slots[pending.next..] else []
  }

  /** One getNextAssertion: answered with an assertion, it takes the first remaining slot; nothing remaining, it
      is not allowed. */
  lemma NextTakesFirst(b: Board, s: State, env: Env)
    requires Sane(b.p, s.device)
    ensures var step := Do(b, s, GetNext(true, env));
      && (step.reply.status == OK ==>
           && Remaining(s.volatile.pending) != []
           && step.reply.answered.Some? && step.reply.answered.value.0 == Remaining(s.volatile.pending)[0]
           && Remaining(step.state.volatile.pending) == Remaining(s.volatile.pending)[1..])
      && (Remaining(s.volatile.pending) == [] ==> step.reply.status == NOT_ALLOWED)
      && (step.reply.status != OK ==> step.state.volatile.pending == NoPending)
  {
    hide Exec, SlotValid, SlotShaped, RecordOfSlot;
    PlanShaped(b, s, GetNext(true, env));
  }

  /** getNextAssertion yields the remaining slots in order, each exactly once, and then nothing. */
  lemma {:induction false} NextYieldsRemaining(b: Board, s: State, envs: seq<Env>, s': State, slots: seq<nat>, env: Env)
    requires Sane(b.p, s.device) && AllNext(b, s, envs, s', slots)
    ensures |envs| == |slots| <= |Remaining(s.volatile.pending)|
    ensures slots == Remaining(s.volatile.pending)[..|slots|]
    ensures Sane(b.p, s'.device) && Remaining(s'.volatile.pending) == Remaining(s.volatile.pending)[|slots|..]
    ensures |slots| == |Remaining(s.volatile.pending)| ==> Do(b, s', GetNext(true, env)).reply.status == NOT_ALLOWED
    decreases |envs|
  {
    hide Do, Sane;
    if envs != [] {
      var step := Do(b, s, GetNext(true, envs[0]));
      NextTakesFirst(b, s, envs[0]);
      NextYieldsRemaining(b, step.state, envs[1..], s', slots[1..], env);
      var all := Remaining(s.volatile.pending);
      assert all[1..][..|slots| - 1] == all[1..|slots|];
      assert slots == [slots[0]] + slots[1..];
    } else {
      NextTakesFirst(b, s', env);
    }
  }

  /** A successful getAssertion without an allow list answers with the first matching slot and leaves exactly the
      other matching slots, in ascending order, for getNextAssertion. */
  lemma AssertionLeavesTheRest(b: Board, s: State, request: Request, env: Env)
    requires Sane(b.p, s.device) && request.allow == None
    requires Do(b, s, GetAssertion(Parsed(request), env)).reply.status == OK
    ensures var step := Do(b, s, GetAssertion(Parsed(request), env));
      var matching := Matching(b.se, s.device.ram.payload.slots, request.rpId, 0, PENDING_MAX);
      && matching != [] && step.reply.answered.Some? && step.reply.answered.value.0 == matching[0]
      && Remaining(step.state.volatile.pending) == matching[1..]
  {
    hide Exec, SlotValid, SlotShaped, RecordOfSlot, Matching;
    PlanShaped(b, s, GetAssertion(Parsed(request), env));
  }

  /** Together: getAssertion and the getNextAssertions after it answer with every matching slot exactly once, in
      ascending order, and then no more. */
  lemma EveryMatchAnsweredOnce(b: Board, s: State, request: Request, env: Env, envs: seq<Env>, s': State,
                               slots: seq<nat>, last: Env)
    requires Sane(b.p, s.device) && request.allow == None
    requires Do(b, s, GetAssertion(Parsed(request), env)).reply.status == OK
    requires var first := Do(b, s, GetAssertion(Parsed(request), env));
      Sane(b.p, first.state.device) && AllNext(b, first.state, envs, s', slots)
    ensures var first := Do(b, s, GetAssertion(Parsed(request), env));
      var matching := Matching(b.se, s.device.ram.payload.slots, request.rpId, 0, PENDING_MAX);
      && first.reply.answered.Some? && |slots| < |matching|
      && [first.reply.answered.value.0] + slots == matching[..1 + |slots|]
      && Sane(b.p, s'.device)
      && (1 + |slots| == |matching| ==> Do(b, s', GetNext(true, last)).reply.status == NOT_ALLOWED)
  {
    hide Do, Sane, Matching;
    var first := Do(b, s, GetAssertion(Parsed(request), env));
    AssertionLeavesTheRest(b, s, request, env);
    NextYieldsRemaining(b, first.state, envs, s', slots, last);
  }
}
