/** Whole runs of the authenticator: what one user confirmation covers, and why no signature counter is ever
    answered twice. */
module AssertionRuns {
  import opened Bits
  import opened NorFlash
  import opened StoreFormat
  import opened StoreSpec
  import opened SecretWrapping
  import opened TimedGrants
  import opened Assertions
  import opened CrashSafety
  import opened StoreOperations
  import Runs = StoreRuns
  import Counts = SignCounts

  // ---- Runs ----

  predicate IsRun(b: Board, ss: seq<State>, cmds: seq<Command>) {
    && |ss| == |cmds| + 1
    && Safe(b, ss[0])
    && forall i :: 0 <= i < |cmds| ==> IsStep(b, ss[i], cmds[i], ss[i + 1])
  }

  predicate Ready(b: Board, s: State, cmd: Command) {
    Sane(b.p, s.device) && CommandShaped(cmd) && (cmd.Cut? ==> FlashShaped(b.p, cmd.t))
  }

  predicate IsStep(b: Board, s: State, cmd: Command, s': State) {
    Ready(b, s, cmd) && s' == Do(b, s, cmd).state
  }

  lemma StepAt(b: Board, ss: seq<State>, cmds: seq<Command>, i: nat)
    requires IsRun(b, ss, cmds) && i < |cmds|
    ensures Ready(b, ss[i], cmds[i]) && ss[i + 1] == Do(b, ss[i], cmds[i]).state
  {
    assert IsStep(b, ss[i], cmds[i], ss[i + 1]);
  }

  /** Every state of a run is safe: PendingSafe holds throughout. */
  lemma {:induction false} RunIsSafe(b: Board, ss: seq<State>, cmds: seq<Command>, n: nat)
    requires IsRun(b, ss, cmds) && n <= |cmds|
    ensures Safe(b, ss[n])
    decreases n
  {
    hide Do, Safe;
    if n > 0 {
      StepAt(b, ss, cmds, n - 1);
      RunIsSafe(b, ss, cmds, n - 1);
      DoKeepsSafe(b, ss[n - 1], cmds[n - 1]);
    }
  }

  // ---- What one confirmation covers ----

  /** The request key a getAssertion is asked with, if it gets as far as asking for the user. */
  function KeyAsked(b: Board, s: State, cmd: Command): Option<Key> {
    if !Ready(b, s, cmd) || !cmd.GetAssertion? || cmd.parsed.Rejected? then None
    else
      var q, request := s.device.ram.payload, cmd.parsed.request;
      var key := b.matchKey(request);
      if key.None? then None
      else if request.allow.Some? then
        var slot := FindId(q.slots, request.allow.value, 0);
        if slot == |q.slots| || !IsRp(RecordOfHeld(b, q, slot), request.rpId) then None else key
      else if Matching(b.se, q.slots, request.rpId, 0, PENDING_MAX) == [] then None
      else key
  }

  /** The earlier confirmation is reused. */
  predicate Reuses(b: Board, s: State, cmd: Command) {
    var key := KeyAsked(b, s, cmd);
    key.Some? && Present(s.volatile.recent, key.value, cmd.env).0.Reused?
  }

  predicate Answered(b: Board, s: State, cmd: Command) {
    Ready(b, s, cmd) && cmd.GetAssertion? && Do(b, s, cmd).reply.answered.Some?
  }

  predicate ConfirmedBy(b: Board, s: State, cmd: Command) {
    Ready(b, s, cmd) && cmd.GetAssertion? && Do(b, s, cmd).reply.confirmed
  }

  /** What the confirmation kept for reuse sees of a command. */
  function Seen(b: Board, s: State, cmd: Command): GrantEvent<Key> {
    match cmd
    case GetAssertion(_, env) =>
      var key := KeyAsked(b, s, cmd);
      if key.None? then Idle
      else if Reuses(b, s, cmd) then Revoked
      else if Answered(b, s, cmd) then Issued(key.value, env.laterMs)
      else Checked(env.startMs)
    case MakeCredential(parseStatus, _, _, _) => if parseStatus == OK then Revoked else Idle
    case Restart(_) => Revoked
    case Cut(_, _, _) => Revoked
    case _ => Idle
  }

  lemma AssertOneFollows(b: Board, d: Device, recent: Option<Held<Key>>, key: Key, slot: nat, env: Env,
                         pending: Pending)
    requires Sane(b.p, d)
    ensures var plan := AssertOne(b, d.ram.payload, recent, key, slot, env, pending);
      && (plan.Ask? ==> OpShaped(plan.op))
      && var step := Carry(b, d, plan);
         var presence := Present(recent, key, env).0;
         && step.reply.confirmed == presence.Confirmed?
         && (step.reply.answered.Some? ==> !presence.Denied?)
         && step.state.volatile.recent == Next(recent, UP_REUSE_WINDOW_MS,
              if presence.Reused? then Revoked
              else if step.reply.answered.Some? then Issued(key, env.laterMs)
              else Checked(env.startMs))
  {
    hide Exec, SlotShaped, RecordOfSlot, SlotValid;
  }

  /** The kept confirmation is a timed grant: armed by an answered assertion that was confirmed, gone after one
      reuse. */
  lemma RecentFollows(b: Board, s: State, cmd: Command)
    requires Ready(b, s, cmd)
    ensures Do(b, s, cmd).state.volatile.recent == Next(s.volatile.recent, UP_REUSE_WINDOW_MS, Seen(b, s, cmd))
    ensures Answered(b, s, cmd) ==> KeyAsked(b, s, cmd).Some? && (ConfirmedBy(b, s, cmd) <==> !Reuses(b, s, cmd))
    ensures ConfirmedBy(b, s, cmd) ==> KeyAsked(b, s, cmd).Some? && !Reuses(b, s, cmd)
  {
    hide AssertOne, Exec, Boot, SlotShaped, RecordOfSlot, SlotOfRecord, SlotValid, Matching, FindId, Present, Respond;
    PlanShaped(b, s, cmd);
    if cmd.GetAssertion? && KeyAsked(b, s, cmd).Some? {
      var q, request, key := s.device.ram.payload, cmd.parsed.request, KeyAsked(b, s, cmd).value;
      var matching := Matching(b.se, q.slots, request.rpId, 0, PENDING_MAX);
      var slot := if request.allow.Some? then FindId(q.slots, request.allow.value, 0) else matching[0];
      var pending := if request.allow.None? && |matching| > 1 then Pending(request, matching, 1, cmd.env.laterMs)
        else NoPending;
      AssertOneFollows(b, s.device, s.volatile.recent, key, slot, cmd.env, pending);
    } else if cmd.GetNext? {
      NextKeepsRecent(b, s, cmd.empty, cmd.env);
    }
  }

  lemma NextKeepsRecent(b: Board, s: State, empty: bool, env: Env)
    requires Sane(b.p, s.device)
    ensures Do(b, s, GetNext(empty, env)).state.volatile.recent == s.volatile.recent
  {
    hide Exec, SlotShaped, RecordOfSlot, SlotValid;
    PlanShaped(b, s, GetNext(empty, env));
  }

  // ---- Counting ----

  function Answers(b: Board, ss: seq<State>, cmds: seq<Command>, n: nat): nat
    requires n <= |cmds| < |ss|
    decreases n
  {
    if n == 0 then 0
    else Answers(b, ss, cmds, n - 1) + if Answered(b, ss[n - 1], cmds[n - 1]) then 1 else 0
  }

  function Confirmations(b: Board, ss: seq<State>, cmds: seq<Command>, n: nat): nat
    requires n <= |cmds| < |ss|
    decreases n
  {
    if n == 0 then 0
    else Confirmations(b, ss, cmds, n - 1) + if ConfirmedBy(b, ss[n - 1], cmds[n - 1]) then 1 else 0
  }

  function Kept(s: State): nat {
    if s.volatile.recent.Some? then 1 else 0
  }

  /** User-presence accounting: over any run, the successful getAssertions are at most twice the confirmations
      obtained for them, plus one if a confirmation was already kept at the start. */
  lemma {:induction false} UserPresenceAccounting(b: Board, ss: seq<State>, cmds: seq<Command>, n: nat)
    requires IsRun(b, ss, cmds) && n <= |cmds|
    ensures Answers(b, ss, cmds, n) + Kept(ss[n]) <= 2 * Confirmations(b, ss, cmds, n) + Kept(ss[0])
    decreases n
  {
    hide Do, Safe, Ready, IsStep, KeyAsked, Present;
    if n > 0 {
      UserPresenceAccounting(b, ss, cmds, n - 1);
      StepAt(b, ss, cmds, n - 1);
      RecentFollows(b, ss[n - 1], cmds[n - 1]);
      ReuseNeedsKept(b, ss[n - 1], cmds[n - 1]);
    }
  }

  lemma ReuseNeedsKept(b: Board, s: State, cmd: Command)
    ensures Reuses(b, s, cmd) ==>
      s.volatile.recent.Some? && cmd.env.startMs - s.volatile.recent.value.since <= UP_REUSE_WINDOW_MS
      && Some(s.volatile.recent.value.grant) == KeyAsked(b, s, cmd)
  {
    hide KeyAsked;
  }

  function Trace(b: Board, ss: seq<State>, cmds: seq<Command>, n: nat): (r: seq<GrantEvent<Key>>)
    requires n <= |cmds| < |ss|
    ensures |r| == n && forall i :: 0 <= i < n ==> r[i] == Seen(b, ss[i], cmds[i])
  {
    seq(n, i requires 0 <= i < n => Seen(b, ss[i], cmds[i]))
  }

  lemma {:induction false} RecentIsAfter(b: Board, ss: seq<State>, cmds: seq<Command>, n: nat)
    requires IsRun(b, ss, cmds) && n <= |cmds| && ss[0].volatile.recent == None
    ensures ss[n].volatile.recent == After(UP_REUSE_WINDOW_MS, Trace(b, ss, cmds, n))
    decreases n
  {
    hide Do, Safe, Ready, Seen, Next;
    if n > 0 {
      RecentIsAfter(b, ss, cmds, n - 1);
      StepAt(b, ss, cmds, n - 1);
      RecentFollows(b, ss[n - 1], cmds[n - 1]);
      assert Trace(b, ss, cmds, n)[..n - 1] == Trace(b, ss, cmds, n - 1);
    }
  }

  /** The confirmation obtained by command `i` covers command `n`: it was answered, was asked with the same key at
      most 1200 ms before, and since then no getAssertion was answered or reused it, no makeCredential was taken
      up, and the device was not restarted. */
  predicate Covers(b: Board, ss: seq<State>, cmds: seq<Command>, i: nat, n: nat)
    requires n < |cmds| < |ss| && cmds[n].GetAssertion?
  {
    && i < n && cmds[i].GetAssertion?
    && Answered(b, ss[i], cmds[i]) && ConfirmedBy(b, ss[i], cmds[i])
    && KeyAsked(b, ss[i], cmds[i]) == KeyAsked(b, ss[n], cmds[n])
    && cmds[n].env.startMs - cmds[i].env.laterMs <= UP_REUSE_WINDOW_MS
    && forall j :: i < j < n ==>
         && (cmds[j].GetAssertion? ==> !Answered(b, ss[j], cmds[j]) && !Reuses(b, ss[j], cmds[j]))
         && (cmds[j].MakeCredential? ==> cmds[j].parseStatus != OK)
         && !cmds[j].Restart? && !cmds[j].Cut?
  }

  /** An answered getAssertion was either confirmed by the user itself, or is covered by an earlier one: so each
      confirmation covers its own request and at most one more, with the same key, within 1200 ms. */
  lemma AnsweredIsCovered(b: Board, ss: seq<State>, cmds: seq<Command>, n: nat)
    requires IsRun(b, ss, cmds) && n < |cmds| && ss[0].volatile.recent == None
    requires Answered(b, ss[n], cmds[n])
    ensures ConfirmedBy(b, ss[n], cmds[n]) || exists i :: Covers(b, ss, cmds, i, n)
  {
    hide Do, Safe, Ready, IsStep, KeyAsked, Present;
    StepAt(b, ss, cmds, n);
    RecentFollows(b, ss[n], cmds[n]);
    if !ConfirmedBy(b, ss[n], cmds[n]) {
      var now := cmds[n].env.startMs;
      var events := Trace(b, ss, cmds, n);
      RecentIsAfter(b, ss, cmds, n);
      ReuseNeedsKept(b, ss[n], cmds[n]);
      var i := HeldIsLatest(UP_REUSE_WINDOW_MS, events, now);
      IssuedMeans(b, ss, cmds, i);
      forall j | i < j < n
        ensures (cmds[j].GetAssertion? ==> !Answered(b, ss[j], cmds[j]) && !Reuses(b, ss[j], cmds[j]))
             && (cmds[j].MakeCredential? ==> cmds[j].parseStatus != OK) && !cmds[j].Restart? && !cmds[j].Cut?
      {
        assert events[j] == Seen(b, ss[j], cmds[j]);
        StepAt(b, ss, cmds, j);
        RecentFollows(b, ss[j], cmds[j]);
      }
      assert Covers(b, ss, cmds, i, n);
    }
  }

  lemma IssuedMeans(b: Board, ss: seq<State>, cmds: seq<Command>, i: nat)
    requires IsRun(b, ss, cmds) && i < |cmds| && Seen(b, ss[i], cmds[i]).Issued?
    ensures cmds[i].GetAssertion? && Answered(b, ss[i], cmds[i]) && ConfirmedBy(b, ss[i], cmds[i])
    ensures Seen(b, ss[i], cmds[i]) == Issued(KeyAsked(b, ss[i], cmds[i]).value, cmds[i].env.laterMs)
    ensures KeyAsked(b, ss[i], cmds[i]).Some?
  {
    hide Do, Safe, Ready, IsStep, KeyAsked, Present;
    StepAt(b, ss, cmds, i);
    RecentFollows(b, ss[i], cmds[i]);
  }

  /** With SHA-256 injective on requests, equal keys are equal parsed requests. */
  lemma SameKeySameRequest(b: Board, s: State, t: State, first: Command, second: Command)
    requires forall r1, r2 :: b.matchKey(r1).Some? && b.matchKey(r1) == b.matchKey(r2) ==> r1 == r2
    requires KeyAsked(b, s, first).Some? && KeyAsked(b, s, first) == KeyAsked(b, t, second)
    ensures first.parsed == second.parsed
  {
  }

  /** The same with SHA-256 taken injective: the earlier confirmation was for an equal parsed request. */
  lemma AnsweredIsCoveredByEqualRequest(b: Board, ss: seq<State>, cmds: seq<Command>, n: nat) returns (i: nat)
    requires IsRun(b, ss, cmds) && n < |cmds| && ss[0].volatile.recent == None
    requires forall r1, r2 :: b.matchKey(r1).Some? && b.matchKey(r1) == b.matchKey(r2) ==> r1 == r2
    requires Answered(b, ss[n], cmds[n])
    ensures !ConfirmedBy(b, ss[n], cmds[n]) ==>
      i < n && Covers(b, ss, cmds, i, n) && cmds[i].parsed == cmds[n].parsed
  {
    hide IsRun, ConfirmedBy, KeyAsked, Do, Ready;
    i := 0;
    RunLength(b, ss, cmds);
    AnsweredIsCovered(b, ss, cmds, n);
    if !ConfirmedBy(b, ss[n], cmds[n]) {
      i :| Covers(b, ss, cmds, i, n);
      AskedKey(b, ss, cmds, n);
      SameKeySameRequest(b, ss[i], ss[n], cmds[i], cmds[n]);
    }
  }

  lemma AskedKey(b: Board, ss: seq<State>, cmds: seq<Command>, n: nat)
    requires IsRun(b, ss, cmds) && n < |cmds| && Answered(b, ss[n], cmds[n])
    ensures KeyAsked(b, ss[n], cmds[n]).Some?
  {
    hide Do, Safe, Ready, IsStep, KeyAsked, Present;
    StepAt(b, ss, cmds, n);
    RecentFollows(b, ss[n], cmds[n]);
  }

  // ---- Counters over runs ----

  const NO_ENTROPY := Entropy(Zeros(16), true)

  /** The store's view of a command: at most one operation. Deleting a slot that does not exist stands for none. */
  function EventOf(b: Board, s: State, cmd: Command): Runs.Event
    requires Ready(b, s, cmd)
  {
    match cmd
    case Restart(boot) => Runs.Reboot(boot)
    case Cut(inner, t, boot) =>
      var plan := PlanOf(b, s, inner);
      if plan.Ask? then Runs.CutInside(plan.op, plan.e, t, boot)
      else Runs.CutInside(Delete(b.p.maxCredentials), NO_ENTROPY, t, boot)
    case _ =>
      var plan := PlanOf(b, s, cmd);
      if plan.Ask? then Runs.Completed(plan.op, plan.e) else Runs.Completed(Delete(b.p.maxCredentials), NO_ENTROPY)
  }

  /** What the parsers and the PIN commands hand on: lengths within the limits, and retries for an unset PIN. */
  predicate WithinLimits(cmd: Command)
    decreases cmd
  {
    match cmd
    case MakeCredential(_, _, r, _) =>
      && 1 <= r.credentialIdLength && r.privateKeyLength == 32 && 1 <= r.rpIdLength < 64
      && r.userIdLength <= 64 && r.userNameLength < 64 && r.displayNameLength < 96
    case Write(SetPin(configured, retries, _), _) => configured || retries > 0
    case Cut(inner, _, _) => WithinLimits(inner)
    case _ => true
  }

  /** The hypotheses of a run: requests within the limits, no wrap of the generation or of a counter, no count
      written behind a journal that is not in use, and cuts that fall into the command's own operations. */
  predicate Lawful(b: Board, s: State, cmd: Command)
    requires Ready(b, s, cmd)
  {
    var event := EventOf(b, s, cmd);
    && WithinLimits(cmd)
    && s.device.ram.generation < 0xffff_ffff
    && DoesNotWrap(event) && !Runs.UpdatesUnready(s.device, event)
    && (event.CutInside? && OpShaped(event.op) ==>
          PowerCut(b.p, s.device.flash, ExecOps(b.p, s.device, event.op, event.e), event.t))
  }

  lemma PlanIsClean(b: Board, s: State, cmd: Command)
    requires Sane(b.p, s.device) && CommandShaped(cmd) && WithinLimits(cmd)
    ensures PlanOf(b, s, cmd).Ask? ==> OpClean(PlanOf(b, s, cmd).op)
  {
    hide AssertOne, Respond, SlotShaped, SlotValid, Matching, FindId, RecordOfSlot, SlotOfRecord;
    match cmd {
      case MakeCredential(_, _, record, _) => StoredSlotValid(b.se, record);
      case GetAssertion(_, _) => AssertionsOnlyCount(b, s, cmd);
      case GetNext(_, _) => AssertionsOnlyCount(b, s, cmd);
      case _ =>
    }
  }

  lemma AssertionsOnlyCount(b: Board, s: State, cmd: Command)
    requires Sane(b.p, s.device) && (cmd.GetAssertion? || cmd.GetNext?)
    ensures PlanOf(b, s, cmd).Ask? ==> PlanOf(b, s, cmd).op.UpdateCount?
  {
    hide SlotShaped, Matching, FindId, RecordOfSlot, SlotValid;
  }

  lemma LawfulSteps(b: Board, s: State, cmd: Command)
    requires Ready(b, s, cmd) && Lawful(b, s, cmd)
    ensures var event := EventOf(b, s, cmd); Runs.Step(b.p, s.device, event, StoreAfter(b, s, event))
  {
    hide PlanOf, Exec, ExecOps, Boot, SlotShaped, SlotValid, PowerCut;
    if cmd.Cut? {
      PlanIsClean(b, s, cmd.command);
      PlanShaped(b, s, cmd.command);
    } else {
      PlanIsClean(b, s, cmd);
      PlanShaped(b, s, cmd);
    }
  }

  predicate DoesNotWrap(event: Runs.Event) {
    var op := Counts.OpOf(event);
    op.Some? && op.value.UpdateCount? ==> op.value.count > 0
  }

  function StoreAfter(b: Board, s: State, event: Runs.Event): Device
    requires Sane(b.p, s.device)
  {
    match event
    case Completed(op, e) => if OpShaped(op) then Exec(b.p, s.device, op, e).device else s.device
    case CutInside(_, _, t, boot) => if FlashShaped(b.p, t) then Boot(b.p, t, boot) else s.device
    case Reboot(boot) => Boot(b.p, s.device.flash, boot)
  }

  lemma DoFollowsStore(b: Board, s: State, cmd: Command)
    requires Ready(b, s, cmd)
    ensures Do(b, s, cmd).state.device == StoreAfter(b, s, EventOf(b, s, cmd))
  {
    hide PlanOf, Boot, SlotShaped;
    PlanShaped(b, s, cmd);
    if !cmd.Restart? && !cmd.Cut? && PlanOf(b, s, cmd).Say? {
      AbsentIsNothing(b.p, s.device);
    } else {
      hide Exec;
    }
  }

  lemma AbsentIsNothing(p: Platform, d: Device)
    requires Sane(p, d)
    ensures Exec(p, d, Delete(p.maxCredentials), NO_ENTROPY) == Outcome(false, d)
  {
  }

  /** Counters are only written by assertions, one above the count they found, and that is what is answered. */
  lemma RespondCountsUp(b: Board, q: Payload, slot: nat, env: Env, done: Volatile, failed: Volatile, confirmed: bool)
    requires Shaped(b.p, q)
    ensures PlanCounts(q, Respond(b, q, slot, env, done, failed, confirmed))
  {
    hide SlotShaped, TransformSecrets;
    if slot < |q.slots| && SlotValid(q.slots[slot]) {
      TransformKeepsCount(b.se, q.slots[slot]);
    }
  }

  lemma TransformKeepsCount(se: SecureElement, s: Slot)
    requires SlotShaped(s) && s.credentialIdLength <= 32
    ensures RecordOfSlot(se, s) == EMPTY_RECORD || RecordOfSlot(se, s).signCount == s.signCount
  {
    hide SecretMask, Xored;
  }

  /** What every plan looks like to the counters. */
  predicate PlanCounts(q: Payload, plan: Plan) {
    match plan
    case Say(_, reply) => reply.answered == None
    case Ask(op, _, _, reply, _, excuse) =>
      && (op.UpdateCount? ==> Admissible(q, op) && op.count == Successor(q.slots[op.index].signCount))
      && (reply.answered.Some? ==> op.UpdateCount? && reply.answered == Some((op.index, op.count)))
      && excuse.answered == None
  }

  lemma AssertOneCountsUp(b: Board, q: Payload, recent: Option<Held<Key>>, key: Key, slot: nat, env: Env,
                          pending: Pending)
    requires Shaped(b.p, q)
    ensures PlanCounts(q, AssertOne(b, q, recent, key, slot, env, pending))
  {
    hide Respond, SlotShaped, PlanCounts;
    var (presence, left) := Present(recent, key, env);
    match presence {
      case Denied(status) => SayingCounts(q, Volatile(NoPending, left), status, false);
      case Reused => RespondCountsUp(b, q, slot, env, Volatile(pending, None), Volatile(NoPending, None), false);
      case Confirmed =>
        RespondCountsUp(b, q, slot, env, Volatile(pending, Some(Held(key, env.laterMs))), Volatile(NoPending, left),
                        true);
    }
  }

  lemma SayingCounts(q: Payload, v: Volatile, status: byte, confirmed: bool)
    ensures PlanCounts(q, Say(v, Reply(status, None, confirmed)))
  {
  }

  lemma PlanCountsUp(b: Board, s: State, cmd: Command)
    requires Sane(b.p, s.device) && CommandShaped(cmd)
    ensures PlanCounts(s.device.ram.payload, PlanOf(b, s, cmd))
  {
    hide AssertOne, Respond, SlotShaped, Matching, FindId, RecordOfSlot, SlotOfRecord, Admissible;
    var q, v := s.device.ram.payload, s.volatile;
    match cmd {
      case GetAssertion(parsed, env) =>
        if parsed.Parsed? && b.matchKey(parsed.request).Some? {
          var request, key := parsed.request, b.matchKey(parsed.request).value;
          if request.allow.Some? {
            AssertOneCountsUp(b, q, v.recent, key, FindId(q.slots, request.allow.value, 0), env, NoPending);
          } else {
            var matching := Matching(b.se, q.slots, request.rpId, 0, PENDING_MAX);
            if matching != [] {
              AssertOneCountsUp(b, q, v.recent, key, matching[0], env,
                                if |matching| > 1 then Pending(request, matching, 1, env.laterMs) else NoPending);
            }
          }
        }
      case GetNext(empty, env) =>
        if empty && PendingIsCurrent(v.pending, env.startMs) {
          var pending := v.pending;
          var advanced := if pending.next + 1 >= |pending.slots| then NoPending
                          else pending.(next := pending.next + 1, lastUsedMs := env.laterMs);
          RespondCountsUp(b, q, pending.slots[pending.next], env, v.(pending := advanced), v.(pending := NoPending),
                          false);
        }
      case _ =>
    }
  }

  /** A command that answers with an assertion has updated the counter it answers with, successfully. */
  lemma AnswerUpdates(b: Board, s: State, cmd: Command)
    requires Ready(b, s, cmd) && Do(b, s, cmd).reply.answered.Some?
    ensures var (slot, count) := Do(b, s, cmd).reply.answered.value;
      && EventOf(b, s, cmd).Completed? && EventOf(b, s, cmd).op == UpdateCount(slot, count)
      && Counts.Answers(b.p, s.device, EventOf(b, s, cmd), slot)
  {
    hide PlanOf, Exec, Boot, SlotShaped;
    PlanShaped(b, s, cmd);
    PlanCountsUp(b, s, cmd);
  }

  lemma EventCountsUp(b: Board, s: State, cmd: Command)
    requires Ready(b, s, cmd) && DoesNotWrap(EventOf(b, s, cmd))
    ensures Counts.CountsUp(s.device, EventOf(b, s, cmd))
  {
    hide PlanOf, SlotShaped, SlotValid;
    if cmd.Cut? {
      PlanCountsUp(b, s, cmd.command);
    } else {
      PlanCountsUp(b, s, cmd);
    }
  }

  /** The store's run behind a run of commands. */
  function Devices(ss: seq<State>): (ds: seq<Device>)
    ensures |ds| == |ss| && forall i :: 0 <= i < |ss| ==> ds[i] == ss[i].device
  {
    seq(|ss|, i requires 0 <= i < |ss| => ss[i].device)
  }

  function Events(b: Board, ss: seq<State>, cmds: seq<Command>): (es: seq<Runs.Event>)
    requires |cmds| <= |ss| && forall i :: 0 <= i < |cmds| ==> Ready(b, ss[i], cmds[i])
    ensures |es| == |cmds| && forall i :: 0 <= i < |cmds| ==> es[i] == EventOf(b, ss[i], cmds[i])
  {
    seq(|cmds|, i requires 0 <= i < |cmds| => EventOf(b, ss[i], cmds[i]))
  }

  predicate LawfulRun(b: Board, ss: seq<State>, cmds: seq<Command>) {
    && IsRun(b, ss, cmds)
    && Good(b.p, ss[0].device)
    && forall i :: 0 <= i < |cmds| ==> Ready(b, ss[i], cmds[i]) && Lawful(b, ss[i], cmds[i])
  }

  /** Every run of commands is a run of the store. */
  lemma StoreRunBehind(b: Board, ss: seq<State>, cmds: seq<Command>)
    requires LawfulRun(b, ss, cmds)
    ensures Runs.IsRun(b.p, Devices(ss), Events(b, ss, cmds))
    ensures forall i :: 0 <= i < |cmds| ==>
      Counts.CountsUp(Devices(ss)[i], Events(b, ss, cmds)[i])
      && !Runs.UpdatesUnready(Devices(ss)[i], Events(b, ss, cmds)[i])
  {
    hide Good, Do, Ready, EventOf, Counts.CountsUp, Runs.Step, Runs.Holds, Safe, StoreAfter, DoesNotWrap,
      WithinLimits, Runs.UpdatesUnready, PowerCut;
    var ds, es := Devices(ss), Events(b, ss, cmds);
    Runs.GoodHolds(b.p, ds[0]);
    Runs.HoldsIsSound(b.p, ds[0], ds[0].ram.payload, false);
    forall i | 0 <= i < |cmds|
      ensures Runs.Step(b.p, ds[i], es[i], ds[i + 1])
      ensures Counts.CountsUp(ds[i], es[i]) && !Runs.UpdatesUnready(ds[i], es[i])
    {
      StepAt(b, ss, cmds, i);
      LawfulSteps(b, ss[i], cmds[i]);
      DoFollowsStore(b, ss[i], cmds[i]);
      EventCountsUp(b, ss[i], cmds[i]);
    }
  }

  /** The count a command answers with for a slot. */
  predicate AnswersWith(b: Board, s: State, cmd: Command, slot: nat, count: u32) {
    Ready(b, s, cmd) && Do(b, s, cmd).reply.answered == Some((slot, count))
  }

  predicate CreatesIn(b: Board, s: State, cmd: Command, slot: nat) {
    Ready(b, s, cmd) && Counts.CreatesIn(s.device, EventOf(b, s, cmd), slot)
  }

  /** Signature counters never repeat: over any run of commands, writes, power cuts and restarts, a later
      getAssertion or getNextAssertion for a credential answers with a strictly greater count than every earlier
      one (section 6.1.1 of WebAuthn Level 2). */
  lemma AnswersNeverRepeat(b: Board, ss: seq<State>, cmds: seq<Command>, first: nat, second: nat, slot: nat,
                           early: u32, late: u32)
    requires LawfulRun(b, ss, cmds) && first < second < |cmds|
    requires AnswersWith(b, ss[first], cmds[first], slot, early)
    requires AnswersWith(b, ss[second], cmds[second], slot, late)
    requires forall i :: first < i < second ==> !CreatesIn(b, ss[i], cmds[i], slot)
    ensures early < late
  {
    hide Good, Do, IsRun, EventOf, Lawful, Counts.Answers, Counts.CountsUp, Counts.CreatesIn, Runs.IsRun,
      Runs.UpdatesUnready;
    RunLength(b, ss, cmds);
    StoreRunBehind(b, ss, cmds);
    AnswerUpdates(b, ss[first], cmds[first]);
    AnswerUpdates(b, ss[second], cmds[second]);
    var ds, es := Devices(ss), Events(b, ss, cmds);
    forall i | first < i < second
      ensures !Counts.CreatesIn(ds[i], es[i], slot)
    {
      assert !CreatesIn(b, ss[i], cmds[i], slot);
    }
    Counts.CountsNeverRepeat(b.p, ds, es, first, second, slot);
  }

  lemma RunLength(b: Board, ss: seq<State>, cmds: seq<Command>)
    requires IsRun(b, ss, cmds)
    ensures |ss| == |cmds| + 1
  {
  }
}
