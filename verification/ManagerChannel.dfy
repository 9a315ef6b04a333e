/** The manager's USB channel: framing, short-lived authorization and the writes it guards. */
module ManagerChannel {
  import opened Bits
  import opened Words
  import opened StoreFormat
  import opened TimedGrants

  const HEADER: nat := 10
  const TOKEN_SIZE: nat := 16
  const AUTH_TTL_MS: nat := 120000
  const CREDENTIAL_WRITE: u16 := 1
  const USER_PRESENCE_WRITE: u16 := 2
  const CREDENTIAL_READ: u16 := 4
  const STATUS_OK: byte := 0
  const INVALID_REQUEST: byte := 1
  const UNSUPPORTED_COMMAND: byte := 2
  const AUTH_REQUIRED: byte := 4
  const CONFIRMATION_REQUIRED: byte := 5
  const CMD_SUMMARIES: byte := 3
  const CMD_AUTHORIZE: byte := 5
  const CMD_DELETE: byte := 6
  const CMD_SET_UP: byte := 7
  const CMD_SET_UP_SESSION: byte := 8
  const CMD_CLEAR_UP_SESSION: byte := 9

  datatype Grant = Grant(token: Bytes16, permissions: u16)

  datatype Frame = BadFrame | Frame(cmd: byte, payload: seq<byte>)

  /** The checks at the head of tud_vendor_rx_cb: magic "MKM1", protocol version 1, exact length. */
  function ParseFrame(b: seq<byte>): Frame {
    if |b| < HEADER || b[0] != 77 || b[1] != 75 || b[2] != 77 || b[3] != 49 || b[4] != 1 then BadFrame
    else if ReadLe16(b, 8) != |b| - HEADER then BadFrame
    else Frame(b[5], b[HEADER..])
  }

  /** parse_manager_permission_request */
  function ParsePermissions(payload: seq<byte>): Option<u16> {
    if |payload| != 2 then None
    else if ReadLe16(payload, 0) == 0
      || ReadLe16(payload, 0) > CREDENTIAL_WRITE + USER_PRESENCE_WRITE + CREDENTIAL_READ then None
    else Some(ReadLe16(payload, 0))
  }

  /** What a command does beyond answering. */
  datatype Effect =
    | NoEffect
    | Deletes(slot: u16)
    | WritesUp(config: UpConfig)
    | WritesUpSession(config: UpConfig)
    | ClearsUpSession
    | ReadsSummaries(cursor: u16, limit: u16)

  /** A guarded command: the token it presents, the permission it needs, and what it does once it is let through. */
  datatype Guarded = Unguarded | Malformed | Guarded(token: Bytes16, permission: u16, effect: Effect)

  function UpConfigAt(payload: seq<byte>, at: nat): UpConfig
    requires at + 8 <= |payload|
  {
    UpConfig(payload[at], payload[at + 1], payload[at + 2], payload[at + 3], ReadLe16(payload, at + 4),
             ReadLe16(payload, at + 6))
  }

  function PageLimit(requested: u16): u16 {
    if requested == 0 then 8 else if requested > 16 then 16 else requested
  }

  /** Which commands are guarded, and by what; summaries are guarded in the builds that ask for it. */
  function Guard(summariesGuarded: bool, f: Frame): Guarded {
    if f.BadFrame? then Unguarded
    else
      var p := f.payload;
      if f.cmd == CMD_DELETE then
        if |p| != TOKEN_SIZE + 2 then Malformed
        else Guarded(p[..16], CREDENTIAL_WRITE, Deletes(ReadLe16(p, 16)))
      else if f.cmd == CMD_SET_UP || f.cmd == CMD_SET_UP_SESSION then
        if |p| != TOKEN_SIZE + 8 then Malformed
        else
          var config := UpConfigAt(p, 16);
          Guarded(p[..16], USER_PRESENCE_WRITE,
                  if f.cmd == CMD_SET_UP then WritesUp(config) else WritesUpSession(config))
      else if f.cmd == CMD_CLEAR_UP_SESSION then
        if |p| != TOKEN_SIZE then Malformed else Guarded(p[..16], USER_PRESENCE_WRITE, ClearsUpSession)
      else if f.cmd == CMD_SUMMARIES && summariesGuarded then
        if |p| == TOKEN_SIZE + 4 then
          Guarded(p[..16], CREDENTIAL_READ, ReadsSummaries(ReadLe16(p, 16), PageLimit(ReadLe16(p, 18))))
        else if |p| == 0 || |p| == 4 then Guarded(Zeros(16), 0, NoEffect)
        else Malformed
      else Unguarded
  }

  /** One thing that happens to the channel: a frame arrives at time `now`, and if it asks for authorization the
      wait for the user ends with `presence` at time `later`; or the channel is initialised again, at power-up and
      when USB is unplugged. */
  datatype Happening =
    | Received(frame: seq<byte>, now: nat, presence: byte, later: nat, drawn: Bytes16)
    | Initialised

  /** An authorization that was granted. */
  predicate Granted(h: Happening, permissions: u16) {
    && h.Received? && h.presence == STATUS_OK
    && var f := ParseFrame(h.frame);
       f.Frame? && f.cmd == CMD_AUTHORIZE && ParsePermissions(f.payload) == Some(permissions)
  }

  /** What the authorization state sees of it. */
  function Seen(summariesGuarded: bool, h: Happening): GrantEvent<Grant> {
    match h
    case Initialised => Revoked
    case Received(frame, now, presence, later, drawn) =>
      var f := ParseFrame(frame);
      if f.BadFrame? then Idle
      else if f.cmd == CMD_AUTHORIZE then
        var permissions := ParsePermissions(f.payload);
        if permissions.Some? && presence == STATUS_OK then Issued(Grant(drawn, permissions.value), later) else Idle
      else if Guard(summariesGuarded, f).Guarded? && Guard(summariesGuarded, f).permission != 0 then Checked(now)
      else Idle
  }

  /** manager_auth_verify */
  predicate LetThrough(held: Option<Held<Grant>>, g: Guarded, now: nat)
    requires g.Guarded?
  {
    && g.permission != 0
    && Usable(held, AUTH_TTL_MS, now)
    && And(held.value.grant.permissions, g.permission) != 0
    && held.value.grant.token == g.token
  }

  /** The effect of a happening, before the store has its say. */
  function EffectOf(summariesGuarded: bool, held: Option<Held<Grant>>, h: Happening): Effect {
    if h.Initialised? then NoEffect
    else
      var g := Guard(summariesGuarded, ParseFrame(h.frame));
      if g.Guarded? && LetThrough(held, g, h.now) then g.effect else NoEffect
  }

  // ---- The object ----

  class Channel {
    const summariesGuarded: bool
    var active: bool
    var token: Bytes16
    var permissions: u16
    var issuedAtMs: nat

    ghost function Auth(): Option<Held<Grant>>
      reads this
    {
      if active then Some(Held(Grant(token, permissions), issuedAtMs)) else None
    }

    constructor (summariesGuarded: bool)
      ensures Auth() == None && this.summariesGuarded == summariesGuarded
    {
      this.summariesGuarded := summariesGuarded;
      active, token, permissions, issuedAtMs := false, Zeros(16), 0, 0;
    }

    /** manager_auth_clear, and so meowkey_manager_init */
    method Clear()
      modifies this
      ensures Auth() == None
    {
      active, token, permissions, issuedAtMs := false, Zeros(16), 0, 0;
    }

    /** manager_auth_is_active */
    method IsActive(now: nat) returns (ok: bool)
      modifies this
      ensures ok == Usable(old(Auth()), AUTH_TTL_MS, now)
      ensures Auth() == Next(old(Auth()), AUTH_TTL_MS, Checked(now))
    {
      if !active {
        return false;
      }
      if now - issuedAtMs > AUTH_TTL_MS {
        Clear();
        return false;
      }
      ok := true;
    }

    /** manager_auth_verify */
    method Verify(provided: Bytes16, permission: u16, now: nat) returns (ok: bool)
      requires permission != 0
      modifies this
      ensures ok == LetThrough(old(Auth()), Guarded(provided, permission, NoEffect), now)
      ensures Auth() == Next(old(Auth()), AUTH_TTL_MS, Checked(now))
    {
      var usable := IsActive(now);
      if !usable {
        return false;
      }
      if And(permissions, permission) == 0 {
        return false;
      }
      ok := provided == token;
    }

    /** tud_vendor_rx_cb: the effect is what the store or the user-presence module is asked to do, and `done` is
        their answer to being asked. */
    method Receive(h: Happening, done: Effect -> bool) returns (status: byte, effect: Effect)
      requires h.Received?
      modifies this
      ensures effect == EffectOf(summariesGuarded, old(Auth()), h)
      ensures Auth() == Next(old(Auth()), AUTH_TTL_MS, Seen(summariesGuarded, h))
      ensures effect != NoEffect ==> status == if done(effect) then STATUS_OK else INVALID_REQUEST
      ensures var f, g := ParseFrame(h.frame), Guard(summariesGuarded, ParseFrame(h.frame));
        && (f.BadFrame? || g.Malformed? ==> status == INVALID_REQUEST)
        && (g.Guarded? && effect == NoEffect ==> status == AUTH_REQUIRED)
        && (f.Frame? && f.cmd == CMD_AUTHORIZE ==>
             status == if ParsePermissions(f.payload).None? then INVALID_REQUEST
                       else if h.presence != STATUS_OK then CONFIRMATION_REQUIRED else STATUS_OK)
        && (f.Frame? && g.Unguarded? && f.cmd == CMD_SUMMARIES ==>
             status == if |f.payload| == 0 || |f.payload| == 4 || |f.payload| == TOKEN_SIZE + 4
                       then STATUS_OK else INVALID_REQUEST)
        && (f.Frame? && (f.cmd == 1 || f.cmd == 2 || f.cmd == 4) ==>
             status == if f.payload == [] then STATUS_OK else INVALID_REQUEST)
        && (f.Frame? && (f.cmd == 0 || f.cmd > CMD_CLEAR_UP_SESSION) ==> status == UNSUPPORTED_COMMAND)
    {
      effect := NoEffect;
      var f := ParseFrame(h.frame);
      if f.BadFrame? {
        return INVALID_REQUEST, NoEffect;
      }
      var p := f.payload;
      match f.cmd {
        case 5 =>
          var requested := ParsePermissions(p);
          if requested.None? {
            return INVALID_REQUEST, NoEffect;
          }
          if h.presence != STATUS_OK {
            return CONFIRMATION_REQUIRED, NoEffect;
          }
          active, token, permissions, issuedAtMs := true, h.drawn, requested.value, h.later;
          status := STATUS_OK;
        case 6 =>
          if |p| != TOKEN_SIZE + 2 {
            return INVALID_REQUEST, NoEffect;
          }
          status, effect := Perform(p[..16], CREDENTIAL_WRITE, Deletes(ReadLe16(p, 16)), h.now, done);
        case 7 =>
          if |p| != TOKEN_SIZE + 8 {
            return INVALID_REQUEST, NoEffect;
          }
          status, effect := Perform(p[..16], USER_PRESENCE_WRITE, WritesUp(UpConfigAt(p, 16)), h.now, done);
        case 8 =>
          if |p| != TOKEN_SIZE + 8 {
            return INVALID_REQUEST, NoEffect;
          }
          status, effect := Perform(p[..16], USER_PRESENCE_WRITE, WritesUpSession(UpConfigAt(p, 16)), h.now, done);
        case 9 =>
          if |p| != TOKEN_SIZE {
            return INVALID_REQUEST, NoEffect;
          }
          status, effect := Perform(p[..16], USER_PRESENCE_WRITE, ClearsUpSession, h.now, done);
        case 3 =>
          if |p| != 0 && |p| != 4 && |p| != TOKEN_SIZE + 4 {
            return INVALID_REQUEST, NoEffect;
          }
          if !summariesGuarded {
            return STATUS_OK, NoEffect;
          }
          if |p| != TOKEN_SIZE + 4 {
            return AUTH_REQUIRED, NoEffect;
          }
          status, effect := Perform(p[..16], CREDENTIAL_READ,
                                    ReadsSummaries(ReadLe16(p, 16), PageLimit(ReadLe16(p, 18))), h.now, done);
        case 1 | 2 | 4 => status := if |p| == 0 then STATUS_OK else INVALID_REQUEST;
        case _ => status := UNSUPPORTED_COMMAND;
      }
    }

    /** The common shape of the guarded commands. */
    method Perform(provided: Bytes16, permission: u16, wanted: Effect, now: nat, done: Effect -> bool)
      returns (status: byte, effect: Effect)
      requires permission != 0 && wanted != NoEffect
      modifies this
      ensures Auth() == Next(old(Auth()), AUTH_TTL_MS, Checked(now))
      ensures effect == if LetThrough(old(Auth()), Guarded(provided, permission, wanted), now) then wanted else NoEffect
      ensures status == if effect == NoEffect then AUTH_REQUIRED else if done(effect) then STATUS_OK
        else INVALID_REQUEST
    {
      var ok := Verify(provided, permission, now);
      if !ok {
        return AUTH_REQUIRED, NoEffect;
      }
      effect := wanted;
      status := if done(effect) then STATUS_OK else INVALID_REQUEST;
    }
  }

  // ---- Runs ----

  function Trace(summariesGuarded: bool, run: seq<Happening>): (r: seq<GrantEvent<Grant>>)
    ensures |r| == |run| && forall i :: 0 <= i < |run| ==> r[i] == Seen(summariesGuarded, run[i])
  {
    seq(|run|, i requires 0 <= i < |run| => Seen(summariesGuarded, run[i]))
  }

  /** The authorization state after a run. */
  function AuthAfter(summariesGuarded: bool, run: seq<Happening>): Option<Held<Grant>> {
    After(AUTH_TTL_MS, Trace(summariesGuarded, run))
  }

  /** The clock does not run backwards. */
  predicate InTime(run: seq<Happening>, now: nat) {
    && (forall i :: 0 <= i < |run| && run[i].Received? ==> run[i].now <= run[i].later <= now)
    && (forall i, j :: 0 <= i < j < |run| && run[i].Received? && run[j].Received? ==> run[i].later <= run[j].now)
  }

  /** Authorization `i` was granted after user presence, with this token and this permission, is not older than
      120 s, and has not been replaced or reset since. */
  ghost predicate Authorizes(run: seq<Happening>, i: nat, token: Bytes16, permission: u16, now: nat) {
    && i < |run| && run[i].Received? && run[i].drawn == token && now - run[i].later <= AUTH_TTL_MS
    && (exists permissions: u16 :: Granted(run[i], permissions) && And(permissions, permission) != 0)
    && forall j :: i < j < |run| ==> run[j].Received? && forall other: u16 :: !Granted(run[j], other)
  }

  lemma StandsIsAuthorizes(summariesGuarded: bool, run: seq<Happening>, i: nat, grant: Grant, permission: u16, now: nat)
    requires And(grant.permissions, permission) != 0
    ensures Stands(Trace(summariesGuarded, run), i, grant, AUTH_TTL_MS, now) ==>
      Authorizes(run, i, grant.token, permission, now)
  {
    var events := Trace(summariesGuarded, run);
    if Stands(events, i, grant, AUTH_TTL_MS, now) {
      assert events[i] == Seen(summariesGuarded, run[i]);
      assert Granted(run[i], grant.permissions);
      forall j | i < j < |run|
        ensures run[j].Received? && forall other: u16 :: !Granted(run[j], other)
      {
        assert events[j] == Seen(summariesGuarded, run[j]);
      }
    }
  }

  lemma AuthorizesStands(summariesGuarded: bool, run: seq<Happening>, i: nat, token: Bytes16, permission: u16, now: nat)
      returns (grant: Grant)
    requires Authorizes(run, i, token, permission, now)
    ensures grant.token == token && And(grant.permissions, permission) != 0
    ensures Stands(Trace(summariesGuarded, run), i, grant, AUTH_TTL_MS, now)
  {
    var permissions: u16 :| Granted(run[i], permissions) && And(permissions, permission) != 0;
    grant := Grant(token, permissions);
    var events := Trace(summariesGuarded, run);
    assert events[i] == Seen(summariesGuarded, run[i]);
    forall j | i < j < |events|
      ensures events[j].Checked? || events[j].Idle?
    {
      assert events[j] == Seen(summariesGuarded, run[j]);
      if events[j].Issued? {
        assert Granted(run[j], events[j].grant.permissions);
      }
    }
  }

  lemma TraceOrdered(summariesGuarded: bool, run: seq<Happening>, now: nat)
    requires InTime(run, now)
    ensures Ordered(Trace(summariesGuarded, run), now)
  {
    var events := Trace(summariesGuarded, run);
    forall i | 0 <= i < |events| && Time(events[i]).Some?
      ensures run[i].Received? && run[i].now <= Time(events[i]).value <= run[i].later <= now
    {
      assert events[i] == Seen(summariesGuarded, run[i]);
    }
  }

  /** Timed authorization over runs: after any run of frames, re-initialisations and other commands, a guarded
      command takes effect if and only if a granted AUTHORIZE carried its permission and its token, at most 120 s
      ago, and nothing has replaced or reset it since. */
  lemma GuardedEffectIff(summariesGuarded: bool, run: seq<Happening>, h: Happening)
    requires h.Received? && InTime(run, h.now)
    requires Guard(summariesGuarded, ParseFrame(h.frame)).Guarded?
    requires Guard(summariesGuarded, ParseFrame(h.frame)).effect != NoEffect
    ensures var g := Guard(summariesGuarded, ParseFrame(h.frame));
      (EffectOf(summariesGuarded, AuthAfter(summariesGuarded, run), h) == g.effect)
        <==> exists i :: Authorizes(run, i, g.token, g.permission, h.now)
    ensures var g := Guard(summariesGuarded, ParseFrame(h.frame));
      EffectOf(summariesGuarded, AuthAfter(summariesGuarded, run), h) != g.effect ==>
        EffectOf(summariesGuarded, AuthAfter(summariesGuarded, run), h) == NoEffect
  {
    hide Authorizes, Stands, Ordered, And, InTime, Guard, ParseFrame;
    var g := Guard(summariesGuarded, ParseFrame(h.frame));
    var events := Trace(summariesGuarded, run);
    var held := AuthAfter(summariesGuarded, run);
    TraceOrdered(summariesGuarded, run, h.now);
    EffectNeedsPermission(summariesGuarded, ParseFrame(h.frame));
    if LetThrough(held, g, h.now) {
      UsableIff(AUTH_TTL_MS, events, held.value.grant, h.now);
      var i :| Stands(events, i, held.value.grant, AUTH_TTL_MS, h.now);
      StandsIsAuthorizes(summariesGuarded, run, i, held.value.grant, g.permission, h.now);
    }
    if i :| Authorizes(run, i, g.token, g.permission, h.now) {
      var grant := AuthorizesStands(summariesGuarded, run, i, g.token, g.permission, h.now);
      UsableIff(AUTH_TTL_MS, events, grant, h.now);
    }
  }

  lemma EffectNeedsPermission(summariesGuarded: bool, f: Frame)
    ensures var g := Guard(summariesGuarded, f);
      g.Guarded? && g.effect != NoEffect ==> g.permission != 0
  {
  }
}
