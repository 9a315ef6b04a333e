/** What a frame on the manager's channel can bring about, byte by byte: every effect has its own command, argument and
    permission, and takes a standing authorization. */
module ManagerEffects {
  import opened Bits
  import opened Words
  import opened StoreFormat
  import opened TimedGrants
  import opened ManagerChannel

  /** "MKM1", protocol version 1, the command, two bytes that are not looked at, the length, the payload. */
  predicate IsFrame(b: seq<byte>, cmd: byte, payload: seq<byte>) {
    && |b| == 10 + |payload|
    && b[0] == 0x4d && b[1] == 0x4b && b[2] == 0x4d && b[3] == 0x31 && b[4] == 1 && b[5] == cmd
    && b[8] as int + 256 * b[9] as int == |payload|
    && b[10..] == payload
  }

  lemma FrameIff(b: seq<byte>, cmd: byte, payload: seq<byte>)
    ensures ParseFrame(b) == Frame(cmd, payload) <==> IsFrame(b, cmd, payload)
  {
  }

  function ConfigBytes(c: UpConfig): (r: seq<byte>)
    ensures |r| == 8
  {
    [c.source, c.gpioPin, c.gpioActiveLow, c.tapCount] + Le16(c.gestureWindowMs) + Le16(c.requestTimeoutMs)
  }

  /** The frame asks for `effect` and presents `token`. */
  ghost predicate Carries(b: seq<byte>, token: Bytes16, effect: Effect) {
    match effect
    case NoEffect => false
    case Deletes(slot) => IsFrame(b, 6, token + Le16(slot))
    case WritesUp(config) => IsFrame(b, 7, token + ConfigBytes(config))
    case WritesUpSession(config) => IsFrame(b, 8, token + ConfigBytes(config))
    case ClearsUpSession => IsFrame(b, 9, token)
    case ReadsSummaries(cursor, limit) =>
      exists asked: u16 ::
        IsFrame(b, 3, token + Le16(cursor) + Le16(asked)) && limit == if asked == 0 then 8 else Min(asked, 16)
  }

  /** Deleting takes permission 1, the user-presence configuration permission 2, the catalogue permission 4. */
  function Needed(effect: Effect): u16 {
    if effect.Deletes? then 1 else if effect.ReadsSummaries? then 4 else 2
  }

  lemma Le16Splits(p: seq<byte>, token: seq<byte>, n: u16)
    requires |token| == 16
    ensures p == token + Le16(n) <==> |p| == 18 && p[..16] == token && ReadLe16(p, 16) == n
  {
    if |p| == 18 && p[..16] == token {
      assert p == token + p[16..];
      ReadLe16At(token + Le16(n), 16, n);
      Le16OfRead(p, 16);
    }
    if p == token + Le16(n) {
      assert p[16..18] == Le16(n);
      ReadLe16At(p, 16, n);
    }
  }

  lemma Le16OfRead(p: seq<byte>, at: nat)
    requires at + 2 <= |p|
    ensures Le16(ReadLe16(p, at)) == p[at..at + 2]
  {
  }

  lemma Le16Pair(p: seq<byte>, token: seq<byte>, m: u16, n: u16)
    requires |token| == 16
    ensures p == token + Le16(m) + Le16(n)
       <==> |p| == 20 && p[..16] == token && ReadLe16(p, 16) == m && ReadLe16(p, 18) == n
  {
    if |p| == 20 {
      assert p == p[..18] + p[18..];
      assert p[..18][..16] == p[..16];
      Le16Splits(p[..18], token, m);
      Le16OfRead(p, 18);
    }
    if p == token + Le16(m) + Le16(n) {
      assert p[..18] == token + Le16(m) && p[18..20] == Le16(n);
      ReadLe16At(p, 16, m);
      ReadLe16At(p, 18, n);
    }
  }

  lemma ConfigSplits(p: seq<byte>, token: seq<byte>, c: UpConfig)
    requires |token| == 16
    ensures p == token + ConfigBytes(c) <==> |p| == 24 && p[..16] == token && UpConfigAt(p, 16) == c
  {
    if |p| == 24 && p[..16] == token && UpConfigAt(p, 16) == c {
      Le16OfRead(p, 20);
      Le16OfRead(p, 22);
      assert p[16..24] == ConfigBytes(c);
      assert p == token + p[16..24];
    }
    if p == token + ConfigBytes(c) {
      assert p[16..24] == ConfigBytes(c);
      assert p[20..22] == Le16(c.gestureWindowMs) && p[22..24] == Le16(c.requestTimeoutMs);
      ReadLe16At(p, 20, c.gestureWindowMs);
      ReadLe16At(p, 22, c.requestTimeoutMs);
    }
  }

  /** What the guard lets a frame ask for is what its bytes carry, under the permission that takes. */
  lemma GuardIff(summariesGuarded: bool, b: seq<byte>, token: Bytes16, effect: Effect)
    requires effect != NoEffect
    ensures Guard(summariesGuarded, ParseFrame(b)) == Guarded(token, Needed(effect), effect)
       <==> Carries(b, token, effect) && (effect.ReadsSummaries? ==> summariesGuarded)
  {
    hide ReadLe16, Le16, ParseFrame, IsFrame, ConfigBytes, UpConfigAt;
    var f := ParseFrame(b);
    if f.Frame? {
      var p := f.payload;
      FrameIff(b, f.cmd, p);
      match effect {
        case Deletes(slot) =>
          Le16Splits(p, token, slot);
          FrameIff(b, 6, token + Le16(slot));
        case WritesUp(config) =>
          ConfigSplits(p, token, config);
          FrameIff(b, 7, token + ConfigBytes(config));
        case WritesUpSession(config) =>
          ConfigSplits(p, token, config);
          FrameIff(b, 8, token + ConfigBytes(config));
        case ClearsUpSession => FrameIff(b, 9, token);
        case ReadsSummaries(cursor, limit) => SummariesIff(summariesGuarded, b, token, cursor, limit);
      }
    } else {
      NoFrameCarriesNothing(b, token, effect);
    }
  }

  lemma SummariesIff(summariesGuarded: bool, b: seq<byte>, token: Bytes16, cursor: u16, limit: u16)
    ensures Guard(summariesGuarded, ParseFrame(b)) == Guarded(token, 4, ReadsSummaries(cursor, limit))
       <==> Carries(b, token, ReadsSummaries(cursor, limit)) && summariesGuarded
  {
    hide ReadLe16, Le16, ParseFrame, IsFrame, UpConfigAt;
    var f := ParseFrame(b);
    if f.Frame? && |f.payload| == 20 {
      var asked := ReadLe16(f.payload, 18);
      Le16Pair(f.payload, token, cursor, asked);
      FrameIff(b, 3, token + Le16(cursor) + Le16(asked));
    }
    if asked: u16 :| IsFrame(b, 3, token + Le16(cursor) + Le16(asked))
                     && limit == if asked == 0 then 8 else Min(asked, 16) {
      FrameIff(b, 3, token + Le16(cursor) + Le16(asked));
      Le16Pair(f.payload, token, cursor, asked);
    }
  }

  lemma NoFrameCarriesNothing(b: seq<byte>, token: Bytes16, effect: Effect)
    requires ParseFrame(b).BadFrame?
    ensures !Carries(b, token, effect)
  {
    hide ConfigBytes, Le16;
    forall cmd: byte, payload: seq<byte>
      ensures !IsFrame(b, cmd, payload)
    {
      FrameIff(b, cmd, payload);
    }
  }

  // ---- Authorizations ----

  /** The frame asks for these permissions, some of 1, 2 and 4. */
  predicate AsksFor(b: seq<byte>, permissions: u16) {
    1 <= permissions <= 7 && IsFrame(b, 5, Le16(permissions))
  }

  /** An AUTHORIZE the user confirmed. */
  predicate Authorized(h: Happening, permissions: u16) {
    h.Received? && h.presence == 0 && AsksFor(h.frame, permissions)
  }

  lemma GrantedIff(h: Happening, permissions: u16)
    ensures Granted(h, permissions) <==> Authorized(h, permissions)
  {
    if h.Received? {
      var f := ParseFrame(h.frame);
      if f.Frame? && |f.payload| == 2 {
        Le16OfRead(f.payload, 0);
        assert f.payload == f.payload[0..2];
      }
      ReadLe16At(Le16(permissions), 0, permissions);
      assert Le16(permissions) == Le16(permissions)[0..2];
      FrameIff(h.frame, 5, Le16(permissions));
      if f.Frame? {
        FrameIff(h.frame, f.cmd, f.payload);
      }
    }
  }

  /** Bit `bit` (1, 2 or 4) is set. */
  predicate Includes(permissions: u16, bit: u16)
    requires bit > 0
  {
    permissions / bit % 2 == 1
  }

  lemma IncludesIff(permissions: u16, bit: u16)
    requires permissions <= 7 && (bit == 1 || bit == 2 || bit == 4)
    ensures And(permissions, bit) != 0 <==> Includes(permissions, bit)
  {
    if bit == 1 {
      AndWithOne(permissions);
    } else if bit == 2 {
      AndWithOne(permissions / 2);
    } else {
      AndWithOne(permissions / 4);
    }
  }

  lemma AndWithOne(n: nat)
    ensures And(n, 1) == n % 2
  {
  }

  /** An authorization with this token and permission stands: confirmed by the user at most 120 s ago, not replaced by
      another, and the channel not initialised since. */
  ghost predicate Standing(run: seq<Happening>, token: Bytes16, bit: u16, now: nat)
    requires bit > 0
  {
    exists i: nat, permissions: u16 :: StandsSince(run, i, token, permissions, now) && Includes(permissions, bit)
  }

  ghost predicate StandsSince(run: seq<Happening>, i: nat, token: Bytes16, permissions: u16, now: nat) {
    && i < |run| && Authorized(run[i], permissions) && run[i].drawn == token && now - run[i].later <= 120000
    && forall j :: i < j < |run| ==> run[j].Received? && forall other: u16 :: !Authorized(run[j], other)
  }

  lemma StandingIff(run: seq<Happening>, token: Bytes16, bit: u16, now: nat)
    requires bit == 1 || bit == 2 || bit == 4
    ensures (exists i: nat :: Authorizes(run, i, token, bit, now)) <==> Standing(run, token, bit, now)
  {
    hide Authorized, Granted, And, Includes;
    forall h: Happening, permissions: u16
      ensures Granted(h, permissions) <==> Authorized(h, permissions)
      ensures Authorized(h, permissions) ==> (And(permissions, bit) != 0 <==> Includes(permissions, bit))
    {
      GrantedIff(h, permissions);
      if Authorized(h, permissions) {
        AuthorizedIsSmall(h, permissions);
        IncludesIff(permissions, bit);
      }
    }
    if exists i: nat :: Authorizes(run, i, token, bit, now) {
      var i: nat :| Authorizes(run, i, token, bit, now);
      var permissions: u16 :| Granted(run[i], permissions) && And(permissions, bit) != 0;
      assert StandsSince(run, i, token, permissions, now) && Includes(permissions, bit);
    }
    if Standing(run, token, bit, now) {
      var i: nat, permissions: u16 :| StandsSince(run, i, token, permissions, now) && Includes(permissions, bit);
      AuthorizedIsSmall(run[i], permissions);
      assert Granted(run[i], permissions) && And(permissions, bit) != 0;
      assert Authorizes(run, i, token, bit, now);
    }
  }

  lemma AuthorizedIsSmall(h: Happening, permissions: u16)
    requires Authorized(h, permissions)
    ensures h.Received? && permissions <= 7
  {
  }

  // ---- Effects ----

  /** The exact condition of every effect, over every run of frames and resets: the frame carries it with a token for
      which an authorization with its own permission stands. There is no other way to it. */
  lemma EffectIff(summariesGuarded: bool, run: seq<Happening>, h: Happening, effect: Effect)
    requires h.Received? && InTime(run, h.now) && effect != NoEffect
    ensures EffectOf(summariesGuarded, AuthAfter(summariesGuarded, run), h) == effect
       <==> (effect.ReadsSummaries? ==> summariesGuarded)
            && exists token :: Carries(h.frame, token, effect) && Standing(run, token, Needed(effect), h.now)
  {
    hide Guard, ParseFrame, Carries, Standing, InTime, Authorizes, AuthAfter, Needed, EffectOf;
    var g := Guard(summariesGuarded, ParseFrame(h.frame));
    var made := EffectOf(summariesGuarded, AuthAfter(summariesGuarded, run), h);
    MadeIsGuarded(summariesGuarded, run, h);
    NeededBits(effect);
    if made == effect {
      GuardNeeds(summariesGuarded, ParseFrame(h.frame));
      GuardedEffectIff(summariesGuarded, run, h);
      GuardIff(summariesGuarded, h.frame, g.token, effect);
      StandingIff(run, g.token, Needed(effect), h.now);
    }
    if (effect.ReadsSummaries? ==> summariesGuarded)
       && exists token :: Carries(h.frame, token, effect) && Standing(run, token, Needed(effect), h.now) {
      var token :| Carries(h.frame, token, effect) && Standing(run, token, Needed(effect), h.now);
      GuardIff(summariesGuarded, h.frame, token, effect);
      StandingIff(run, token, Needed(effect), h.now);
      GuardedEffectIff(summariesGuarded, run, h);
    }
  }

  lemma NeededBits(effect: Effect)
    ensures Needed(effect) == 1 || Needed(effect) == 2 || Needed(effect) == 4
  {
  }

  lemma MadeIsGuarded(summariesGuarded: bool, run: seq<Happening>, h: Happening)
    requires h.Received?
    ensures var g, made := Guard(summariesGuarded, ParseFrame(h.frame)),
                           EffectOf(summariesGuarded, AuthAfter(summariesGuarded, run), h);
      made != NoEffect ==> g.Guarded? && g.effect == made
  {
    hide Guard, ParseFrame, AuthAfter, LetThrough;
  }

  lemma GuardNeeds(summariesGuarded: bool, f: Frame)
    ensures var g := Guard(summariesGuarded, f);
      g.Guarded? && g.effect != NoEffect ==> g.permission == Needed(g.effect)
  {
  }
}
