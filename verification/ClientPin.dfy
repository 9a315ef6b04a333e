/** The PIN protocol of the authenticator (section 6.5 of CTAP 2.1): the retry counter kept in the store, and the
    runtime token kept in RAM. */
module ClientPin {
  import opened Bits
  import opened StoreFormat
  import opened TimedGrants

  const OK: byte := 0x00
  const INVALID_CBOR: byte := 0x12
  const MISSING_PARAMETER: byte := 0x14
  const UNSUPPORTED_OPTION: byte := 0x2b
  const PIN_INVALID: byte := 0x31
  const PIN_BLOCKED: byte := 0x32
  const PIN_AUTH_INVALID: byte := 0x33
  const PIN_NOT_SET: byte := 0x35
  const PIN_REQUIRED: byte := 0x36
  const PIN_POLICY_VIOLATION: byte := 0x37
  const PIN_TOKEN_EXPIRED: byte := 0x38
  const RETRIES: byte := 8
  const TOKEN_LIFETIME_MS: nat := 30000

  /** Key agreement, HMAC, AES-CBC and SHA-256; None where the crypto library fails. */
  datatype Crypto = Crypto(
    derive: seq<byte> -> Option<Bytes32>,
    hmac: (Bytes32, seq<byte>) -> Option<Bytes32>,
    decrypt: (Bytes32, seq<byte>) -> Option<seq<byte>>,
    canEncrypt: (Bytes32, seq<byte>) -> bool,
    sha256: seq<byte> -> Option<Bytes32>)

  /** The optional parameters of a clientPIN request. */
  datatype Request = Request(
    keyAgreement: Option<seq<byte>>, authParam: Option<seq<byte>>, newPinEnc: Option<seq<byte>>,
    pinHashEnc: Option<seq<byte>>)

  datatype PinState = PinState(configured: bool, retries: byte, hash: Bytes16)

  /** The PIN state in RAM, the one a reboot would recover, and the runtime token. */
  datatype Pins = Pins(live: PinState, stored: PinState, token: Option<Held<Bytes32>>)

  datatype Answer = Answer(pins: Pins, status: byte)

  // ---- Handlers, on values ----

  /** validate_shared_secret_hmac */
  predicate Authentic(c: Crypto, secret: Bytes32, message: seq<byte>, param: seq<byte>) {
    var expected := c.hmac(secret, message);
    |param| == 16 && expected.Some? && expected.value[..16] == param
  }

  /** The length of the PIN: up to the first zero byte. */
  function PinLength(s: seq<byte>): (n: nat)
    ensures n <= |s| && (forall i :: 0 <= i < n ==> s[i] != 0) && (n < |s| ==> s[n] == 0)
  {
    if s == [] || s[0] == 0 then 0 else 1 + PinLength(s[1..])
  }

  datatype NewPin = Refused(status: byte) | NewPin(hash: Bytes16)

  /** parse_new_pin_hash */
  function ParseNewPin(c: Crypto, secret: Bytes32, enc: seq<byte>): NewPin {
    match c.decrypt(secret, enc)
    case None => Refused(INVALID_CBOR)
    case Some(pin) =>
      var n := PinLength(pin);
      if n < 4 || n > 63 then Refused(PIN_POLICY_VIOLATION)
      else
        match c.sha256(pin[..n])
        case None => Refused(INVALID_CBOR)
        case Some(hash) => NewPin(hash[..16])
  }

  /** meowkey_store_set_pin_state: RAM takes the new state whether or not the commit succeeds. */
  function SetState(s: Pins, next: PinState, committed: bool): Pins {
    s.(live := next, stored := if committed then next else s.stored)
  }

  /** verify_pin_hash_or_consume_retry */
  function VerifyHash(s: Pins, provided: seq<byte>, committed: bool): Answer {
    if provided[..Min(16, |provided|)] == s.live.hash then Answer(s, OK)
    else
      var after := if s.live.retries > 0
        then SetState(s, s.live.(retries := s.live.retries - 1), committed) else s;
      Answer(after, if after.live.retries == 0 then PIN_BLOCKED else PIN_INVALID)
  }

  /** handle_set_pin */
  function SetPin(c: Crypto, s: Pins, r: Request, committed: bool): Answer {
    if s.live.configured then Answer(s, UNSUPPORTED_OPTION)
    else if r.keyAgreement.None? || r.authParam.None? || r.newPinEnc.None? then Answer(s, MISSING_PARAMETER)
    else
      match c.derive(r.keyAgreement.value)
      case None => Answer(s, INVALID_CBOR)
      case Some(secret) =>
        if !Authentic(c, secret, r.newPinEnc.value, r.authParam.value) then Answer(s, PIN_AUTH_INVALID)
        else
          match ParseNewPin(c, secret, r.newPinEnc.value)
          case Refused(status) => Answer(s, status)
          case NewPin(hash) => StoreNewPin(s, PinState(true, RETRIES, hash), committed)
  }

  function StoreNewPin(s: Pins, next: PinState, committed: bool): Answer {
    var after := SetState(s, next, committed);
    if committed then Answer(after.(token := None), OK) else Answer(after, INVALID_CBOR)
  }

  /** What changePIN and getPinToken share: the checks that come before the PIN is looked at. */
  datatype Gate = Closed(status: byte) | Open(secret: Bytes32, pinHash: seq<byte>)

  function Unlock(c: Crypto, s: Pins, r: Request, changing: bool): Gate {
    if !s.live.configured then Closed(PIN_NOT_SET)
    else if s.live.retries == 0 then Closed(PIN_BLOCKED)
    else if r.keyAgreement.None? || r.pinHashEnc.None? || (changing && (r.authParam.None? || r.newPinEnc.None?)) then
      Closed(MISSING_PARAMETER)
    else if |r.pinHashEnc.value| != 16 then Closed(INVALID_CBOR)
    else
      match c.derive(r.keyAgreement.value)
      case None => Closed(INVALID_CBOR)
      case Some(secret) =>
        if changing && !Authentic(c, secret, r.newPinEnc.value + r.pinHashEnc.value, r.authParam.value) then
          Closed(PIN_AUTH_INVALID)
        else
          match c.decrypt(secret, r.pinHashEnc.value)
          case None => Closed(INVALID_CBOR)
          case Some(pinHash) => Open(secret, pinHash)
  }

  /** handle_change_pin; `spent` is the commit of a consumed retry, `committed` that of the new PIN. */
  function ChangePin(c: Crypto, s: Pins, r: Request, spent: bool, committed: bool): Answer {
    match Unlock(c, s, r, true)
    case Closed(status) => Answer(s, status)
    case Open(secret, pinHash) =>
      var verified := VerifyHash(s, pinHash, spent);
      if verified.status != OK then verified
      else
        match ParseNewPin(c, secret, r.newPinEnc.value)
        case Refused(status) => Answer(s, status)
        case NewPin(hash) => StoreNewPin(s, s.live.(retries := RETRIES, hash := hash), committed)
  }

  /** handle_get_pin_token; the store's answer to restoring the retries is ignored. */
  function GetPinToken(c: Crypto, s: Pins, r: Request, committed: bool, drawn: Bytes32, now: nat): Answer {
    match Unlock(c, s, r, false)
    case Closed(status) => Answer(s, status)
    case Open(secret, pinHash) =>
      var verified := VerifyHash(s, pinHash, committed);
      if verified.status != OK then verified
      else
        var after := SetState(s, s.live.(retries := RETRIES), committed).(token := Some(Held(drawn, now)));
        Answer(after, if c.canEncrypt(secret, drawn) then OK else INVALID_CBOR)
  }

  /** meowkey_client_pin_verify_auth */
  function VerifyAuth(c: Crypto, s: Pins, clientDataHash: seq<byte>, protocol: byte, param: Option<seq<byte>>,
                      now: nat): Answer {
    if !s.live.configured then Answer(s, if param.Some? then PIN_NOT_SET else OK)
    else if protocol != 1 || param.None? then Answer(s, PIN_REQUIRED)
    else
      var after := s.(token := Next(s.token, TOKEN_LIFETIME_MS, Checked(now)));
      if !Usable(s.token, TOKEN_LIFETIME_MS, now) then Answer(after, PIN_TOKEN_EXPIRED)
      else if c.hmac(s.token.value.grant, clientDataHash).None? then Answer(after, INVALID_CBOR)
      else Answer(after, if Authentic(c, s.token.value.grant, clientDataHash, param.value) then OK
                  else PIN_AUTH_INVALID)
  }

  // ---- The object ----

  class Authenticator {
    const c: Crypto
    var live: PinState
    ghost var stored: PinState
    var tokenReady: bool
    var token: Bytes32
    var tokenIssuedAtMs: nat

    ghost function State(): Pins
      reads this
    {
      Pins(live, stored, if tokenReady then Some(Held(token, tokenIssuedAtMs)) else None)
    }

    constructor (c: Crypto, recovered: PinState)
      ensures State() == Pins(recovered, recovered, None) && this.c == c
    {
      this.c, live, stored := c, recovered, recovered;
      tokenReady, token, tokenIssuedAtMs := false, Zeros(32), 0;
    }

    method SetPinState(next: PinState, committed: bool)
      modifies this
      ensures State() == SetState(old(State()), next, committed)
    {
      live := next;
      if committed {
        stored := next;
      }
    }

    /** clear_runtime_pin_token */
    method ClearToken()
      modifies this
      ensures State() == old(State()).(token := None)
    {
      tokenReady, token, tokenIssuedAtMs := false, Zeros(32), 0;
    }

    /** runtime_pin_token_is_usable */
    method TokenIsUsable(now: nat) returns (usable: bool)
      modifies this
      ensures usable == Usable(old(State()).token, TOKEN_LIFETIME_MS, now)
      ensures State() == old(State()).(token := Next(old(State()).token, TOKEN_LIFETIME_MS, Checked(now)))
    {
      if !tokenReady {
        return false;
      }
      if now - tokenIssuedAtMs > TOKEN_LIFETIME_MS {
        ClearToken();
        return false;
      }
      usable := true;
    }

    method VerifyPinHashOrConsumeRetry(provided: seq<byte>, committed: bool) returns (status: byte)
      modifies this
      ensures Answer(State(), status) == VerifyHash(old(State()), provided, committed)
    {
      if provided[..Min(16, |provided|)] == live.hash {
        return OK;
      }
      if live.retries > 0 {
        SetPinState(live.(retries := live.retries - 1), committed);
      }
      status := if live.retries == 0 then PIN_BLOCKED else PIN_INVALID;
    }

    /** parse_new_pin_hash */
    method ParseNewPinHash(secret: Bytes32, enc: seq<byte>) returns (r: NewPin)
      ensures r == ParseNewPin(c, secret, enc)
    {
      var pin := c.decrypt(secret, enc);
      if pin.None? {
        return Refused(INVALID_CBOR);
      }
      var n := 0;
      while n < |pin.value| && pin.value[n] != 0
        invariant n <= |pin.value|
        invariant PinLength(pin.value) == n + PinLength(pin.value[n..])
      {
        assert pin.value[n..][1..] == pin.value[n + 1..];
        n := n + 1;
      }
      if n < 4 || n > 63 {
        return Refused(PIN_POLICY_VIOLATION);
      }
      var hash := c.sha256(pin.value[..n]);
      r := if hash.None? then Refused(INVALID_CBOR) else NewPin(hash.value[..16]);
    }

    method HandleSetPin(r: Request, committed: bool) returns (status: byte)
      modifies this
      ensures Answer(State(), status) == SetPin(c, old(State()), r, committed)
    {
      hide ParseNewPin;
      if live.configured {
        return UNSUPPORTED_OPTION;
      }
      if r.keyAgreement.None? || r.authParam.None? || r.newPinEnc.None? {
        return MISSING_PARAMETER;
      }
      var secret := c.derive(r.keyAgreement.value);
      if secret.None? {
        return INVALID_CBOR;
      }
      if !Authentic(c, secret.value, r.newPinEnc.value, r.authParam.value) {
        return PIN_AUTH_INVALID;
      }
      var pin := ParseNewPinHash(secret.value, r.newPinEnc.value);
      if pin.Refused? {
        return pin.status;
      }
      SetPinState(PinState(true, RETRIES, pin.hash), committed);
      if !committed {
        return INVALID_CBOR;
      }
      ClearToken();
      status := OK;
    }

    method HandleChangePin(r: Request, spent: bool, committed: bool) returns (status: byte)
      modifies this
      ensures Answer(State(), status) == ChangePin(c, old(State()), r, spent, committed)
    {
      hide ParseNewPin;
      if !live.configured {
        return PIN_NOT_SET;
      }
      if live.retries == 0 {
        return PIN_BLOCKED;
      }
      if r.keyAgreement.None? || r.authParam.None? || r.newPinEnc.None? || r.pinHashEnc.None? {
        return MISSING_PARAMETER;
      }
      if |r.pinHashEnc.value| != 16 {
        return INVALID_CBOR;
      }
      var secret := c.derive(r.keyAgreement.value);
      if secret.None? {
        return INVALID_CBOR;
      }
      if !Authentic(c, secret.value, r.newPinEnc.value + r.pinHashEnc.value, r.authParam.value) {
        return PIN_AUTH_INVALID;
      }
      var pinHash := c.decrypt(secret.value, r.pinHashEnc.value);
      if pinHash.None? {
        return INVALID_CBOR;
      }
      status := VerifyPinHashOrConsumeRetry(pinHash.value, spent);
      if status != OK {
        return;
      }
      var pin := ParseNewPinHash(secret.value, r.newPinEnc.value);
      if pin.Refused? {
        return pin.status;
      }
      SetPinState(live.(retries := RETRIES, hash := pin.hash), committed);
      if !committed {
        return INVALID_CBOR;
      }
      ClearToken();
      status := OK;
    }

    method HandleGetPinToken(r: Request, committed: bool, drawn: Bytes32, now: nat) returns (status: byte)
      modifies this
      ensures Answer(State(), status) == GetPinToken(c, old(State()), r, committed, drawn, now)
    {
      if !live.configured {
        return PIN_NOT_SET;
      }
      if live.retries == 0 {
        return PIN_BLOCKED;
      }
      if r.keyAgreement.None? || r.pinHashEnc.None? {
        return MISSING_PARAMETER;
      }
      if |r.pinHashEnc.value| != 16 {
        return INVALID_CBOR;
      }
      var secret := c.derive(r.keyAgreement.value);
      if secret.None? {
        return INVALID_CBOR;
      }
      var pinHash := c.decrypt(secret.value, r.pinHashEnc.value);
      if pinHash.None? {
        return INVALID_CBOR;
      }
      status := VerifyPinHashOrConsumeRetry(pinHash.value, committed);
      if status != OK {
        return;
      }
      SetPinState(live.(retries := RETRIES), committed);
      tokenReady, token, tokenIssuedAtMs := true, drawn, now;
      status := if c.canEncrypt(secret.value, drawn) then OK else INVALID_CBOR;
    }

    method CheckPinUvAuth(clientDataHash: seq<byte>, protocol: byte, param: Option<seq<byte>>, now: nat)
      returns (status: byte)
      modifies this
      ensures Answer(State(), status) == VerifyAuth(c, old(State()), clientDataHash, protocol, param, now)
    {
      if !live.configured {
        return if param.Some? then PIN_NOT_SET else OK;
      }
      if protocol != 1 || param.None? {
        return PIN_REQUIRED;
      }
      var usable := TokenIsUsable(now);
      if !usable {
        return PIN_TOKEN_EXPIRED;
      }
      var expected := c.hmac(token, clientDataHash);
      if expected.None? {
        return INVALID_CBOR;
      }
      status := if |param.value| == 16 && expected.value[..16] == param.value then OK else PIN_AUTH_INVALID;
    }
  }

  // ---- Runs ----

  /** One thing that happens to the PIN state. A commit for any other purpose also writes the PIN state in RAM; a
      power cut inside a call that writes leaves the old state or the new one. */
  datatype Call =
    | Setting(r: Request, committed: bool)
    | Changing(r: Request, spent: bool, committed: bool)
    | Getting(r: Request, committed: bool, drawn: Bytes32, now: nat)
    | Verifying(clientDataHash: seq<byte>, protocol: byte, param: Option<seq<byte>>, now: nat)
    | OtherCommit
    | Reboot
    | CutInside(call: Call, written: bool)

  /** What the boot makes of the recovered state. */
  function Booted(s: PinState): PinState {
    if !s.configured && s.retries == 0 then s.(retries := RETRIES) else s
  }

  function Do(c: Crypto, s: Pins, call: Call): Answer
    decreases call
  {
    match call
    case Setting(r, committed) => SetPin(c, s, r, committed)
    case Changing(r, spent, committed) => ChangePin(c, s, r, spent, committed)
    case Getting(r, committed, drawn, now) => GetPinToken(c, s, r, committed, drawn, now)
    case Verifying(h, protocol, param, now) => VerifyAuth(c, s, h, protocol, param, now)
    case OtherCommit => Answer(s.(stored := s.live), OK)
    case Reboot => Answer(Pins(Booted(s.stored), Booted(s.stored), None), OK)
    case CutInside(inner, written) =>
      var recovered := Booted(if written then Do(c, s, inner).pins.live else s.stored);
      Answer(Pins(recovered, recovered, None), OK)
  }

  function DoAll(c: Crypto, s: Pins, calls: seq<Call>): Pins
    decreases |calls|
  {
    if calls == [] then s else Do(c, DoAll(c, s, calls[..|calls| - 1]), calls[|calls| - 1]).pins
  }

  predicate InRange(s: Pins) {
    s.live.retries <= RETRIES && s.stored.retries <= RETRIES
  }

  lemma {:induction false} DoKeepsRange(c: Crypto, s: Pins, call: Call)
    requires InRange(s)
    ensures InRange(Do(c, s, call).pins)
    decreases call
  {
    hide Unlock, ParseNewPin, Authentic;
    if call.CutInside? {
      DoKeepsRange(c, s, call.call);
    }
  }

  /** The counter stays in 0..8 over every run. */
  lemma {:induction false} RetriesStayInRange(c: Crypto, s: Pins, calls: seq<Call>)
    requires InRange(s)
    ensures InRange(DoAll(c, s, calls))
    decreases |calls|
  {
    hide Do, InRange;
    if calls != [] {
      RetriesStayInRange(c, s, calls[..|calls| - 1]);
      DoKeepsRange(c, DoAll(c, s, calls[..|calls| - 1]), calls[|calls| - 1]);
    }
  }

  /** A request that gets as far as the PIN with the wrong one. */
  predicate WrongPin(c: Crypto, s: Pins, r: Request, changing: bool) {
    var gate := Unlock(c, s, r, changing);
    gate.Open? && gate.pinHash[..Min(16, |gate.pinHash|)] != s.live.hash
  }

  predicate RightPin(c: Crypto, s: Pins, r: Request, changing: bool) {
    var gate := Unlock(c, s, r, changing);
    gate.Open? && gate.pinHash[..Min(16, |gate.pinHash|)] == s.live.hash
  }

  /** Every wrong PIN costs exactly one retry, in RAM always and in flash when the commit succeeds, and nothing
      but a wrong PIN is ever reported as one; a right PIN for a token restores all eight. */
  lemma WrongPinCostsOneRetry(c: Crypto, s: Pins, r: Request, spent: bool, committed: bool, drawn: Bytes32, now: nat)
    requires InRange(s)
    ensures var a := ChangePin(c, s, r, spent, committed);
      && (WrongPin(c, s, r, true) ==>
           a.pins == SetState(s, s.live.(retries := s.live.retries - 1), spent)
           && a.status == if s.live.retries == 1 then PIN_BLOCKED else PIN_INVALID)
      && (a.status == PIN_INVALID ==> WrongPin(c, s, r, true))
      && (a.status == PIN_BLOCKED ==>
           WrongPin(c, s, r, true) || (s.live.configured && s.live.retries == 0 && a.pins == s))
    ensures var a := GetPinToken(c, s, r, committed, drawn, now);
      && (WrongPin(c, s, r, false) ==>
           a.pins == SetState(s, s.live.(retries := s.live.retries - 1), committed)
           && a.status == if s.live.retries == 1 then PIN_BLOCKED else PIN_INVALID)
      && (a.status == PIN_INVALID ==> WrongPin(c, s, r, false))
      && (a.status == PIN_BLOCKED ==>
           WrongPin(c, s, r, false) || (s.live.configured && s.live.retries == 0 && a.pins == s))
      && (!RightPin(c, s, r, false) ==> a.pins.token == s.token)
      && (RightPin(c, s, r, false) ==> a.pins.live.retries == RETRIES && a.pins.token == Some(Held(drawn, now)))
  {
    hide Authentic;
  }

  predicate Exhausted(s: PinState) {
    s.configured && s.retries == 0
  }

  predicate AsksForPin(call: Call) {
    call.Changing? || call.Getting?
  }

  /** Once the stored retries are exhausted they stay so, whatever is called, cut or rebooted, and every changePIN
      and getPinToken is answered with PIN_BLOCKED. */
  lemma {:induction false} ExhaustedStays(c: Crypto, s: Pins, calls: seq<Call>)
    requires Exhausted(s.live) && Exhausted(s.stored)
    ensures Exhausted(DoAll(c, s, calls).live) && Exhausted(DoAll(c, s, calls).stored)
    decreases |calls|
  {
    if calls != [] {
      ExhaustedStays(c, s, calls[..|calls| - 1]);
      DoKeepsExhausted(c, DoAll(c, s, calls[..|calls| - 1]), calls[|calls| - 1]);
    }
  }

  lemma {:induction false} DoKeepsExhausted(c: Crypto, s: Pins, call: Call)
    requires Exhausted(s.live) && Exhausted(s.stored)
    ensures Exhausted(Do(c, s, call).pins.live) && Exhausted(Do(c, s, call).pins.stored)
    ensures AsksForPin(call) ==> Do(c, s, call).status == PIN_BLOCKED
    decreases call
  {
    if call.CutInside? {
      DoKeepsExhausted(c, s, call.call);
    }
  }

  /** A PIN blocked in RAM is blocked in every continuation exactly if the exhausted counter was also stored: a
      last retry whose commit failed comes back with the next power cycle. */
  lemma BlockedForeverIff(c: Crypto, s: Pins)
    requires Exhausted(s.live)
    ensures (forall calls, call :: AsksForPin(call) ==> Do(c, DoAll(c, s, calls), call).status == PIN_BLOCKED)
       <==> Exhausted(s.stored)
  {
    if Exhausted(s.stored) {
      forall calls, call | AsksForPin(call)
        ensures Do(c, DoAll(c, s, calls), call).status == PIN_BLOCKED
      {
        ExhaustedStays(c, s, calls);
        DoKeepsExhausted(c, DoAll(c, s, calls), call);
      }
    } else {
      var nothing := Request(None, None, None, None);
      var call := Getting(nothing, true, Zeros(32), 0);
      assert DoAll(c, s, [Reboot]) == Do(c, s, Reboot).pins by {
        assert [Reboot][..0] == [];
        assert DoAll(c, s, []) == s;
      }
      assert AsksForPin(call) && Do(c, DoAll(c, s, [Reboot]), call).status != PIN_BLOCKED;
    }
  }

  // ---- The runtime token over runs ----

  /** What the token sees of a call. */
  function Seen(c: Crypto, s: Pins, call: Call): GrantEvent<Bytes32> {
    match call
    case Setting(r, committed) => if SetPin(c, s, r, committed).status == OK then Revoked else Idle
    case Changing(r, spent, committed) => if ChangePin(c, s, r, spent, committed).status == OK then Revoked else Idle
    case Getting(r, _, drawn, now) => if RightPin(c, s, r, false) then Issued(drawn, now) else Idle
    case Verifying(_, protocol, param, now) =>
      if s.live.configured && protocol == 1 && param.Some? then Checked(now) else Idle
    case OtherCommit => Idle
    case Reboot => Revoked
    case CutInside(_, _) => Revoked
  }

  lemma TokenFollows(c: Crypto, s: Pins, call: Call)
    ensures Do(c, s, call).pins.token == Next(s.token, TOKEN_LIFETIME_MS, Seen(c, s, call))
  {
    hide Authentic;
  }

  function Trace(c: Crypto, s: Pins, calls: seq<Call>): (r: seq<GrantEvent<Bytes32>>)
    ensures |r| == |calls|
    decreases |calls|
  {
    if calls == [] then []
    else
      var front := calls[..|calls| - 1];
      Trace(c, s, front) + [Seen(c, DoAll(c, s, front), calls[|calls| - 1])]
  }

  lemma {:induction false} TokenIsAfter(c: Crypto, s: Pins, calls: seq<Call>)
    requires s.token == None
    ensures DoAll(c, s, calls).token == After(TOKEN_LIFETIME_MS, Trace(c, s, calls))
    decreases |calls|
  {
    hide Do, Seen;
    if calls != [] {
      var front, last := calls[..|calls| - 1], calls[|calls| - 1];
      var events := Trace(c, s, calls);
      TokenIsAfter(c, s, front);
      TokenFollows(c, DoAll(c, s, front), last);
      assert events[..|events| - 1] == Trace(c, s, front);
    }
  }

  lemma {:induction false} TraceAt(c: Crypto, s: Pins, calls: seq<Call>, i: nat)
    requires i < |calls|
    ensures Trace(c, s, calls)[i] == Seen(c, DoAll(c, s, calls[..i]), calls[i])
    decreases |calls|
  {
    hide Do, Seen;
    var front := calls[..|calls| - 1];
    if i < |front| {
      TraceAt(c, s, front, i);
      assert front[..i] == calls[..i];
    }
  }

  /** Call `i` handed out the token for a right PIN, at most 30 s ago, and since then no other token was handed
      out, no PIN was set or changed, and the device was not restarted. */
  ghost predicate HandedOut(c: Crypto, s: Pins, calls: seq<Call>, i: nat, token: Bytes32, now: nat) {
    && i < |calls| && calls[i].Getting? && calls[i].drawn == token && now - calls[i].now <= TOKEN_LIFETIME_MS
    && RightPin(c, DoAll(c, s, calls[..i]), calls[i].r, false)
    && forall j {:trigger calls[j]} :: i < j < |calls| ==>
         var before := DoAll(c, s, calls[..j]);
         match calls[j]
         case Setting(r, committed) => SetPin(c, before, r, committed).status != OK
         case Changing(r, spent, committed) => ChangePin(c, before, r, spent, committed).status != OK
         case Getting(r, _, _, _) => !RightPin(c, before, r, false)
         case Reboot => false
         case CutInside(_, _) => false
         case _ => true
  }

  lemma StandsIffHandedOut(c: Crypto, s: Pins, calls: seq<Call>, i: nat, token: Bytes32, now: nat)
    ensures Stands(Trace(c, s, calls), i, token, TOKEN_LIFETIME_MS, now) <==> HandedOut(c, s, calls, i, token, now)
  {
    hide RightPin, SetPin, ChangePin, DoAll;
    if i < |calls| {
      TraceAt(c, s, calls, i);
      forall j | i < j < |calls|
        ensures Trace(c, s, calls)[j] == Seen(c, DoAll(c, s, calls[..j]), calls[j])
      {
        TraceAt(c, s, calls, j);
      }
    }
  }

  /** Timed PIN authorization over runs: on a device with a PIN, a pinUvAuthParam is accepted if and only if it is
      the MAC of the client data under the token of the latest getPinToken that saw the right PIN, at most 30 s
      old, with no setPIN, changePIN or restart since. */
  lemma PinUvAuthAcceptedIff(c: Crypto, s: Pins, calls: seq<Call>, h: seq<byte>, param: seq<byte>, now: nat)
    requires s.token == None && DoAll(c, s, calls).live.configured
    requires Ordered(Trace(c, s, calls), now)
    ensures VerifyAuth(c, DoAll(c, s, calls), h, 1, Some(param), now).status == OK
       <==> exists i, token :: HandedOut(c, s, calls, i, token, now) && Authentic(c, token, h, param)
  {
    hide HandedOut, Stands, Trace, Ordered;
    var before := DoAll(c, s, calls);
    var events := Trace(c, s, calls);
    TokenIsAfter(c, s, calls);
    if VerifyAuth(c, before, h, 1, Some(param), now).status == OK {
      var token := before.token.value.grant;
      UsableIff(TOKEN_LIFETIME_MS, events, token, now);
      var i :| Stands(events, i, token, TOKEN_LIFETIME_MS, now);
      StandsIffHandedOut(c, s, calls, i, token, now);
    }
    if i, token :| HandedOut(c, s, calls, i, token, now) && Authentic(c, token, h, param) {
      StandsIffHandedOut(c, s, calls, i, token, now);
      UsableIff(TOKEN_LIFETIME_MS, events, token, now);
    }
  }
}
