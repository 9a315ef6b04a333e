/** What each PIN command answers and leaves, exactly when, in terms of the request, the cryptography and the stored
    hash (section 6.5.5 of CTAP 2.1). */
module PinOutcomes {
  import opened Bits
  import opened StoreFormat
  import opened TimedGrants
  import opened ClientPin

  // ---- New PINs ----

  /** `pin` is what `padded` holds up to its first zero byte. */
  predicate PaddedPin(padded: seq<byte>, pin: seq<byte>) {
    && pin <= padded && (forall i :: 0 <= i < |pin| ==> pin[i] != 0)
    && (|pin| < |padded| ==> padded[|pin|] == 0)
  }

  /** Decrypted under `secret`, `enc` is a PIN of 4 to 63 bytes, and `hash` the first half of its SHA-256. */
  ghost predicate EncryptsPin(c: Crypto, secret: Bytes32, enc: seq<byte>, hash: Bytes16) {
    exists padded, pin ::
      && c.decrypt(secret, enc) == Some(padded) && PaddedPin(padded, pin) && 4 <= |pin| <= 63
      && c.sha256(pin).Some? && c.sha256(pin).value[..16] == hash
  }

  lemma {:induction false} LengthIsPadded(padded: seq<byte>)
    ensures PaddedPin(padded, padded[..PinLength(padded)])
  {
  }

  lemma PaddedIsUnique(padded: seq<byte>, a: seq<byte>, b: seq<byte>)
    requires PaddedPin(padded, a) && PaddedPin(padded, b)
    ensures a == b
  {
    assert a == padded[..|a|] && b == padded[..|b|];
  }

  lemma ParsedIff(c: Crypto, secret: Bytes32, enc: seq<byte>, hash: Bytes16)
    ensures ParseNewPin(c, secret, enc) == NewPin(hash) <==> EncryptsPin(c, secret, enc, hash)
  {
    hide PaddedPin, PinLength;
    var decrypted := c.decrypt(secret, enc);
    if decrypted.Some? {
      var padded := decrypted.value;
      LengthIsPadded(padded);
      forall pin | PaddedPin(padded, pin)
        ensures pin == padded[..PinLength(padded)]
      {
        PaddedIsUnique(padded, pin, padded[..PinLength(padded)]);
      }
    }
  }

  /** The MAC that authorises `message` under `secret`. */
  predicate Signed(c: Crypto, secret: Bytes32, message: seq<byte>, param: seq<byte>) {
    |param| == 16 && c.hmac(secret, message).Some? && c.hmac(secret, message).value[..16] == param
  }

  // ---- setPIN ----

  /** The request sets the PIN whose hash is `hash`: all its parameters are there, its MAC verifies, and the PIN is a
      proper one. */
  ghost predicate SetsTo(c: Crypto, r: Request, hash: Bytes16) {
    && r.keyAgreement.Some? && r.authParam.Some? && r.newPinEnc.Some?
    && c.derive(r.keyAgreement.value).Some?
    && var secret := c.derive(r.keyAgreement.value).value;
       Signed(c, secret, r.newPinEnc.value, r.authParam.value) && EncryptsPin(c, secret, r.newPinEnc.value, hash)
  }

  /** setPIN succeeds exactly on a device without a PIN, for a signed request with a proper PIN whose write succeeds;
      the new hash is then in RAM and stored, with eight retries, and the token is gone. A refusal changes nothing,
      unless the write failed: then RAM alone has the new PIN. */
  lemma SetPinOutcome(c: Crypto, s: Pins, r: Request, committed: bool)
    ensures var a := Do(c, s, Setting(r, committed));
      && (a.status == 0 <==> !s.live.configured && committed && exists hash :: SetsTo(c, r, hash))
      && (forall hash :: a.status == 0 && SetsTo(c, r, hash) ==>
           a.pins == Pins(PinState(true, 8, hash), PinState(true, 8, hash), None))
      && (a.status != 0 ==>
           || a.pins == s
           || (!committed && !s.live.configured && a.status == 0x12
               && SetsTo(c, r, a.pins.live.hash) && a.pins == s.(live := PinState(true, 8, a.pins.live.hash))))
      && (s.live.configured ==> a == Answer(s, 0x2b))
  {
    hide EncryptsPin, ParseNewPin;
    if r.keyAgreement.Some? && r.newPinEnc.Some? && c.derive(r.keyAgreement.value).Some? {
      var secret := c.derive(r.keyAgreement.value).value;
      ParsedForAll(c, secret, r.newPinEnc.value);
      var parsed := ParseNewPin(c, secret, r.newPinEnc.value);
      assert parsed.NewPin? && r.authParam.Some? && Signed(c, secret, r.newPinEnc.value, r.authParam.value) ==>
        SetsTo(c, r, parsed.hash);
    }
  }

  lemma ParsedForAll(c: Crypto, secret: Bytes32, enc: seq<byte>)
    ensures forall hash :: EncryptsPin(c, secret, enc, hash) <==> ParseNewPin(c, secret, enc) == NewPin(hash)
    ensures ParseNewPin(c, secret, enc).Refused? ==> ParseNewPin(c, secret, enc).status != 0
  {
    hide EncryptsPin;
    forall hash: Bytes16
      ensures EncryptsPin(c, secret, enc, hash) <==> ParseNewPin(c, secret, enc) == NewPin(hash)
    {
      ParsedIff(c, secret, enc, hash);
    }
  }

  // ---- changePIN and getPinToken ----

  /** The request presents `presented` as the hash of the current PIN. */
  predicate Presents(c: Crypto, r: Request, presented: seq<byte>) {
    && r.keyAgreement.Some? && r.pinHashEnc.Some? && |r.pinHashEnc.value| == 16
    && c.derive(r.keyAgreement.value).Some?
    && c.decrypt(c.derive(r.keyAgreement.value).value, r.pinHashEnc.value) == Some(presented)
  }

  /** It is signed as changePIN requests are. */
  predicate SignedChange(c: Crypto, r: Request) {
    && r.keyAgreement.Some? && r.authParam.Some? && r.newPinEnc.Some? && r.pinHashEnc.Some?
    && c.derive(r.keyAgreement.value).Some?
    && Signed(c, c.derive(r.keyAgreement.value).value, r.newPinEnc.value + r.pinHashEnc.value, r.authParam.value)
  }

  /** The hash presented is that of the PIN. */
  predicate Fits(presented: seq<byte>, hash: Bytes16) {
    presented[..Min(16, |presented|)] == hash
  }

  predicate Unblocked(s: Pins) {
    s.live.configured && s.live.retries > 0
  }

  ghost predicate ChangesTo(c: Crypto, s: Pins, r: Request, hash: Bytes16) {
    && Unblocked(s) && SignedChange(c, r)
    && (exists presented :: Presents(c, r, presented) && Fits(presented, s.live.hash))
    && EncryptsPin(c, c.derive(r.keyAgreement.value).value, r.newPinEnc.value, hash)
  }

  /** changePIN succeeds exactly for a signed request that presents the current PIN, asks for a proper new one, and
      whose write succeeds; the new hash is then in RAM and stored, with eight retries, and the token is gone. Any
      other outcome leaves the hash, in RAM and stored, unless the write of the new PIN failed: then RAM alone has
      it. */
  lemma ChangePinOutcome(c: Crypto, s: Pins, r: Request, spent: bool, committed: bool)
    ensures var a := Do(c, s, Changing(r, spent, committed));
      && (a.status == 0 <==> committed && exists hash :: ChangesTo(c, s, r, hash))
      && (forall hash :: a.status == 0 && ChangesTo(c, s, r, hash) ==>
           a.pins == Pins(PinState(true, 8, hash), PinState(true, 8, hash), None))
      && (a.status != 0 ==>
           || (a.pins.live.hash == s.live.hash && a.pins.token == s.token
               && (a.pins.stored == s.stored || a.pins.stored == a.pins.live))
           || (!committed && a.status == 0x12 && ChangesTo(c, s, r, a.pins.live.hash)
               && a.pins == s.(live := PinState(true, 8, a.pins.live.hash))))
  {
    hide EncryptsPin, ParseNewPin;
    if r.keyAgreement.Some? && r.newPinEnc.Some? && c.derive(r.keyAgreement.value).Some? {
      var secret := c.derive(r.keyAgreement.value).value;
      ParsedForAll(c, secret, r.newPinEnc.value);
      var parsed := ParseNewPin(c, secret, r.newPinEnc.value);
      if Unblocked(s) && SignedChange(c, r) && |r.pinHashEnc.value| == 16 {
        var decrypted := c.decrypt(secret, r.pinHashEnc.value);
        assert decrypted.Some? ==> Presents(c, r, decrypted.value);
        assert parsed.NewPin? && decrypted.Some? && Fits(decrypted.value, s.live.hash) ==>
          ChangesTo(c, s, r, parsed.hash);
      }
    }
  }

  /** What else a changePIN answers: a PIN not set, blocked, a bad signature, a wrong PIN, in this order. */
  lemma ChangePinRefusals(c: Crypto, s: Pins, r: Request, spent: bool, committed: bool)
    ensures var a := Do(c, s, Changing(r, spent, committed));
      && (!s.live.configured ==> a == Answer(s, 0x35))
      && (s.live.configured && s.live.retries == 0 ==> a == Answer(s, 0x32))
      && (Unblocked(s) && r.keyAgreement.Some? && r.pinHashEnc.Some? && |r.pinHashEnc.value| == 16
          && r.authParam.Some? && r.newPinEnc.Some? && c.derive(r.keyAgreement.value).Some? && !SignedChange(c, r) ==>
           a == Answer(s, 0x33))
      && (forall presented :: Unblocked(s) && SignedChange(c, r) && Presents(c, r, presented)
                              && !Fits(presented, s.live.hash) ==>
           a == Answer(SetState(s, s.live.(retries := s.live.retries - 1), spent),
                       if s.live.retries == 1 then 0x32 else 0x31))
  {
    hide ParseNewPin;
  }

  /** getPinToken hands out a token exactly for a request that presents the current PIN on a device that is not
      blocked, and a wrong PIN costs a retry; nothing it does touches the hash. */
  lemma GetPinTokenOutcome(c: Crypto, s: Pins, r: Request, committed: bool, drawn: Bytes32, now: nat)
    ensures var a := Do(c, s, Getting(r, committed, drawn, now));
      && (a.status == 0 <==>
           exists presented :: Unblocked(s) && Presents(c, r, presented) && Fits(presented, s.live.hash)
                               && c.canEncrypt(c.derive(r.keyAgreement.value).value, drawn))
      && (a.pins.token != s.token ==> a.pins.token == Some(Held(drawn, now)))
      && (forall presented :: Unblocked(s) && Presents(c, r, presented) ==>
           a.pins == if Fits(presented, s.live.hash)
             then SetState(s, s.live.(retries := 8), committed).(token := Some(Held(drawn, now)))
             else SetState(s, s.live.(retries := s.live.retries - 1), committed))
      && (!(exists presented :: Unblocked(s) && Presents(c, r, presented)) ==> a.pins == s)
      && a.pins.live.hash == s.live.hash
  {
    if Unblocked(s) && r.keyAgreement.Some? && r.pinHashEnc.Some? && c.derive(r.keyAgreement.value).Some? {
      var decrypted := c.decrypt(c.derive(r.keyAgreement.value).value, r.pinHashEnc.value);
      if decrypted.Some? && |r.pinHashEnc.value| == 16 {
        assert Presents(c, r, decrypted.value);
      }
    }
  }

  /** Together: once setPIN or changePIN has answered OK, getPinToken finds the PIN right exactly for the new hash. */
  lemma NewPinOpens(c: Crypto, s: Pins, call: Call, hash: Bytes16, next: Request)
    requires (call.Setting? && SetsTo(c, call.r, hash)) || (call.Changing? && ChangesTo(c, s, call.r, hash))
    requires Do(c, s, call).status == 0
    ensures RightPin(c, Do(c, s, call).pins, next, false)
       <==> exists presented :: Presents(c, next, presented) && Fits(presented, hash)
  {
    hide SetsTo, ChangesTo, Do, RightPin, Presents, Fits;
    match call {
      case Setting(r, committed) => SetPinOutcome(c, s, r, committed);
      case Changing(r, spent, committed) => ChangePinOutcome(c, s, r, spent, committed);
    }
    RightPinIff(c, Do(c, s, call).pins, next);
  }

  /** No other command, commit, reboot or cut makes up a hash: what RAM and flash hold afterwards, one of them held. */
  lemma HashesAreKept(c: Crypto, s: Pins, call: Call)
    requires call.Getting? || call.Verifying? || call.OtherCommit? || call.Reboot?
    ensures var after := Do(c, s, call).pins;
      && after.live.hash == (if call.Reboot? then s.stored.hash else s.live.hash)
      && (after.stored.hash == s.stored.hash || after.stored.hash == s.live.hash)
      && after.live.configured == (if call.Reboot? then s.stored.configured else s.live.configured)
  {
  }

  lemma RightPinIff(c: Crypto, s: Pins, r: Request)
    ensures RightPin(c, s, r, false)
       <==> exists presented :: Unblocked(s) && Presents(c, r, presented) && Fits(presented, s.live.hash)
  {
    if RightPin(c, s, r, false) {
      var presented := c.decrypt(c.derive(r.keyAgreement.value).value, r.pinHashEnc.value).value;
      assert Unblocked(s) && Presents(c, r, presented) && Fits(presented, s.live.hash);
    }
  }

  // ---- pinUvAuth ----

  /** Every answer to a pinUvAuthParam: without a PIN none is wanted, with one it must be there, for protocol 1, under
      a token not yet 30 s old, and the MAC of the client data. The PIN state is never touched, and the token only
      dropped when too old. */
  lemma VerifyAuthOutcome(c: Crypto, s: Pins, h: seq<byte>, protocol: byte, param: Option<seq<byte>>, now: nat)
    ensures var a := VerifyAuth(c, s, h, protocol, param, now);
      var young := s.token.Some? && now - s.token.value.since <= 30000;
      && a.pins.live == s.live && a.pins.stored == s.stored
      && a.pins.token ==
           (if s.live.configured && protocol == 1 && param.Some? && !young then None else s.token)
      && a.status ==
           if !s.live.configured then (if param.Some? then 0x35 else 0)
           else if param.None? || protocol != 1 then 0x36
           else if !young then 0x38
           else if c.hmac(s.token.value.grant, h).None? then 0x12
           else if Signed(c, s.token.value.grant, h, param.value) then 0 else 0x33
  {
  }
}
