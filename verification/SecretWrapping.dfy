/** Copying a credential record into a packed slot and back, with the secrets masked by the simulated secure
    element: HMAC-SHA256 of a label, the credential id and a chunk counter, XORed over each field in place. */
module SecretWrapping {
  import opened Bits
  import opened Words
  import opened StoreFormat

  /** The build switch and HMAC-SHA256 under the board's unique id; None where the crypto library fails. */
  datatype SecureElement = SecureElement(enabled: bool, hmac: seq<byte> -> Option<Bytes32>)

  const CONTEXT_SIZE: nat := 96
  const PRIVATE_KEY_LABEL := "meowkey-sim-se/private-key"
  const WITH_UV_LABEL := "meowkey-sim-se/cred-random-uv"
  const WITHOUT_UV_LABEL := "meowkey-sim-se/cred-random-no-uv"

  // ---- One field ----

  function Ascii(text: string): (r: seq<byte>)
    ensures |r| == |text|
  {
    seq<byte>(|text|, i requires 0 <= i < |text| => text[i] as int % 256)
  }

  predicate ContextFits(id: seq<byte>, tag: string) {
    |id| > 0 && |tag| + |id| + 4 <= CONTEXT_SIZE
  }

  function ChunkMask(se: SecureElement, id: seq<byte>, tag: string, counter: u32): Option<Bytes32> {
    se.hmac(Ascii(tag) + id + Le32(counter))
  }

  /** How far masking gets: to the end of the field, or to the first chunk whose mask is not available. */
  function Reach(se: SecureElement, id: seq<byte>, tag: string, length: u32, counter: nat): (r: nat)
    requires 32 * counter < length + 32
    ensures r <= length
    decreases length + 32 - 32 * counter
  {
    if 32 * counter >= length then length
    else if ChunkMask(se, id, tag, counter).None? then 32 * counter
    else Reach(se, id, tag, length, counter + 1)
  }

  /** The field with its first `n` bytes masked. */
  function Masked(se: SecureElement, id: seq<byte>, tag: string, field: seq<byte>, n: nat): (r: seq<byte>)
    requires |field| < 0x1_0000_0000
    ensures |r| == |field|
  {
    seq<byte>(|field|, i requires 0 <= i < |field| =>
      var mask := ChunkMask(se, id, tag, i / 32);
      if i < n && mask.Some? then Xor8(field[i], mask.value[i % 32]) else field[i])
  }

  lemma MaskedNothing(se: SecureElement, id: seq<byte>, tag: string, field: seq<byte>)
    requires |field| < 0x1_0000_0000
    ensures Masked(se, id, tag, field, 0) == field
  {
  }

  /** One chunk more. */
  lemma MaskedExtends(se: SecureElement, id: seq<byte>, tag: string, before: seq<byte>, offset: nat, chunk: nat,
                      mask: Bytes32, after: seq<byte>)
    requires |after| == |before| < 0x1_0000_0000 && offset % 32 == 0 && chunk <= 32 && offset + chunk <= |before|
    requires offset < |before| && ChunkMask(se, id, tag, offset / 32) == Some(mask)
    requires var sofar := Masked(se, id, tag, before, offset);
      forall i :: 0 <= i < |before| ==>
        after[i] == if offset <= i < offset + chunk then Xor8(sofar[i], mask[i - offset]) else sofar[i]
    ensures after == Masked(se, id, tag, before, offset + chunk)
  {
    hide ChunkMask;
    var whole := Masked(se, id, tag, before, offset + chunk);
    forall i | 0 <= i < |before|
      ensures after[i] == whole[i]
    {
      if offset <= i < offset + chunk {
        assert i / 32 == offset / 32;
      }
    }
  }

  /** store_sim_se_xor_field */
  method XorField(se: SecureElement, id: seq<byte>, tag: string, field: array<byte>) returns (ok: bool)
    requires field.Length < 0x1_0000_0000
    modifies field
    ensures ok == (ContextFits(id, tag) && Reach(se, id, tag, field.Length, 0) == field.Length)
    ensures field[..] == Masked(se, id, tag, old(field[..]),
                                if ContextFits(id, tag) then Reach(se, id, tag, field.Length, 0) else 0)
  {
    hide Masked, ChunkMask, Ascii;
    ghost var before := field[..];
    MaskedNothing(se, id, tag, before);
    if |id| == 0 || |tag| + |id| + 4 > CONTEXT_SIZE {
      return false;
    }
    var offset, counter := 0, 0;
    while offset < field.Length
      invariant 0 <= offset <= field.Length && 0 <= counter
      invariant 32 * counter < field.Length + 32
      invariant offset == if 32 * counter <= field.Length then 32 * counter else field.Length
      invariant Reach(se, id, tag, field.Length, 0) == Reach(se, id, tag, field.Length, counter)
      invariant field[..] == Masked(se, id, tag, before, offset)
    {
      var chunk := if field.Length - offset < 32 then field.Length - offset else 32;
      var mask := ChunkMask(se, id, tag, counter);
      if mask.None? {
        return false;
      }
      ghost var sofar := field[..];
      for index := 0 to chunk
        invariant forall i :: 0 <= i < field.Length ==>
          field[i] == if offset <= i < offset + index then Xor8(sofar[i], mask.value[i - offset]) else sofar[i]
      {
        field[offset + index] := Xor8(field[offset + index], mask.value[index]);
      }
      MaskedExtends(se, id, tag, before, offset, chunk, mask.value, field[..]);
      offset := offset + chunk;
      counter := counter + 1;
    }
    return true;
  }

  // ---- The three secrets of a slot ----

  /** A secret is exactly one chunk: either it is masked as a whole, or it is left alone. */
  function SecretMask(se: SecureElement, s: Slot, tag: string): Option<Bytes32>
    requires SlotShaped(s) && s.credentialIdLength <= 32
  {
    var id := s.credentialId[..s.credentialIdLength];
    if ContextFits(id, tag) then ChunkMask(se, id, tag, 0) else None
  }

  function Xored(field: seq<byte>, mask: seq<byte>): (r: seq<byte>)
    requires |field| == |mask|
    ensures |r| == |field|
  {
    seq<byte>(|field|, i requires 0 <= i < |field| => Xor8(field[i], mask[i]))
  }

  lemma OneChunk(se: SecureElement, id: seq<byte>, tag: string, field: seq<byte>)
    requires |field| == 32
    ensures var mask := ChunkMask(se, id, tag, 0);
      var reach := Reach(se, id, tag, 32, 0);
      && (reach == 32 <==> mask.Some?)
      && Masked(se, id, tag, field, 0) == field
      && Masked(se, id, tag, field, reach) == if mask.Some? then Xored(field, mask.value) else field
  {
    assert Reach(se, id, tag, 32, 1) == 32;
  }

  datatype Transformed = Transformed(ok: bool, slot: Slot)

  /** store_sim_se_transform_slot_secrets: a later failure leaves the earlier secrets masked. */
  function TransformSecrets(se: SecureElement, s: Slot): (r: Transformed)
    requires SlotShaped(s) && s.credentialIdLength <= 32
    ensures SlotShaped(r.slot) && r.slot.credentialIdLength == s.credentialIdLength
  {
    var key, withUv, withoutUv :=
      SecretMask(se, s, PRIVATE_KEY_LABEL), SecretMask(se, s, WITH_UV_LABEL), SecretMask(se, s, WITHOUT_UV_LABEL);
    if key.None? then Transformed(false, s)
    else
      var s1 := s.(privateKey := Xored(s.privateKey, key.value));
      if withUv.None? then Transformed(false, s1)
      else
        var s2 := s1.(credRandomWithUv := Xored(s.credRandomWithUv, withUv.value));
        if withoutUv.None? then Transformed(false, s2)
        else Transformed(true, s2.(credRandomWithoutUv := Xored(s.credRandomWithoutUv, withoutUv.value)))
  }

  method XorSecret(se: SecureElement, s: Slot, tag: string, field: seq<byte>) returns (ok: bool, r: seq<byte>)
    requires SlotShaped(s) && s.credentialIdLength <= 32 && |field| == 32
    ensures ok == SecretMask(se, s, tag).Some?
    ensures r == if ok then Xored(field, SecretMask(se, s, tag).value) else field
  {
    var id := s.credentialId[..s.credentialIdLength];
    var buffer := new byte[32](i requires 0 <= i < 32 => field[i]);
    assert buffer[..] == field;
    OneChunk(se, id, tag, field);
    ok := XorField(se, id, tag, buffer);
    r := buffer[..];
  }

  method TransformSlotSecrets(se: SecureElement, s: Slot) returns (ok: bool, r: Slot)
    requires SlotShaped(s) && s.credentialIdLength <= 32
    ensures Transformed(ok, r) == TransformSecrets(se, s)
  {
    r := s;
    var field;
    ok, field := XorSecret(se, r, PRIVATE_KEY_LABEL, r.privateKey);
    r := r.(privateKey := field);
    if ok {
      ok, field := XorSecret(se, r, WITH_UV_LABEL, r.credRandomWithUv);
      r := r.(credRandomWithUv := field);
    }
    if ok {
      ok, field := XorSecret(se, r, WITHOUT_UV_LABEL, r.credRandomWithoutUv);
      r := r.(credRandomWithoutUv := field);
    }
  }

  lemma {:induction false} XorWithZero(width: nat, a: nat, m: nat)
    requires a < Pow2(width) && m < Pow2(width)
    ensures Xor(width, a, m) == a <==> m == 0
  {
    if width != 0 {
      XorWithZero(width - 1, a / 2, m / 2);
    }
  }

  lemma XoredTwice(field: seq<byte>, mask: seq<byte>)
    requires |field| == |mask|
    ensures Xored(Xored(field, mask), mask) == field
    ensures Xored(field, mask) == field <==> mask == Zeros(|mask|)
  {
    var once := Xored(field, mask);
    forall i | 0 <= i < |field|
      ensures Xored(once, mask)[i] == field[i]
      ensures once[i] == field[i] <==> mask[i] == 0
    {
      PowEight();
      Xor8Involutive(field[i], mask[i]);
      XorWithZero(8, field[i], mask[i]);
    }
  }

  // ---- Records ----

  datatype Record = Record(
    signCount: u32, discoverable: bool, credRandomReady: bool, credentialIdLength: nat, privateKeyLength: nat,
    rpIdLength: nat, userIdLength: nat, userNameLength: nat, displayNameLength: nat,
    credentialId: seq<byte>, privateKey: seq<byte>, credRandomWithUv: seq<byte>, credRandomWithoutUv: seq<byte>,
    rpId: seq<byte>, userId: seq<byte>, userName: seq<byte>, displayName: seq<byte>)

  /** The arrays of meowkey_credential_record_t, and lengths that fit the slot's one-byte length fields. */
  predicate RecordShaped(r: Record) {
    && |r.credentialId| == 32 && |r.privateKey| == 32 && |r.credRandomWithUv| == 32 && |r.credRandomWithoutUv| == 32
    && |r.rpId| == 64 && |r.userId| == 64 && |r.userName| == 64 && |r.displayName| == 96
    && r.credentialIdLength <= 32 && r.privateKeyLength < 256 && r.rpIdLength < 256 && r.userIdLength < 256
    && r.userNameLength < 256 && r.displayNameLength < 256
  }

  const EMPTY_RECORD := Record(0, false, false, 0, 0, 0, 0, 0, 0, Zeros(32), Zeros(32), Zeros(32), Zeros(32),
                               Zeros(64), Zeros(64), Zeros(64), Zeros(96))

  function PlainSlot(r: Record): (s: Slot)
    requires RecordShaped(r)
    ensures SlotShaped(s) && s.credentialIdLength <= 32
  {
    Slot(1, if r.discoverable then 1 else 0, if r.credRandomReady then 1 else 0, r.credentialIdLength,
         r.privateKeyLength, r.rpIdLength, r.userIdLength, r.userNameLength, r.displayNameLength, Zeros(3),
         r.signCount, r.credentialId, r.privateKey, r.credRandomWithUv, r.credRandomWithoutUv, r.rpId, r.userId,
         r.userName, r.displayName)
  }

  /** store_copy_record_to_slot */
  function SlotOfRecord(se: SecureElement, r: Record): (s: Slot)
    requires RecordShaped(r)
    ensures SlotShaped(s) && s.credentialIdLength <= 32
  {
    var plain := PlainSlot(r);
    if !se.enabled then plain
    else
      var t := TransformSecrets(se, plain);
      if t.ok then t.slot.(reserved := t.slot.reserved[0 := 1]) else t.slot
  }

  function PlainRecord(s: Slot): Record {
    Record(s.signCount, s.discoverable != 0, s.credRandomReady != 0, s.credentialIdLength, s.privateKeyLength,
           s.rpIdLength, s.userIdLength, s.userNameLength, s.displayNameLength, s.credentialId, s.privateKey,
           s.credRandomWithUv, s.credRandomWithoutUv, s.rpId, s.userId, s.userName, s.displayName)
  }

  /** store_copy_slot_to_record; the flag is bit 0 of the first reserved byte. */
  function RecordOfSlot(se: SecureElement, s: Slot): Record
    requires SlotShaped(s) && s.credentialIdLength <= 32
  {
    if s.reserved[0] % 2 == 0 then PlainRecord(s)
    else
      var t := TransformSecrets(se, s);
      if t.ok then PlainRecord(t.slot) else EMPTY_RECORD
  }

  /** Masking starts but does not finish, and what it has changed by then is not zero. */
  predicate HalfMasked(se: SecureElement, s: Slot)
    requires SlotShaped(s) && s.credentialIdLength <= 32
  {
    var key, withUv, withoutUv :=
      SecretMask(se, s, PRIVATE_KEY_LABEL), SecretMask(se, s, WITH_UV_LABEL), SecretMask(se, s, WITHOUT_UV_LABEL);
    && key.Some?
    && (withUv.None? || withoutUv.None?)
    && (key.value != Zeros(32) || (withUv.Some? && withUv.value != Zeros(32)))
  }

  /** Each mask depends only on fields the transform leaves unchanged, so transforming twice restores the slot. */
  lemma TransformTwice(se: SecureElement, s: Slot, reserved: seq<byte>)
    requires SlotShaped(s) && s.credentialIdLength <= 32 && |reserved| == 3 && TransformSecrets(se, s).ok
    ensures TransformSecrets(se, TransformSecrets(se, s).slot.(reserved := reserved))
         == Transformed(true, s.(reserved := reserved))
  {
    hide Xored, ChunkMask, ContextFits;
    var t := TransformSecrets(se, s).slot.(reserved := reserved);
    forall tag: string
      ensures SecretMask(se, t, tag) == SecretMask(se, s, tag)
    {
    }
    XoredTwice(s.privateKey, SecretMask(se, s, PRIVATE_KEY_LABEL).value);
    XoredTwice(s.credRandomWithUv, SecretMask(se, s, WITH_UV_LABEL).value);
    XoredTwice(s.credRandomWithoutUv, SecretMask(se, s, WITHOUT_UV_LABEL).value);
  }

  lemma FailedTransform(se: SecureElement, s: Slot)
    requires SlotShaped(s) && s.credentialIdLength <= 32 && !TransformSecrets(se, s).ok
    ensures TransformSecrets(se, s).slot == s <==> !HalfMasked(se, s)
    ensures TransformSecrets(se, s).slot.reserved == s.reserved
    ensures var t := TransformSecrets(se, s).slot;
      t == s.(privateKey := t.privateKey, credRandomWithUv := t.credRandomWithUv)
  {
    hide Xored, SecretMask;
    var key, withUv := SecretMask(se, s, PRIVATE_KEY_LABEL), SecretMask(se, s, WITH_UV_LABEL);
    if key.Some? {
      XoredTwice(s.privateKey, key.value);
      if withUv.Some? {
        XoredTwice(s.credRandomWithUv, withUv.value);
      }
    }
  }

  /** A record read back from its slot is the record, exactly unless HMAC failed between two secrets: then the
      slot holds masked secrets without the flag that says so. */
  lemma RecordRoundTripIff(se: SecureElement, r: Record)
    requires RecordShaped(r)
    ensures RecordOfSlot(se, SlotOfRecord(se, r)) == r <==> !(se.enabled && HalfMasked(se, PlainSlot(r)))
  {
    hide TransformSecrets, HalfMasked;
    var plain := PlainSlot(r);
    if se.enabled {
      if TransformSecrets(se, plain).ok {
        TransformTwice(se, plain, TransformSecrets(se, plain).slot.reserved[0 := 1]);
        FinishedIsNotHalf(se, plain);
      } else {
        FailedTransform(se, plain);
      }
    }
  }

  lemma FinishedIsNotHalf(se: SecureElement, s: Slot)
    requires SlotShaped(s) && s.credentialIdLength <= 32 && TransformSecrets(se, s).ok
    ensures !HalfMasked(se, s) && TransformSecrets(se, s).slot.reserved == s.reserved
  {
    hide SecretMask, Xored;
  }

  /** Storage wrapping: record to masked slot to encrypted flash image, and back through the loader, is the
      identity for every record, payload, slot, generation and salt. */
  lemma StorageRoundTrip(p: Platform, se: SecureElement, q: Payload, index: nat, r: Record, generation: u32,
                         salt: Bytes16)
    requires Shaped(p, q) && index < |q.slots| && RecordShaped(r) && generation > 0
    requires !(se.enabled && HalfMasked(se, PlainSlot(r)))
    ensures var stored := q.(slots := q.slots[index := SlotOfRecord(se, r)]);
      var loaded := LoadSlot(p, PrepareImage(p, stored, generation, salt));
      && loaded.Some? && loaded.value.payload == stored
      && loaded.value.payload.slots[index].credentialIdLength <= 32
      && RecordOfSlot(se, loaded.value.payload.slots[index]) == r
  {
    hide LoadSlot, PrepareImage, SlotOfRecord, RecordOfSlot;
    LoadPrepared(p, q.(slots := q.slots[index := SlotOfRecord(se, r)]), generation, salt);
    RecordRoundTripIff(se, r);
  }

  /** Masking never changes whether the slot is valid: that is decided by the record's lengths. */
  lemma StoredSlotValid(se: SecureElement, r: Record)
    requires RecordShaped(r)
    ensures SlotValid(SlotOfRecord(se, r)) <==>
      && 1 <= r.credentialIdLength && r.privateKeyLength == 32 && 1 <= r.rpIdLength < 64
      && r.userIdLength <= 64 && r.userNameLength < 64 && r.displayNameLength < 96
  {
    hide SecretMask, Xored;
  }

  /** The mask of a secret: HMAC over its label, the credential id and a zero counter. */
  function MaskOf(se: SecureElement, r: Record, text: string): Option<Bytes32>
    requires RecordShaped(r)
  {
    se.hmac(Ascii(text) + r.credentialId[..r.credentialIdLength] + [0, 0, 0, 0])
  }

  /** `stored` is `plain` under `mask`, byte by byte. */
  predicate Hidden(plain: seq<byte>, mask: Bytes32, stored: seq<byte>) {
    |plain| == |stored| == 32 && forall i :: 0 <= i < 32 ==> stored[i] == Xor8(plain[i], mask[i])
  }

  /** With the secure element on and its HMAC working, no secret is stored in the clear: each is under the mask of its
      own label, the slot says so, and every other field is as in the record. With it off, the slot is the record. */
  lemma StoredSecretsAreMasked(se: SecureElement, r: Record)
    requires RecordShaped(r) && r.credentialIdLength > 0
    ensures var s, key, withUv, withoutUv := SlotOfRecord(se, r), MaskOf(se, r, "meowkey-sim-se/private-key"),
        MaskOf(se, r, "meowkey-sim-se/cred-random-uv"), MaskOf(se, r, "meowkey-sim-se/cred-random-no-uv");
      && (se.enabled && key.Some? && withUv.Some? && withoutUv.Some? ==>
           && s == PlainSlot(r).(reserved := [1, 0, 0], privateKey := s.privateKey,
                                 credRandomWithUv := s.credRandomWithUv, credRandomWithoutUv := s.credRandomWithoutUv)
           && Hidden(r.privateKey, key.value, s.privateKey)
           && Hidden(r.credRandomWithUv, withUv.value, s.credRandomWithUv)
           && Hidden(r.credRandomWithoutUv, withoutUv.value, s.credRandomWithoutUv))
      && (!se.enabled ==> s == PlainSlot(r))
  {
    hide Ascii, PlainSlot, Hidden, Xored, SecretMask;
    var plain := PlainSlot(r);
    PlainMasks(se, r);
    forall mask: Bytes32
      ensures Hidden(plain.privateKey, mask, Xored(plain.privateKey, mask))
      ensures Hidden(plain.credRandomWithUv, mask, Xored(plain.credRandomWithUv, mask))
      ensures Hidden(plain.credRandomWithoutUv, mask, Xored(plain.credRandomWithoutUv, mask))
    {
      XoredHides(plain.privateKey, mask);
      XoredHides(plain.credRandomWithUv, mask);
      XoredHides(plain.credRandomWithoutUv, mask);
    }
  }

  lemma XoredHides(field: seq<byte>, mask: Bytes32)
    requires |field| == 32
    ensures Hidden(field, mask, Xored(field, mask))
  {
  }

  lemma PlainMasks(se: SecureElement, r: Record)
    requires RecordShaped(r) && r.credentialIdLength > 0
    ensures var s := PlainSlot(r);
      && s.privateKey == r.privateKey && s.credRandomWithUv == r.credRandomWithUv
      && s.credRandomWithoutUv == r.credRandomWithoutUv && s.reserved == [0, 0, 0]
      && SecretMask(se, s, PRIVATE_KEY_LABEL) == MaskOf(se, r, "meowkey-sim-se/private-key")
      && SecretMask(se, s, WITH_UV_LABEL) == MaskOf(se, r, "meowkey-sim-se/cred-random-uv")
      && SecretMask(se, s, WITHOUT_UV_LABEL) == MaskOf(se, r, "meowkey-sim-se/cred-random-no-uv")
  {
    hide Ascii;
    var zeros: seq<byte> := [0, 0, 0, 0];
    assert Le32(0) == zeros;
  }

  /** A slot whose secrets are marked as masked is read only if they can be unmasked: otherwise nothing of it is
      handed on. */
  lemma UnreadableIsEmpty(se: SecureElement, s: Slot)
    requires SlotShaped(s) && s.credentialIdLength <= 32 && s.reserved[0] % 2 == 1
    ensures SecretMask(se, s, PRIVATE_KEY_LABEL) == None || SecretMask(se, s, WITH_UV_LABEL) == None
            || SecretMask(se, s, WITHOUT_UV_LABEL) == None ==>
      RecordOfSlot(se, s) == EMPTY_RECORD
  {
    hide SecretMask, Xored;
  }
}
